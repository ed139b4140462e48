/**
 * The enumeration of instruction operators: an ERROR sentinel and the four one-character
 * operators `+` ADD, `=` CHANGE, `-` REMOVE and `>` RENAME.
 */
module MigrationOperators {
  import opened Results
  import Lookup
  import Text

  const ERROR: int := 0
  const ADD: int := 1
  const CHANGE: int := 2
  const REMOVE: int := 3
  const RENAME: int := 4

  /** The name carried by an operator that is not in the table. */
  const ERROR_NAME: string := "err"

  const LOOKUP: Lookup.Table := [("+", ADD), ("=", CHANGE), ("-", REMOVE), (">", RENAME)]

  /** An operator object: its name and its number, fixed when it is made. */
  datatype Operator = Operator(name: string, value: int) {
    predicate Is(v: int)
    {
      value == v
    }

    /** `__toString`. */
    function ToString(): string
    {
      name
    }

    function JsonSerialize(): string
    {
      name
    }
  }

  /** The constructor: a number found in the table gives that entry, anything else ERROR. */
  function New(v: Option<int>): Operator
  {
    if v.None? then Operator(ERROR_NAME, ERROR)
    else match Lookup.NameOf(LOOKUP, v.value)
      case Some(n) => Operator(n, v.value)
      case None => Operator(ERROR_NAME, ERROR)
  }

  /** Lookup of an operator character (lower-cased first, as the source does); unknown gives ERROR. */
  function FromString(s: string): Operator
  {
    match Lookup.ValueOf(LOOKUP, Text.Lower(s))
    case Some(v) => New(Some(v))
    case None => New(None)
  }

  predicate ValidName(s: string)
  {
    Lookup.HasKey(LOOKUP, Text.Lower(s))
  }

  predicate ValidValue(v: int)
  {
    Lookup.AnyValue(LOOKUP, v)
  }

  lemma TableFacts()
    ensures Lookup.Unique(LOOKUP)
    ensures forall k :: Lookup.HasKey(LOOKUP, k) <==> k in {"+", "=", "-", ">"}
    ensures forall v :: Lookup.HasValue(LOOKUP, v) <==> ADD <= v <= RENAME
  {
    forall k | k in {"+", "=", "-", ">"} ensures Lookup.HasKey(LOOKUP, k) {
      if k == "+" { assert LOOKUP[0].0 == k; }
      else if k == "=" { assert LOOKUP[1].0 == k; }
      else if k == "-" { assert LOOKUP[2].0 == k; }
      else { assert LOOKUP[3].0 == k; }
    }
    forall v | ADD <= v <= RENAME ensures Lookup.HasValue(LOOKUP, v) {
      assert LOOKUP[v - 1].1 == v;
    }
  }

  /** `validValue(v)` holds exactly for the four operators 1..4. */
  lemma ValidValueIff(v: int)
    ensures ValidValue(v) <==> ADD <= v <= RENAME
  {
    TableFacts();
  }

  /** The constructor gives the table entry of a valid number and ("err", 0) for anything else. */
  lemma NewCases(v: Option<int>)
    ensures v == Some(ADD) ==> New(v) == Operator("+", ADD)
    ensures v == Some(CHANGE) ==> New(v) == Operator("=", CHANGE)
    ensures v == Some(REMOVE) ==> New(v) == Operator("-", REMOVE)
    ensures v == Some(RENAME) ==> New(v) == Operator(">", RENAME)
    ensures v.None? || !ValidValue(v.value) ==> New(v) == Operator(ERROR_NAME, ERROR)
  {
    TableFacts();
    if v.Some? && ValidValue(v.value) {
      var n := Lookup.NameOf(LOOKUP, v.value).value;
      assert (n, v.value) in LOOKUP;
      var i :| 0 <= i < |LOOKUP| && LOOKUP[i] == (n, v.value);
      assert i == v.value - 1;
    }
  }

  /** The four operator characters have no letters, so lower-casing cannot produce one. */
  lemma LowerIsOperator(s: string)
    ensures Text.Lower(s) in {"+", "=", "-", ">"} <==> s in {"+", "=", "-", ">"}
  {
    Text.LowerFixesNonLetters(s, "+");
    Text.LowerFixesNonLetters(s, "=");
    Text.LowerFixesNonLetters(s, "-");
    Text.LowerFixesNonLetters(s, ">");
  }

  /** `fromString` maps `+`, `=`, `-`, `>` to ADD, CHANGE, REMOVE, RENAME and any other string to ERROR. */
  lemma FromStringCases(s: string)
    ensures s == "+" ==> FromString(s) == Operator("+", ADD)
    ensures s == "=" ==> FromString(s) == Operator("=", CHANGE)
    ensures s == "-" ==> FromString(s) == Operator("-", REMOVE)
    ensures s == ">" ==> FromString(s) == Operator(">", RENAME)
    ensures s !in {"+", "=", "-", ">"} ==>
              FromString(s) == Operator(ERROR_NAME, ERROR) && !ValidValue(FromString(s).value)
  {
    TableFacts();
    LowerIsOperator(s);
    var l := Text.Lower(s);
    var r := Lookup.ValueOf(LOOKUP, l);
    if r.Some? {
      var i :| 0 <= i < |LOOKUP| && LOOKUP[i] == (l, r.value);
      assert l == s by { Text.LowerFixesNonLetters(s, l); }
      NewCases(r);
    } else {
      NewCases(None);
    }
    ValidValueIff(ERROR);
  }

  /** `validName(s)` holds iff `s` is one of the four operator characters, iff `fromString(s)` is not ERROR. */
  lemma ValidNameIff(s: string)
    ensures ValidName(s) <==> s in {"+", "=", "-", ">"}
    ensures ValidName(s) <==> !FromString(s).Is(ERROR)
  {
    TableFacts();
    LowerIsOperator(s);
    FromStringCases(s);
  }

  /** Round trip: looking up the name of any constructed operator gives that operator back. */
  lemma FromStringOfName(v: Option<int>)
    ensures FromString(New(v).name) == New(v)
  {
    NewCases(v);
    FromStringCases(New(v).name);
    if v.Some? && ValidValue(v.value) {
      ValidValueIff(v.value);
    }
  }

  /** `is`, `__toString`, `jsonSerialize` and `getName` all read the same two fields. */
  lemma Accessors(op: Operator, v: int)
    ensures op.Is(v) <==> op.value == v
    ensures op.ToString() == op.JsonSerialize() == op.name
  {
  }
}

/**
 * The enumeration of setting types: an ERROR sentinel and four scalar tags, each with the
 * three-letter name used in instruction lines and in the stored schema.
 */
module FieldTypes {
  import opened Results
  import Lookup
  import Text

  const ERROR: int := 0
  const BOOLEAN: int := 1
  const FLOAT: int := 2
  const INTEGER: int := 3
  const STRING: int := 4

  /** The name carried by a field type that is not in the table. */
  const ERROR_NAME: string := "err"

  const LOOKUP: Lookup.Table := [("bln", BOOLEAN), ("flt", FLOAT), ("int", INTEGER), ("str", STRING)]

  /** A field type object: its name and its number, fixed when it is made. */
  datatype FieldType = FieldType(name: string, value: int) {
    predicate Is(v: int)
    {
      value == v
    }

    /** `__toString`. */
    function ToString(): string
    {
      name
    }

    function JsonSerialize(): string
    {
      name
    }
  }

  /** The constructor: a number found in the table gives that entry, anything else ERROR. */
  function New(v: Option<int>): FieldType
  {
    if v.None? then FieldType(ERROR_NAME, ERROR)
    else match Lookup.NameOf(LOOKUP, v.value)
      case Some(n) => FieldType(n, v.value)
      case None => FieldType(ERROR_NAME, ERROR)
  }

  /** Case-insensitive lookup of a name; an unknown name gives ERROR. */
  function FromString(s: string): FieldType
  {
    match Lookup.ValueOf(LOOKUP, Text.Lower(s))
    case Some(v) => New(Some(v))
    case None => New(None)
  }

  predicate ValidName(s: string)
  {
    Lookup.HasKey(LOOKUP, Text.Lower(s))
  }

  predicate ValidValue(v: int)
  {
    Lookup.AnyValue(LOOKUP, v)
  }

  lemma TableFacts()
    ensures Lookup.Unique(LOOKUP)
    ensures forall k :: Lookup.HasKey(LOOKUP, k) <==> k in {"bln", "flt", "int", "str"}
    ensures forall v :: Lookup.HasValue(LOOKUP, v) <==> BOOLEAN <= v <= STRING
  {
    forall k | k in {"bln", "flt", "int", "str"} ensures Lookup.HasKey(LOOKUP, k) {
      if k == "bln" { assert LOOKUP[0].0 == k; }
      else if k == "flt" { assert LOOKUP[1].0 == k; }
      else if k == "int" { assert LOOKUP[2].0 == k; }
      else { assert LOOKUP[3].0 == k; }
    }
    forall v | BOOLEAN <= v <= STRING ensures Lookup.HasValue(LOOKUP, v) {
      assert LOOKUP[v - 1].1 == v;
    }
  }

  /** `validValue(v)` holds exactly for the four tags 1..4; 0 and -1 are rejected. */
  lemma ValidValueIff(v: int)
    ensures ValidValue(v) <==> BOOLEAN <= v <= STRING
  {
    TableFacts();
  }

  /** The constructor gives the table entry of a valid number and ("err", 0) for anything else. */
  lemma NewCases(v: Option<int>)
    ensures v == Some(BOOLEAN) ==> New(v) == FieldType("bln", BOOLEAN)
    ensures v == Some(FLOAT) ==> New(v) == FieldType("flt", FLOAT)
    ensures v == Some(INTEGER) ==> New(v) == FieldType("int", INTEGER)
    ensures v == Some(STRING) ==> New(v) == FieldType("str", STRING)
    ensures v.None? || !ValidValue(v.value) ==> New(v) == FieldType(ERROR_NAME, ERROR)
  {
    TableFacts();
    if v.Some? && ValidValue(v.value) {
      var n := Lookup.NameOf(LOOKUP, v.value).value;
      assert (n, v.value) in LOOKUP;
      var i :| 0 <= i < |LOOKUP| && LOOKUP[i] == (n, v.value);
      assert i == v.value - 1;
    }
  }

  /**
   * `fromString` ignores case, maps "bln", "flt", "int", "str" to 1, 2, 3, 4, and every
   * other name to ERROR with name "err", never to a valid tag.
   */
  lemma FromStringCases(s: string)
    ensures Text.Lower(s) == "bln" ==> FromString(s) == FieldType("bln", BOOLEAN)
    ensures Text.Lower(s) == "flt" ==> FromString(s) == FieldType("flt", FLOAT)
    ensures Text.Lower(s) == "int" ==> FromString(s) == FieldType("int", INTEGER)
    ensures Text.Lower(s) == "str" ==> FromString(s) == FieldType("str", STRING)
    ensures Text.Lower(s) !in {"bln", "flt", "int", "str"} ==>
              FromString(s) == FieldType(ERROR_NAME, ERROR) && !ValidValue(FromString(s).value)
  {
    TableFacts();
    var l := Text.Lower(s);
    var r := Lookup.ValueOf(LOOKUP, l);
    if r.Some? {
      var i :| 0 <= i < |LOOKUP| && LOOKUP[i] == (l, r.value);
      NewCases(r);
    } else {
      NewCases(None);
    }
    ValidValueIff(ERROR);
  }

  /** `validName(s)` holds iff the lower-cased name is in the table, iff `fromString(s)` is not ERROR. */
  lemma ValidNameIff(s: string)
    ensures ValidName(s) <==> Text.Lower(s) in {"bln", "flt", "int", "str"}
    ensures ValidName(s) <==> !FromString(s).Is(ERROR)
  {
    TableFacts();
    FromStringCases(s);
  }

  /** For a valid name, the name of `fromString(s)` is the lower-cased `s`. */
  lemma NameOfFromString(s: string)
    requires ValidName(s)
    ensures FromString(s).name == Text.Lower(s)
  {
    ValidNameIff(s);
    FromStringCases(s);
  }

  /** Round trip: looking up the name of any constructed field type gives that field type back. */
  lemma FromStringOfName(v: Option<int>)
    ensures FromString(New(v).name) == New(v)
  {
    NewCases(v);
    var n := New(v).name;
    assert Text.Lower(n) == n;
    FromStringCases(n);
    if v.Some? && ValidValue(v.value) {
      ValidValueIff(v.value);
    }
  }

  /** `fromString` and `validName` see only the lower-cased name. */
  lemma CaseInsensitive(s: string)
    ensures FromString(s) == FromString(Text.Lower(s))
    ensures ValidName(s) == ValidName(Text.Lower(s))
  {
    Text.LowerIdempotent(s);
  }

  /** `is`, `__toString`, `jsonSerialize` and `getName` all read the same two fields. */
  lemma Accessors(t: FieldType, v: int)
    ensures t.Is(v) <==> t.value == v
    ensures t.ToString() == t.JsonSerialize() == t.name
  {
  }
}

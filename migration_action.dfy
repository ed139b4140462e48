/**
 * One instruction line of a migration file, `field[type] op value`, parsed into its pieces.
 */
module MigrationAction {
  import opened Results
  import Text
  import FieldTypes
  import MigrationOperators

  /**
   * A parsed instruction. `fieldType` is None when the line gave no bracket suffix (the typed
   * property stays uninitialised); `value` is None when the line ends after the operator.
   */
  datatype Action = Action(
    field: string,
    operator: MigrationOperators.Operator,
    fieldType: Option<FieldTypes.FieldType>,
    value: Option<string>)

  datatype ActionError = ReservedField | MissingValue
  {
    function Message(): string
    {
      match this
      case ReservedField => "Cannot access or modify the configVersion setting"
      case MissingValue => "Non-REMOVE action without a value"
    }
  }

  /** The field name, lower-cased, that no instruction may touch. */
  const RESERVED: string := "configversion"

  /** The two characters a line writes for an empty value. */
  const EMPTY_QUOTES: string := "\"\""

  /**
   * `substr($string, 0, stripos($string, ' '))`: everything before the first space. Without a
   * space `stripos` gives false, which `substr` reads as length 0.
   */
  function RawField(line: string): (r: string)
    ensures |r| <= |line| && r == line[..|r|] && ' ' !in r
    ensures ' ' in line ==> |r| < |line| && line[|r|] == ' '
    ensures ' ' !in line ==> r == []
  {
    FirstChar(line, ' ');
    match Text.Stripos(line, " ")
    case None => []
    case Some(k) => line[..k]
  }

  /** The field name: the raw field cut at its first `[`. */
  function BareField(raw: string): (r: string)
    ensures |r| <= |raw| && r == raw[..|r|] && '[' !in r
    ensures '[' !in raw ==> r == raw
    ensures '[' in raw ==> raw[|r|] == '['
  {
    FirstChar(raw, '[');
    match Text.Stripos(raw, "[")
    case None => raw
    case Some(b) => raw[..b]
  }

  /** The search for a one-character pattern that is not a letter finds its first occurrence. */
  lemma FirstChar(s: string, c: char)
    requires !Text.IsLetter(c)
    ensures Text.Stripos(s, [c]).None? ==> c !in s
    ensures Text.Stripos(s, [c]).Some? ==>
              Text.Stripos(s, [c]).value < |s| && s[Text.Stripos(s, [c]).value] == c && c !in s[..Text.Stripos(s, [c]).value]
  {
    assert Text.LetterFree([c]);
    var r := Text.Stripos(s, [c]);
    assert r == Text.IndexOf(s, [c]);
    if r.None? {
      forall i | 0 <= i < |s| ensures s[i] != c {
        assert !Text.OccursAt(s, [c], i);
        assert s[i..i + 1] == [s[i]];
      }
    } else {
      var k := r.value;
      assert s[k..k + 1] == [c];
      NoEarlierChar(s, c, k);
    }
  }

  /** No occurrence of the one-character pattern `[c]` before `k` means no `c` in `s[..k]`. */
  lemma NoEarlierChar(s: string, c: char, k: nat)
    requires k <= |s|
    requires forall j :: 0 <= j < k ==> !Text.OccursAt(s, [c], j)
    ensures c !in s[..k]
  {
    forall j | 0 <= j < k ensures s[j] != c {
      assert !Text.OccursAt(s, [c], j);
      assert s[j..j + 1] == [s[j]];
    }
  }

  /**
   * The type named by the bracket suffix: the 5 characters after `[` when the raw field holds
   * `[]`, the 3 characters after it otherwise; None without a `[`.
   */
  function TypeOf(raw: string): (r: Option<FieldTypes.FieldType>)
    ensures r.None? <==> '[' !in raw
    ensures '[' in raw && !Text.Contains(raw, "[]") ==>
              r == Some(FieldTypes.FromString(Text.Substr(raw, |BareField(raw)| + 1, 3)))
    ensures Text.Contains(raw, "[]") ==>
              r == Some(FieldTypes.FromString(Text.Substr(raw, |BareField(raw)| + 1, 5)))
  {
    var f := BareField(raw);
    if '[' !in raw then
      NoBracketNoPair(raw);
      None
    else
      var len := if Text.Contains(raw, "[]") then 5 else 3;
      Some(FieldTypes.FromString(Text.Substr(raw, |f| + 1, len)))
  }

  lemma NoBracketNoPair(raw: string)
    requires '[' !in raw
    ensures !Text.Contains(raw, "[]")
  {
    assert Text.LetterFree("[]");
    forall j | 0 <= j && j + 2 <= |raw| ensures !Text.OccursAt(raw, "[]", j) {
      assert raw[j..j + 2][0] == raw[j];
    }
  }

  /**
   * A raw field holding `[]` never names a type: a name is three letters, so the five
   * characters after the `[` could only match if they were the end of the field, and then no
   * `[]` would fit in it.
   */
  lemma ArraySuffixIsError(raw: string)
    requires Text.Contains(raw, "[]")
    ensures TypeOf(raw) == Some(FieldTypes.FieldType(FieldTypes.ERROR_NAME, FieldTypes.ERROR))
  {
    var f := BareField(raw);
    var s := Text.Substr(raw, |f| + 1, 5);
    SuffixNotName(raw);
    FieldTypes.FromStringCases(s);
  }

  lemma SuffixNotName(raw: string)
    requires Text.Contains(raw, "[]")
    ensures Text.Lower(Text.Substr(raw, |BareField(raw)| + 1, 5)) !in {"bln", "flt", "int", "str"}
  {
    var f := BareField(raw);
    var p := PairAt(raw);
    BracketAfterField(raw, p);
    var s := Text.Substr(raw, |f| + 1, 5);
    var l := Text.Lower(s);
    if |s| == 3 {
      assert |raw| == |f| + 4 && s == raw[|f| + 1..|f| + 4];
      var i := if p == |f| then 0 else p - |f| - 1;
      assert s[i] == raw[|f| + 1 + i];
      assert !Text.IsLetter(l[i]);
      NonLetterNotName(l, i);
    } else {
      assert |l| != 3;
    }
  }

  /** Where a raw field holding `[]` holds it. */
  lemma PairAt(raw: string) returns (p: nat)
    requires Text.Contains(raw, "[]")
    ensures p + 2 <= |raw| && raw[p] == '[' && raw[p + 1] == ']'
  {
    assert Text.LetterFree("[]");
    var r := Text.Stripos(raw, "[]");
    assert r == Text.IndexOf(raw, "[]");
    p := r.value;
    assert Text.OccursAt(raw, "[]", p);
    assert raw[p..p + 2][0] == raw[p] && raw[p..p + 2][1] == raw[p + 1];
  }

  /** A `[` comes no earlier than the end of the bare field. */
  lemma BracketAfterField(raw: string, p: nat)
    requires p < |raw| && raw[p] == '['
    ensures p >= |BareField(raw)|
  {
    var f := BareField(raw);
    assert raw[..|f|] == f && '[' !in f;
    assert forall j :: 0 <= j < |f| ==> raw[j] == f[j];
  }

  lemma NonLetterNotName(l: string, i: nat)
    requires i < |l| && !Text.IsLetter(l[i])
    ensures l !in {"bln", "flt", "int", "str"}
  {
  }

  /**
   * The constructor. The field is checked against
   * `configVersion` before the operator and value are read; a value shorter than one character
   * after the operator's trailing space counts as absent, and `""` stands for the empty string.
   */
  function Parse(line: string): (r: Result<Action, ActionError>)
    ensures r.Success? ==> |r.value.field| <= |line| && r.value.field == line[..|r.value.field|]
    ensures r.Success? ==> ' ' !in r.value.field && '[' !in r.value.field
    ensures r.Success? ==> Text.Lower(r.value.field) != RESERVED
    ensures r.Success? && r.value.value.None? ==> r.value.operator.value >= MigrationOperators.REMOVE
    ensures r.Success? ==> r.value.value != Some(EMPTY_QUOTES)
  {
    var raw := RawField(line);
    var field := BareField(raw);
    assert |field| <= |line| && field == line[..|field|] && ' ' !in field by {
      assert field == raw[..|field|] && raw == line[..|raw|];
    }
    if Text.Lower(field) == RESERVED then Failure(ReservedField)
    else
      var op := MigrationOperators.FromString(Text.Substr(line, |raw| + 1, 1));
      var value := if |line| > |raw| + 3 then Some(line[|raw| + 3..]) else None;
      if op.value < MigrationOperators.REMOVE && value.None? then Failure(MissingValue)
      else Success(Action(field, op, TypeOf(raw), if value == Some(EMPTY_QUOTES) then Some("") else value))
  }

  /**
   * Where `Parse` reads each part: the field runs up to the first space or `[`, the type comes
   * from the bracket suffix, the operator is the one character after the raw field and its
   * space, and the value is everything from two characters further on, present only when that
   * leaves at least one character. It fails with ReservedField just when the field is
   * `configVersion` in any case, and with MissingValue just when, past that check, an ERROR,
   * ADD or CHANGE operator has no value.
   */
  lemma ParseParts(line: string)
    ensures Parse(line).Success? && ' ' in line ==> line[|Parse(line).value.field|] in {' ', '['}
    ensures var raw := RawField(line);
            Parse(line).Success? ==>
              && Parse(line).value.field == BareField(raw)
              && Parse(line).value.fieldType == TypeOf(raw)
              && Parse(line).value.operator == MigrationOperators.FromString(Text.Substr(line, |raw| + 1, 1))
              && (Parse(line).value.value.Some? <==> |line| > |raw| + 3)
              && (Parse(line).value.value.Some? ==>
                    Parse(line).value.value.value == if line[|raw| + 3..] == EMPTY_QUOTES then "" else line[|raw| + 3..])
    ensures var raw := RawField(line);
            && (Parse(line) == Failure(ReservedField) <==> Text.Lower(BareField(raw)) == RESERVED)
            && (Parse(line) == Failure(MissingValue) <==>
                  && Text.Lower(BareField(raw)) != RESERVED
                  && MigrationOperators.FromString(Text.Substr(line, |raw| + 1, 1)).value < MigrationOperators.REMOVE
                  && |line| <= |raw| + 3)
  {
  }

  /** The instruction line that writes an action: the inverse of `Parse` on well-formed actions. */
  function Format(a: Action): string
  {
    a.field + TypeSuffix(a.fieldType) + " " + a.operator.name + ValueSuffix(a.value)
  }

  function TypeSuffix(t: Option<FieldTypes.FieldType>): string
  {
    if t.Some? then "[" + t.value.name + "]" else ""
  }

  function ValueSuffix(v: Option<string>): string
  {
    match v
    case None => ""
    case Some(s) => " " + (if s == "" then EMPTY_QUOTES else s)
  }

  /** The type names a bracket suffix can produce: the four table names and the error name. */
  predicate CanonicalType(t: FieldTypes.FieldType)
  {
    t.name in {"bln", "flt", "int", "str", "err"} && FieldTypes.FromString(t.name) == t
  }

  /** A canonical type name is three lower-case letters. */
  lemma CanonicalTypeName(t: FieldTypes.FieldType)
    requires CanonicalType(t)
    ensures |t.name| == 3
    ensures forall i :: 0 <= i < 3 ==> 'a' <= t.name[i] <= 'z'
  {
  }

  /** What a line can express: a plain unreserved field, a valid operator, a value where one is needed. */
  predicate WellFormed(a: Action)
  {
    && ' ' !in a.field && '[' !in a.field
    && Text.Lower(a.field) != RESERVED
    && (a.fieldType.Some? ==> CanonicalType(a.fieldType.value))
    && MigrationOperators.ValidName(a.operator.name)
    && MigrationOperators.FromString(a.operator.name) == a.operator
    && (a.value.None? ==> a.operator.value >= MigrationOperators.REMOVE)
    && a.value != Some(EMPTY_QUOTES)
  }

  /** A line whose raw field has no space splits there. */
  lemma RawFieldOf(raw: string, rest: string)
    requires ' ' !in raw
    ensures ' ' in raw + " " + rest
    ensures RawField(raw + " " + rest) == raw
  {
    var line := raw + " " + rest;
    assert line[|raw|] == ' ';
    assert line[..|raw|] == raw;
  }

  /** A raw field made of a plain field and a suffix starting with `[` is cut back to the field. */
  lemma BareFieldOf(f: string, suffix: string)
    requires '[' !in f
    requires suffix == [] || suffix[0] == '['
    ensures BareField(f + suffix) == f
  {
    var raw := f + suffix;
    assert raw[..|f|] == f;
    if suffix != [] {
      assert raw[|f|] == '[';
    } else {
      assert raw == f;
    }
  }

  /** Any field that lower-cases to `configversion`, with or without a type suffix, is refused. */
  lemma ReservedRejected(f: string, suffix: string, rest: string)
    requires ' ' !in f && '[' !in f && ' ' !in suffix
    requires suffix == [] || suffix[0] == '['
    requires Text.Lower(f) == RESERVED
    ensures Parse(f + suffix + " " + rest) == Failure(ReservedField)
  {
    assert f + suffix + " " + rest == (f + suffix) + " " + rest;
    RawFieldOf(f + suffix, rest);
    BareFieldOf(f, suffix);
  }

  /** A bracket suffix holding three characters other than brackets contains no `[]`. */
  lemma NoEmptyBrackets(f: string, name: string)
    requires '[' !in f && |name| == 3 && '[' !in name && ']' !in name
    ensures !Text.Contains(f + "[" + name + "]", "[]")
  {
    var raw := f + "[" + name + "]";
    assert Text.LetterFree("[]");
    forall j | 0 <= j && j + 2 <= |raw| ensures !Text.OccursAt(raw, "[]", j) {
      if j < |f| {
        assert raw[j] == f[j];
      } else if j == |f| {
        assert raw[j + 1] == name[0];
      } else {
        assert raw[j] == name[j - |f| - 1];
      }
    }
  }

  /**
   * A three-character bracket suffix is looked up as a type name, in any case: `f[INT]` is
   * INTEGER, and `f[xyz]` is ERROR.
   */
  lemma ScalarSuffixType(f: string, name: string)
    requires '[' !in f && |name| == 3 && '[' !in name && ']' !in name
    ensures TypeOf(f + "[" + name + "]") == Some(FieldTypes.FromString(name))
  {
    var raw := f + "[" + name + "]";
    assert raw == f + ("[" + name + "]");
    BareFieldOf(f, "[" + name + "]");
    NoEmptyBrackets(f, name);
    assert raw[|f|] == '[';
    assert Text.Substr(raw, |f| + 1, 3) == name by {
      assert raw[|f| + 1..|f| + 4] == name;
    }
  }

  /** A canonical type suffix reads back as the type it names. */
  lemma TypeSuffixRoundTrip(f: string, t: FieldTypes.FieldType)
    requires '[' !in f && CanonicalType(t)
    ensures TypeOf(f + TypeSuffix(Some(t))) == Some(t)
  {
    var raw := f + "[" + t.name + "]";
    assert raw == f + TypeSuffix(Some(t));
    CanonicalNoBrackets(t);
    ScalarSuffixType(f, t.name);
  }

  lemma CanonicalNoBrackets(t: FieldTypes.FieldType)
    requires CanonicalType(t)
    ensures |t.name| == 3 && '[' !in t.name && ']' !in t.name
  {
    CanonicalTypeName(t);
    forall i | 0 <= i < |t.name| ensures t.name[i] != '[' && t.name[i] != ']' {
      assert 'a' <= t.name[i] <= 'z';
    }
  }

  /** The value part of a line reads back as the value, with `""` for the empty string. */
  lemma ValueSuffixRoundTrip(head: string, v: Option<string>)
    requires v != Some(EMPTY_QUOTES)
    ensures var line := head + ValueSuffix(v);
            (|line| > |head| + 1 <==> v.Some?)
            && (v.Some? ==> var w := line[|head| + 1..]; (if w == EMPTY_QUOTES then "" else w) == v.value)
  {
    var line := head + ValueSuffix(v);
    if v.Some? {
      assert line[|head| + 1..] == if v.value == "" then EMPTY_QUOTES else v.value;
    }
  }

  /** The field, type and operator of a written action read back as they were. */
  lemma HeadRoundTrip(a: Action)
    requires ' ' !in a.field && '[' !in a.field
    requires a.fieldType.Some? ==> CanonicalType(a.fieldType.value)
    requires MigrationOperators.ValidName(a.operator.name)
    requires MigrationOperators.FromString(a.operator.name) == a.operator
    ensures var raw := a.field + TypeSuffix(a.fieldType);
            && ' ' in Format(a)
            && Format(a) == (raw + " " + a.operator.name) + ValueSuffix(a.value)
            && RawField(Format(a)) == raw
            && BareField(raw) == a.field
            && TypeOf(raw) == a.fieldType
            && |a.operator.name| == 1
            && MigrationOperators.FromString(Text.Substr(Format(a), |raw| + 1, 1)) == a.operator
  {
    var suffix := TypeSuffix(a.fieldType);
    var raw := a.field + suffix;
    var line := Format(a);
    SuffixHasNoSpace(a.fieldType);
    assert line == raw + " " + (a.operator.name + ValueSuffix(a.value));
    RawFieldOf(raw, a.operator.name + ValueSuffix(a.value));
    BareFieldOf(a.field, suffix);
    if a.fieldType.Some? {
      TypeSuffixRoundTrip(a.field, a.fieldType.value);
    }
    MigrationOperators.ValidNameIff(a.operator.name);
    assert |a.operator.name| == 1;
    OperatorAt(line, raw, a.operator.name, ValueSuffix(a.value));
  }

  lemma SuffixHasNoSpace(t: Option<FieldTypes.FieldType>)
    requires t.Some? ==> CanonicalType(t.value)
    ensures ' ' !in TypeSuffix(t)
  {
    if t.Some? {
      CanonicalTypeName(t.value);
      assert TypeSuffix(t) == "[" + t.value.name + "]";
    }
  }

  lemma OperatorAt(line: string, raw: string, name: string, rest: string)
    requires line == raw + " " + (name + rest) && |name| == 1
    ensures Text.Substr(line, |raw| + 1, 1) == name
  {
    assert line[|raw| + 1..|raw| + 2] == name;
  }

  /** Writing a well-formed action and parsing the line gives the action back. */
  lemma ParseFormat(a: Action)
    requires WellFormed(a)
    ensures Parse(Format(a)) == Success(a)
  {
    HeadRoundTrip(a);
    var raw := a.field + TypeSuffix(a.fieldType);
    var head := raw + " " + a.operator.name;
    assert |head| == |raw| + 2;
    ValueSuffixRoundTrip(head, a.value);
    ParseOfParts(Format(a), raw, a.field, a.operator);
  }

  /** How `Parse` reads a line once its raw field, bare field and operator are known. */
  lemma ParseOfParts(line: string, raw: string, field: string, op: MigrationOperators.Operator)
    requires RawField(line) == raw && BareField(raw) == field
    requires Text.Lower(field) != RESERVED
    requires MigrationOperators.FromString(Text.Substr(line, |raw| + 1, 1)) == op
    ensures var value := if |line| > |raw| + 3 then Some(line[|raw| + 3..]) else None;
            Parse(line) ==
              if op.value < MigrationOperators.REMOVE && value.None? then Failure(MissingValue)
              else Success(Action(field, op, TypeOf(raw), if value == Some(EMPTY_QUOTES) then Some("") else value))
  {
  }

  /**
   * A line that ends after the operator has no value: REMOVE and RENAME accept that, the
   * other operators are refused.
   */
  lemma MissingValueRejected(a: Action)
    requires ' ' !in a.field && '[' !in a.field && Text.Lower(a.field) != RESERVED
    requires a.fieldType.Some? ==> CanonicalType(a.fieldType.value)
    requires MigrationOperators.ValidName(a.operator.name)
    requires MigrationOperators.FromString(a.operator.name) == a.operator
    requires a.value.None?
    ensures Parse(Format(a)) ==
              if a.operator.value < MigrationOperators.REMOVE then Failure(MissingValue) else Success(a)
  {
    HeadRoundTrip(a);
    var raw := a.field + TypeSuffix(a.fieldType);
    var head := raw + " " + a.operator.name;
    assert |head| == |raw| + 2;
    ValueSuffixRoundTrip(head, a.value);
    ParseOfParts(Format(a), raw, a.field, a.operator);
  }

  /**
   * A line without a space has an empty field name: the operator is read from its second
   * character and the value from its fourth on.
   */
  lemma NoSpaceLine(line: string)
    requires ' ' !in line
    ensures Parse(line).Success? ==>
              && Parse(line).value.field == []
              && Parse(line).value.fieldType.None?
              && Parse(line).value.operator == MigrationOperators.FromString(Text.Substr(line, 1, 1))
  {
  }
}

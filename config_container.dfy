/**
 * The typed settings store: two parallel PHP arrays, field -> type and field -> value,
 * with queries, removal, renaming and a `set` that substitutes `${key}` placeholders and
 * coerces the value to the field's type.
 */
module ConfigContainer {
  import opened Results
  import Text
  import FieldTypes

  /** What marks a value as holding placeholders. */
  const OPEN: string := "${"

  /** A stored or incoming value: PHP `mixed`, restricted to scalars and lists (no JSON objects). */
  datatype Value =
    | Null
    | Bool(b: bool)
    | Int(i: int)
      /** A float, kept as the decimal text it was written with (`floatval` is not computed). */
    | Float(text: string)
    | Str(s: string)
    | List(items: seq<Value>)

  datatype ContainerError = RemoveMissing | RenameMissing | InvalidType
  {
    function Message(): string
    {
      match this
      case RemoveMissing => "Cannot remove a field that doesn't exist"
      case RenameMissing => "Cannot rename a field that doesn't exist"
      case InvalidType => "Invalid type given for new setting"
    }
  }

  /** PHP's conversion of a value to a string (string interpolation, `strtolower`, `str_replace`). */
  function AsText(v: Value): string
  {
    match v
    case Null => ""
    case Bool(b) => if b then "1" else ""
    case Int(n) => Text.IntToString(n)
    case Float(t) => t
    case Str(s) => s
    case List(_) => "Array"
  }

  /** PHP's `boolval`. */
  predicate Truthy(v: Value)
  {
    match v
    case Null => false
    case Bool(b) => b
    case Int(n) => n != 0
    case Float(t) => Text.Truthy(t)
    case Str(s) => Text.Truthy(s)
    case List(items) => |items| > 0
  }

  /** PHP's `intval`. */
  function IntValue(v: Value): int
  {
    match v
    case Null => 0
    case Bool(b) => if b then 1 else 0
    case Int(n) => n
    case Float(t) => Text.IntVal(t)
    case Str(s) => Text.IntVal(s)
    case List(items) => if |items| > 0 then 1 else 0
  }

  /**
   * The `switch` of `set`: the value stored for a field of type `t`, or None for a type
   * outside the table (the `default:` branch, which stores nothing).
   */
  function Coerce(t: FieldTypes.FieldType, v: Value): Option<Value>
  {
    if t.value == FieldTypes.BOOLEAN then
      var l := Text.Lower(AsText(v));
      Some(Bool(if l == "true" || l == "false" then l == "true" else Truthy(v)))
    else if t.value == FieldTypes.FLOAT then Some(Float(AsText(v)))
    else if t.value == FieldTypes.INTEGER then Some(Int(IntValue(v)))
    else if t.value == FieldTypes.STRING then Some(Str(AsText(v)))
    else None
  }

  predicate Distinct(s: seq<string>)
  {
    forall i, j :: 0 <= i < j < |s| ==> s[i] != s[j]
  }

  /** `s` without `x`: how `unset` changes the key order of a PHP array. */
  function Erase(s: seq<string>, x: string): (r: seq<string>)
    ensures forall y :: y in r <==> y in s && y != x
    ensures Distinct(s) ==> Distinct(r)
  {
    if s == [] then []
    else
      var rest := Erase(s[1..], x);
      assert Distinct(s) ==> s[0] !in s[1..] && Distinct(s[1..]) by {
        if Distinct(s) {
          forall i | 0 <= i < |s[1..]| ensures s[1..][i] != s[0] {
            assert s[1..][i] == s[i + 1];
          }
        }
      }
      if s[0] == x then rest else [s[0]] + rest
  }

  /**
   * `unset` keeps the other keys in their order: erasing from two pieces is erasing from
   * each, and a single key is dropped just when it is the one erased.
   */
  lemma {:induction false} EraseAppend(s1: seq<string>, s2: seq<string>, x: string)
    ensures Erase(s1 + s2, x) == Erase(s1, x) + Erase(s2, x)
    ensures Erase([x], x) == [] && forall y :: y != x ==> Erase([y], x) == [y]
    decreases |s1|
  {
    if s1 == [] {
      assert s1 + s2 == s2;
    } else {
      assert (s1 + s2)[1..] == s1[1..] + s2;
      EraseAppend(s1[1..], s2, x);
    }
  }

  /**
   * The state of a container: the schema and settings arrays, and the key order they share
   * (PHP arrays are ordered; both arrays gain and lose keys together, so one order serves both).
   */
  datatype Store = Store(schema: map<string, FieldTypes.FieldType>, settings: map<string, Value>, order: seq<string>)
  {
    /** Both arrays have the same keys, listed once each in `order`. */
    ghost predicate Valid()
    {
      && schema.Keys == settings.Keys
      && (forall k :: k in order <==> k in settings)
      && Distinct(order)
    }

    /** `has`: the field is a key of both arrays; given the invariant, of the schema alone. */
    predicate Has(field: string)
    {
      field in schema && field in settings
    }

    /** `get`: the stored value of a present field, the default otherwise. */
    function Get(field: string, default: Value): (r: Value)
      ensures Has(field) ==> r == settings[field]
      ensures !Has(field) ==> r == default
    {
      if Has(field) then settings[field] else default
    }

    /** `getType`: the stored type of a present field, the ERROR type (value 0, name "err") otherwise. */
    function GetType(field: string): (r: FieldTypes.FieldType)
      ensures Has(field) ==> r == schema[field]
      ensures !Has(field) ==> r == FieldTypes.FieldType(FieldTypes.ERROR_NAME, FieldTypes.ERROR)
    {
      if Has(field) then schema[field] else FieldTypes.New(None)
    }

    /** `jsonSerialize`: the schema as type names, and the settings as they are. */
    function JsonSerialize(): (map<string, string>, map<string, Value>)
    {
      (map k | k in schema :: schema[k].JsonSerialize(), settings)
    }

    /** `$schema[$field] = $t; $settings[$field] = $v;`: a new key goes to the end of the order. */
    function Put(field: string, t: FieldTypes.FieldType, v: Value): (r: Store)
      ensures Valid() ==> r.Valid()
    {
      Store(schema[field := t], settings[field := v], if field in order then order else order + [field])
    }

    /** `remove`. */
    function Remove(field: string): (r: Result<Store, ContainerError>)
      ensures r.Failure? <==> !Has(field)
      ensures r.Failure? ==> r.error == RemoveMissing
      ensures Valid() && r.Success? ==> r.value.Valid()
      ensures r.Success? ==> r.value.schema == schema - {field} && r.value.settings == settings - {field}
    {
      if !Has(field) then Failure(RemoveMissing)
      else Success(Store(schema - {field}, settings - {field}, Erase(order, field)))
    }

    /** `rename`: copy the old field's type and value to the new name, then remove the old field. */
    function Rename(oldField: string, newField: string): Result<Store, ContainerError>
    {
      if !Has(oldField) then Failure(RenameMissing)
      else Put(newField, schema[oldField], settings[oldField]).Remove(oldField)
    }

    /** The `$replacements` of `set`: `${key}` and the key's value as text, in key order. */
    function Replacements(): seq<(string, string)>
    {
      seq(|order|, i requires 0 <= i < |order| =>
        ("${" + order[i] + "}", if order[i] in settings then AsText(settings[order[i]]) else ""))
    }

    /** The first step of `set`: a string holding `${` gets every placeholder replaced, in key order. */
    function Substituted(value: Value): Value
    {
      if value.Str? && Text.Contains(value.s, OPEN) then Str(Text.ReplaceEach(value.s, Replacements()))
      else value
    }

    /**
     * `set`: substitute, make a new field with the given type (which must be valid), then store
     * the value coerced to the field's type. An existing field keeps its type.
     */
    function Set(field: string, value: Value, fieldType: Option<int>): Result<Store, ContainerError>
    {
      var v := Substituted(value);
      if !Has(field) && !(fieldType.Some? && FieldTypes.ValidValue(fieldType.value)) then Failure(InvalidType)
      else Success(Assign(field, if Has(field) then schema[field] else FieldTypes.New(fieldType), v))
    }

    /**
     * The end of `set`: the field takes type `tag` (a new field joins the end of the order) and
     * the value coerced to it; a tag that coerces nothing leaves the stored value as it was.
     */
    function Assign(field: string, tag: FieldTypes.FieldType, v: Value): (r: Store)
      ensures r.schema == schema[field := tag]
      ensures Coerce(tag, v).Some? ==> r.settings == settings[field := Coerce(tag, v).value]
      ensures Coerce(tag, v).None? ==> r.settings == settings
      ensures r.order == if field in order then order else order + [field]
      ensures Valid() && (field in settings || Coerce(tag, v).Some?) ==> r.Valid()
    {
      var typed := this.(schema := schema[field := tag], order := if field in order then order else order + [field]);
      match Coerce(tag, v)
      case Some(x) => typed.(settings := settings[field := x])
      case None => typed
    }
  }

  const Empty: Store := Store(map[], map[], [])

  /** What the settings file decodes to: each top-level key may be missing. */
  datatype Decoded = Decoded(schema: Option<seq<(string, string)>>, settings: Option<map<string, Value>>)

  /** The constructor's `foreach` over the schema, after its first `pairs` entries. */
  function Fill(pairs: seq<(string, string)>, input: map<string, Value>): (r: Store)
    ensures r.Valid()
    decreases |pairs|
  {
    if pairs == [] then Empty
    else
      var before := Fill(pairs[..|pairs| - 1], input);
      var (field, typeName) := pairs[|pairs| - 1];
      if field in input then before.Put(field, FieldTypes.FromString(typeName), input[field]) else before
  }

  /** One more schema entry loads that field, when it has a value. */
  lemma FillStep(pairs: seq<(string, string)>, i: int, input: map<string, Value>)
    requires 0 <= i < |pairs|
    ensures Fill(pairs[..i + 1], input) ==
              if pairs[i].0 in input then Fill(pairs[..i], input).Put(pairs[i].0, FieldTypes.FromString(pairs[i].1), input[pairs[i].0])
              else Fill(pairs[..i], input)
  {
    assert pairs[..i + 1][..i] == pairs[..i];
  }

  /** A key of the schema list, and the type name its last entry gives. */
  predicate Listed(pairs: seq<(string, string)>, k: string)
  {
    exists i :: 0 <= i < |pairs| && pairs[i].0 == k
  }

  /** A key is listed in a non-empty list just when it is listed before the last entry or by it. */
  lemma ListedSnoc(pairs: seq<(string, string)>)
    requires pairs != []
    ensures forall k :: Listed(pairs, k) <==> Listed(pairs[..|pairs| - 1], k) || k == pairs[|pairs| - 1].0
  {
    var init := pairs[..|pairs| - 1];
    forall k ensures Listed(pairs, k) <==> Listed(init, k) || k == pairs[|pairs| - 1].0 {
      if Listed(init, k) {
        var i :| 0 <= i < |init| && init[i].0 == k;
        assert pairs[i].0 == k;
      }
      if Listed(pairs, k) && k != pairs[|pairs| - 1].0 {
        var i :| 0 <= i < |pairs| && pairs[i].0 == k;
        assert init[i].0 == k;
      }
    }
  }

  predicate LastEntry(pairs: seq<(string, string)>, i: int)
    requires 0 <= i < |pairs|
  {
    forall j :: i < j < |pairs| ==> pairs[j].0 != pairs[i].0
  }

  /**
   * The constructor loads exactly the listed fields that have a value, each with the value
   * given and the type its (last) schema entry names.
   */
  lemma {:induction false} FillContents(pairs: seq<(string, string)>, input: map<string, Value>)
    ensures forall k :: Fill(pairs, input).Has(k) <==> k in input && Listed(pairs, k)
    ensures forall k :: Fill(pairs, input).Has(k) ==> Fill(pairs, input).settings[k] == input[k]
    ensures forall i :: 0 <= i < |pairs| && pairs[i].0 in Fill(pairs, input).schema && LastEntry(pairs, i) ==>
              Fill(pairs, input).schema[pairs[i].0] == FieldTypes.FromString(pairs[i].1)
    decreases |pairs|
  {
    if pairs != [] {
      var init := pairs[..|pairs| - 1];
      FillContents(init, input);
      var r := Fill(pairs, input);
      var (field, typeName) := pairs[|pairs| - 1];
      ListedSnoc(pairs);
      forall i | 0 <= i < |pairs| && pairs[i].0 in r.schema && LastEntry(pairs, i)
        ensures r.schema[pairs[i].0] == FieldTypes.FromString(pairs[i].1)
      {
        if i < |pairs| - 1 {
          assert init[i] == pairs[i];
          assert LastEntry(init, i);
        }
      }
    }
  }

  /**
   * The decoded input can be loaded: both keys present, with as many types as values. The
   * schema list stands for a decoded PHP array, whose `count` is its number of distinct names.
   */
  predicate Usable(data: Option<Decoded>)
  {
    data.Some? && data.value.schema.Some? && data.value.settings.Some?
    && |Keys(data.value.schema.value)| == |data.value.settings.value|
  }

  /** The constructor: unusable input gives an empty container. */
  function Load(data: Option<Decoded>): Store
  {
    if !Usable(data) then Empty else Fill(data.value.schema.value, data.value.settings.value)
  }

  /** How `set`, `remove` and `rename` report: the new state on success, no change on failure. */
  predicate Reflects<E(==)>(res: Result<Store, E>, before: Store, r: Outcome<E>, after: Store)
  {
    match res
    case Success(st) => r.Pass? && after == st
    case Failure(e) => r == Fail(e) && after == before
  }

  /** Under the invariant, `has` is membership in either array. */
  lemma HasOnValid(st: Store, field: string)
    requires st.Valid()
    ensures st.Has(field) <==> field in st.schema
    ensures st.Has(field) <==> field in st.settings
  {
  }

  /**
   * `rename` fails on a missing old field; otherwise the new name gets the old field's type
   * and value (overwriting any field of that name), the old name is gone (so renaming a field
   * onto itself removes it), and every other field is untouched.
   */
  lemma RenameSpec(st: Store, oldField: string, newField: string)
    requires st.Valid()
    ensures st.Rename(oldField, newField).Failure? <==> !st.Has(oldField)
    ensures st.Rename(oldField, newField).Failure? ==> st.Rename(oldField, newField).error == RenameMissing
    ensures st.Rename(oldField, newField).Success? ==>
              var r := st.Rename(oldField, newField).value;
              && r.Valid()
              && !r.Has(oldField)
              && (oldField != newField ==>
                    r.Has(newField) && r.schema[newField] == st.schema[oldField] && r.settings[newField] == st.settings[oldField])
              && (forall k :: k != oldField && k != newField ==> (r.Has(k) <==> st.Has(k)))
              && (forall k :: k != oldField && k != newField && r.Has(k) ==>
                    r.schema[k] == st.schema[k] && r.settings[k] == st.settings[k])
  {
    if st.Has(oldField) {
      var moved := st.Put(newField, st.schema[oldField], st.settings[oldField]);
      assert moved.Has(oldField);
    }
  }

  /** The coercion a valid type applies always stores something. */
  lemma ValidTypeCoerces(t: FieldTypes.FieldType, v: Value)
    requires FieldTypes.ValidValue(t.value)
    ensures Coerce(t, v).Some?
  {
    FieldTypes.ValidValueIff(t.value);
  }

  /**
   * `set` fails, changing nothing, exactly when the field is new and the type given is not
   * valid; otherwise the field is present with its old type (or, if new, the type given) and
   * the substituted value coerced to that type, and every other field is untouched.
   */
  lemma SetSpec(st: Store, field: string, value: Value, fieldType: Option<int>)
    requires st.Valid()
    ensures st.Set(field, value, fieldType).Failure? <==>
              !st.Has(field) && !(fieldType.Some? && FieldTypes.ValidValue(fieldType.value))
    ensures st.Set(field, value, fieldType).Failure? ==> st.Set(field, value, fieldType).error == InvalidType
    ensures st.Set(field, value, fieldType).Success? ==>
              var r := st.Set(field, value, fieldType).value;
              && r.Valid()
              && r.Has(field)
              && r.schema[field] == (if st.Has(field) then st.schema[field] else FieldTypes.New(fieldType))
              && (Coerce(r.schema[field], st.Substituted(value)).Some? ==>
                    r.settings[field] == Coerce(r.schema[field], st.Substituted(value)).value)
              && (Coerce(r.schema[field], st.Substituted(value)).None? ==>
                    st.Has(field) && r.settings[field] == st.settings[field])
              && (forall k :: k != field ==> (r.Has(k) <==> st.Has(k)))
              && (forall k :: k != field && r.Has(k) ==> r.schema[k] == st.schema[k] && r.settings[k] == st.settings[k])
  {
    if st.Has(field) || (fieldType.Some? && FieldTypes.ValidValue(fieldType.value)) {
      var v := st.Substituted(value);
      var tag := if st.Has(field) then st.schema[field] else FieldTypes.New(fieldType);
      if !st.Has(field) {
        FieldTypes.NewCases(fieldType);
        ValidTypeCoerces(tag, v);
      }
      AssignSpec(st, field, tag, v);
    }
  }

  /** Storing under a tag: the field holds the tag and the coerced value, nothing else changes. */
  lemma AssignSpec(st: Store, field: string, tag: FieldTypes.FieldType, v: Value)
    requires st.Valid() && (st.Has(field) || Coerce(tag, v).Some?)
    ensures var r := st.Assign(field, tag, v);
              && r.Valid()
              && r.Has(field)
              && r.schema[field] == tag
              && (Coerce(tag, v).Some? ==> r.settings[field] == Coerce(tag, v).value)
              && (Coerce(tag, v).None? ==> r.settings[field] == st.settings[field])
              && (forall k :: k != field ==> (r.Has(k) <==> st.Has(k)))
              && (forall k :: k != field && r.Has(k) ==> r.schema[k] == st.schema[k] && r.settings[k] == st.settings[k])
  {
  }

  /** Field `k` is present in `after` just when it was in `before`, with the same type and value. */
  predicate Keeps(before: Store, after: Store, k: string)
  {
    && (after.Has(k) <==> before.Has(k))
    && (before.Has(k) ==> after.schema[k] == before.schema[k] && after.settings[k] == before.settings[k])
  }

  /** `set` leaves every other field as it was. */
  lemma SetKeeps(st: Store, field: string, value: Value, fieldType: Option<int>, k: string)
    requires st.Valid() && k != field
    ensures st.Set(field, value, fieldType).Success? ==> Keeps(st, st.Set(field, value, fieldType).value, k)
  {
    SetSpec(st, field, value, fieldType);
  }

  /** `rename` leaves every field other than its two names as it was. */
  lemma RenameKeeps(st: Store, oldField: string, newField: string, k: string)
    requires st.Valid() && k != oldField && k != newField
    ensures st.Rename(oldField, newField).Success? ==> Keeps(st, st.Rename(oldField, newField).value, k)
  {
    RenameSpec(st, oldField, newField);
  }

  /** On an existing field the type argument of `set` makes no difference. */
  lemma SetIgnoresTypeOfExisting(st: Store, field: string, value: Value, t1: Option<int>, t2: Option<int>)
    requires st.Has(field)
    ensures st.Set(field, value, t1) == st.Set(field, value, t2)
  {
  }

  /**
   * BOOLEAN coercion: "true" and "false" in any case are taken literally; anything else by
   * PHP truthiness, so "" and "0" are false.
   */
  lemma BooleanCoercion(t: FieldTypes.FieldType, s: string)
    requires t.Is(FieldTypes.BOOLEAN)
    ensures Text.Lower(s) == "true" ==> Coerce(t, Str(s)) == Some(Bool(true))
    ensures Text.Lower(s) == "false" ==> Coerce(t, Str(s)) == Some(Bool(false))
    ensures Text.Lower(s) != "true" && Text.Lower(s) != "false" ==> Coerce(t, Str(s)) == Some(Bool(Text.Truthy(s)))
    ensures Coerce(t, Str("TRUE")) == Some(Bool(true))
    ensures Coerce(t, Str("")) == Some(Bool(false)) && Coerce(t, Str("0")) == Some(Bool(false))
  {
    assert Text.Lower("TRUE") == "true";
    assert Text.Lower("0") == "0";
  }

  /** INTEGER coercion reads an integer back from its own decimal text, and keeps an integer. */
  lemma IntegerCoercion(t: FieldTypes.FieldType, n: int)
    requires t.Is(FieldTypes.INTEGER)
    ensures Coerce(t, Str(Text.IntToString(n))) == Some(Int(n))
    ensures Coerce(t, Int(n)) == Some(Int(n))
  {
    Text.IntValOfIntToString(n);
  }

  /**
   * INTEGER coercion of other text takes its leading integer (white space, a sign, digits up to
   * the first non-digit), and text that does not start with one gives 0.
   */
  lemma IntegerCoercionOfText(t: FieldTypes.FieldType, ws: string, sign: string, ds: string, rest: string, other: string)
    requires t.Is(FieldTypes.INTEGER)
    requires forall i :: 0 <= i < |ws| ==> Text.IsSpace(ws[i])
    requires sign in {"", "+", "-"}
    requires Text.AllDigits(ds) && ds != []
    requires rest == [] || !Text.IsDigit(rest[0])
    requires var u := Text.TrimLeft(other);
             var w := if u != [] && (u[0] == '-' || u[0] == '+') then u[1..] else u;
             w == [] || !Text.IsDigit(w[0])
    ensures Coerce(t, Str(ws + sign + ds + rest)) ==
              Some(Int(if sign == "-" then -(Text.DigitsValue(ds) as int) else Text.DigitsValue(ds)))
    ensures Coerce(t, Str(other)) == Some(Int(0))
  {
    Text.IntValLeadingInteger(ws, sign, ds, rest);
    Text.IntValNoDigits(other);
  }

  /** STRING coercion stores a string verbatim. */
  lemma StringCoercion(t: FieldTypes.FieldType, s: string)
    requires t.Is(FieldTypes.STRING)
    ensures Coerce(t, Str(s)) == Some(Str(s))
  {
  }

  /** A field whose stored type is not valid (ERROR) keeps its old value. */
  lemma ErrorTypeKeepsValue(st: Store, field: string, value: Value, fieldType: Option<int>)
    requires st.Valid() && st.Has(field)
    requires !FieldTypes.ValidValue(st.schema[field].value)
    ensures st.Set(field, value, fieldType).Success?
    ensures st.Set(field, value, fieldType).value == st
  {
    FieldTypes.ValidValueIff(st.schema[field].value);
  }

  /** Coercing an already coerced value gives it back. */
  lemma CoerceIdempotent(t: FieldTypes.FieldType, v: Value)
    requires Coerce(t, v).Some?
    ensures Coerce(t, Coerce(t, v).value) == Coerce(t, v)
  {
    if t.value == FieldTypes.BOOLEAN {
      var b := Coerce(t, v).value;
      assert Text.Lower(AsText(b)) == AsText(b);
    }
  }

  /**
   * Setting a field to the value it holds changes nothing, when that value is one `set` could
   * have stored (a coerced value) and holds no placeholder of a stored key.
   */
  lemma SetOwnValue(st: Store, field: string, w: Value, fieldType: Option<int>)
    requires st.Valid() && st.Has(field)
    requires Coerce(st.schema[field], w) == Some(st.settings[field])
    requires st.settings[field].Str? ==>
               forall i, j :: 0 <= i < |st.order| ==> !Text.OccursAt(st.settings[field].s, "${" + st.order[i] + "}", j)
    ensures st.Set(field, st.settings[field], fieldType) == Success(st)
  {
    var v := st.settings[field];
    if v.Str? {
      UnknownPlaceholdersKept(st, v.s);
    }
    CoerceIdempotent(st.schema[field], w);
    var r := st.Assign(field, st.schema[field], st.Substituted(v));
    assert r.schema == st.schema && r.settings == st.settings && r.order == st.order;
  }

  /**
   * Without the placeholder condition setting a field to its own value can change the store:
   * a STRING field holding `${g}` takes `g`'s value.
   */
  lemma SetOwnPlaceholder(tf: FieldTypes.FieldType, tg: FieldTypes.FieldType, x: string)
    requires tf.value == FieldTypes.STRING && '$' !in x
    ensures var st := Store(map["f" := tf, "g" := tg], map["f" := Str(Placeholder("g")), "g" := Str(x)], ["f", "g"]);
            st.Set("f", st.settings["f"], None) == Success(st.(settings := st.settings["f" := Str(x)]))
  {
    var st := Store(map["f" := tf, "g" := tg], map["f" := Str(Placeholder("g")), "g" := Str(x)], ["f", "g"]);
    OwnPlaceholderSubstituted(st, x);
    SetStringTo(st, "f", st.settings["f"], x);
  }

  /** Setting an existing STRING field stores the substituted text and changes nothing else. */
  lemma SetStringTo(st: Store, field: string, value: Value, x: string)
    requires st.Valid() && st.Has(field) && st.schema[field].value == FieldTypes.STRING
    requires st.Substituted(value) == Str(x)
    ensures st.Set(field, value, None) == Success(st.(settings := st.settings[field := Str(x)]))
  {
    StringCoercion(st.schema[field], x);
    var r := st.Assign(field, st.schema[field], Str(x));
    assert r.schema == st.schema && r.order == st.order;
  }

  lemma OwnPlaceholderSubstituted(st: Store, x: string)
    requires st.schema.Keys == st.settings.Keys == {"f", "g"} && st.order == ["f", "g"]
    requires st.settings["g"] == Str(x) && '$' !in x
    ensures st.Valid()
    ensures st.Substituted(Str(Placeholder("g"))) == Str(x)
  {
    assert Distinct(st.order);
    assert PlainKey("f") && PlainKey("g");
    assert [] + Placeholder("g") + [] == Placeholder("g") && [] + x + [] == x;
    PlaceholderReplaced(st, "g", [], []);
  }

  /** A placeholder that names no stored field is left in place, and so is the rest of the text. */
  lemma UnknownPlaceholdersKept(st: Store, s: string)
    requires forall i, j :: 0 <= i < |st.order| ==> !Text.OccursAt(s, "${" + st.order[i] + "}", j)
    ensures st.Substituted(Str(s)) == Str(s)
  {
    var pairs := st.Replacements();
    forall k, j | 0 <= k < |pairs| ensures !Text.OccursAt(s, pairs[k].0, j) {
      assert pairs[k].0 == "${" + st.order[k] + "}";
    }
    Text.ReplaceEachAbsent(s, pairs);
  }

  /** The placeholder `set` replaces for a stored key. */
  function Placeholder(key: string): string
  {
    "${" + key + "}"
  }

  /** A key that can stand inside a placeholder: no `$` and no closing brace. */
  predicate PlainKey(key: string)
  {
    '$' !in key && '}' !in key
  }

  /**
   * Substitution in any store: when the stored keys are plain, text without `$` around one
   * `${k}` of a stored `k` has that placeholder replaced by `k`'s value (when the value has no
   * `$` of its own), whatever else the store holds and wherever `k` stands in the key order.
   */
  lemma PlaceholderReplaced(st: Store, k: string, p: string, q: string)
    requires st.Valid() && st.Has(k)
    requires forall key :: key in st.settings ==> PlainKey(key)
    requires '$' !in p && '$' !in q && '$' !in AsText(st.settings[k])
    ensures st.Substituted(Str(p + Placeholder(k) + q)) == Str(p + AsText(st.settings[k]) + q)
  {
    var pat := Placeholder(k);
    var pairs := st.Replacements();
    var m :| 0 <= m < |st.order| && st.order[m] == k;
    assert pairs[m] == (pat, AsText(st.settings[k]));
    assert pat[1..] == "{" + k + "}";
    forall i | 0 <= i < |pairs| ensures |pairs[i].0| > 0 && pairs[i].0[0] == '$' {
      assert pairs[i].0 == Placeholder(st.order[i]);
    }
    forall i | 0 <= i < |pairs| && i != m
      ensures !(|pairs[i].0| <= |pat + q| && (pat + q)[..|pairs[i].0|] == pairs[i].0)
    {
      assert pairs[i].0 == Placeholder(st.order[i]);
      PlaceholderNotPrefix(k, st.order[i], q);
    }
    Text.ReplaceEachOne(p, pat, q, pairs, m);
    HasPlaceholder(p, k, q);
  }

  /** The placeholder of one plain key does not start the text at the placeholder of another. */
  lemma PlaceholderNotPrefix(k: string, key: string, q: string)
    requires PlainKey(k) && PlainKey(key) && k != key
    ensures var a, b := Placeholder(k) + q, Placeholder(key);
            !(|b| <= |a| && a[..|b|] == b)
  {
    var a, b := Placeholder(k) + q, Placeholder(key);
    if |b| <= |a| {
      var i: nat;
      if |key| < |k| {
        i := |key|;
        assert b[i + 2] == '}' && a[i + 2] == k[i];
      } else if |key| == |k| {
        i :| 0 <= i < |k| && key[i] != k[i];
        assert b[i + 2] == key[i] && a[i + 2] == k[i];
      } else {
        i := |k|;
        assert b[i + 2] == key[i] && a[i + 2] == '}';
      }
      assert a[..|b|][i + 2] != b[i + 2];
    }
  }

  lemma HasPlaceholder(p: string, key: string, q: string)
    ensures Text.Contains(p + Placeholder(key) + q, OPEN)
  {
    var text := p + Placeholder(key) + q;
    assert text[|p|..|p| + 2] == OPEN;
    assert Text.LetterFree(OPEN);
    Text.ContainsAt(text, OPEN, |p|);
  }

  /**
   * Setting a new STRING field to such text succeeds and stores it with the placeholder
   * replaced.
   */
  lemma SetSubstitutes(st: Store, k: string, field: string, p: string, q: string)
    requires st.Valid() && st.Has(k) && !st.Has(field)
    requires forall key :: key in st.settings ==> PlainKey(key)
    requires '$' !in p && '$' !in q && '$' !in AsText(st.settings[k])
    ensures st.Set(field, Str(p + Placeholder(k) + q), Some(FieldTypes.STRING)).Success?
    ensures st.Set(field, Str(p + Placeholder(k) + q), Some(FieldTypes.STRING)).value.settings[field] ==
              Str(p + AsText(st.settings[k]) + q)
  {
    var tag := FieldTypes.New(Some(FieldTypes.STRING));
    FieldTypes.NewCases(Some(FieldTypes.STRING));
    FieldTypes.ValidValueIff(FieldTypes.STRING);
    PlaceholderReplaced(st, k, p, q);
    var v := Str(p + AsText(st.settings[k]) + q);
    assert Coerce(tag, v) == Some(v);
    assert st.Set(field, Str(p + Placeholder(k) + q), Some(FieldTypes.STRING)) == Success(st.Assign(field, tag, v));
  }

  /**
   * The replacements run in key order, each on the result of the one before: with `a` holding
   * the text `${b}` and `b` holding `x`, `${a}` becomes `x` when `a` comes first in the order,
   * and stays `${b}` when `b` comes first.
   */
  lemma SubstitutionOrder(a: string, b: string, ta: FieldTypes.FieldType, tb: FieldTypes.FieldType, x: string)
    requires PlainKey(a) && PlainKey(b) && a != b
    ensures Store(map[a := ta, b := tb], map[a := Str(Placeholder(b)), b := Str(x)], [a, b])
              .Substituted(Str(Placeholder(a))) == Str(x)
    ensures Store(map[a := ta, b := tb], map[a := Str(Placeholder(b)), b := Str(x)], [b, a])
              .Substituted(Str(Placeholder(a))) == Str(Placeholder(b))
  {
    var pa, pb := Placeholder(a), Placeholder(b);
    HasPlaceholder([], a, []);
    assert [] + pa + [] == pa;
    var settings := map[a := Str(pb), b := Str(x)];
    ChainedReplacement(pa, pb, x);
    ReplacementsOfTwo(Store(map[a := ta, b := tb], settings, [a, b]), a, b, pb, x);
    ReplacementsOfTwo(Store(map[a := ta, b := tb], settings, [b, a]), b, a, x, pb);
    PlaceholderNotPrefix(a, b, []);
    SkippedReplacement(a, pb, x);
  }

  lemma ReplacementsOfTwo(st: Store, a: string, b: string, va: string, vb: string)
    requires st.order == [a, b] && a in st.settings && b in st.settings
    requires st.settings[a] == Str(va) && st.settings[b] == Str(vb)
    ensures st.Replacements() == [(Placeholder(a), va), (Placeholder(b), vb)]
  {
  }

  lemma ChainedReplacement(pa: string, pb: string, x: string)
    requires |pa| > 0 && |pb| > 0
    ensures Text.ReplaceEach(pa, [(pa, pb), (pb, x)]) == x
  {
    Text.ReplaceAllWhole(pa, pb);
    Text.ReplaceAllWhole(pb, x);
    var pairs := [(pa, pb), (pb, x)];
    assert pairs[1..] == [(pb, x)] && [(pb, x)][1..] == [];
    calc {
      Text.ReplaceEach(pa, pairs);
      Text.ReplaceEach(Text.ReplaceAll(pa, pa, pb), [(pb, x)]);
      Text.ReplaceEach(Text.ReplaceAll(pb, pb, x), []);
    }
  }

  lemma SkippedReplacement(a: string, pb: string, x: string)
    requires PlainKey(a) && |pb| > 0 && pb[0] == '$'
    requires !(|pb| <= |Placeholder(a) + []| && (Placeholder(a) + [])[..|pb|] == pb)
    ensures Text.ReplaceEach(Placeholder(a), [(pb, x), (Placeholder(a), pb)]) == pb
  {
    var pa := Placeholder(a);
    assert pa[1..] == "{" + a + "}";
    assert [] + pa + [] == pa && pa + [] == pa;
    Text.ReplaceAllMiss([], pa, [], pb, x);
    Text.ReplaceAllWhole(pa, pb);
    var pairs := [(pb, x), (pa, pb)];
    assert pairs[1..] == [(pa, pb)] && [(pa, pb)][1..] == [];
    calc {
      Text.ReplaceEach(pa, pairs);
      Text.ReplaceEach(Text.ReplaceAll(pa, pb, x), [(pa, pb)]);
      Text.ReplaceEach(Text.ReplaceAll(pa, pa, pb), []);
    }
  }

  /** A piece of the text given to `set`: literal text, or the placeholder `${key}` of a key. */
  datatype Piece = Lit(text: string) | Hole(key: string)

  function PieceText(x: Piece): string
  {
    match x
    case Lit(t) => t
    case Hole(k) => Placeholder(k)
  }

  /** The text the pieces spell, one after the other. */
  function Render(ps: seq<Piece>): string
    decreases |ps|
  {
    if ps == [] then [] else PieceText(ps[0]) + Render(ps[1..])
  }

  /** Literal pieces hold no `$`, and every placeholder names a plain key. */
  predicate Template(ps: seq<Piece>)
  {
    forall i :: 0 <= i < |ps| ==> if ps[i].Lit? then '$' !in ps[i].text else PlainKey(ps[i].key)
  }

  /** The stored values that a placeholder of the pieces names hold no `$`. */
  predicate PlainValues(ps: seq<Piece>, settings: map<string, Value>)
  {
    forall i :: 0 <= i < |ps| && ps[i].Hole? && ps[i].key in settings ==> '$' !in AsText(settings[ps[i].key])
  }

  /** Every placeholder of a stored key filled with that key's value as text; the others kept. */
  function Filled(ps: seq<Piece>, settings: map<string, Value>): seq<Piece>
  {
    seq(|ps|, i requires 0 <= i < |ps| =>
      if ps[i].Hole? && ps[i].key in settings then Lit(AsText(settings[ps[i].key])) else ps[i])
  }

  /**
   * Substitution replaces every placeholder, not just one: in a store whose keys are plain,
   * text made of `$`-free pieces and placeholders comes out with each placeholder of a stored
   * key replaced by that key's value (when those values hold no `$`), however many there are
   * and whichever keys they name, and with every other placeholder left in place.
   */
  lemma PlaceholdersReplaced(st: Store, ps: seq<Piece>)
    requires st.Valid()
    requires forall key :: key in st.settings ==> PlainKey(key)
    requires Template(ps) && PlainValues(ps, st.settings)
    ensures st.Substituted(Str(Render(ps))) == Str(Render(Filled(ps, st.settings)))
  {
    forall i | 0 <= i < |st.order| ensures PlainKey(st.order[i]) {
      assert st.order[i] in st.settings;
    }
    assert st.Replacements() == PairsOf(st.order, st.settings);
    ReplaceEachInPieces(ps, st.order, st.settings);
    assert FilledBy(ps, st.order, st.settings) == Filled(ps, st.settings);
    if !Text.Contains(Render(ps), OPEN) {
      var pairs := st.Replacements();
      forall k, j | 0 <= k < |pairs| ensures !Text.OccursAt(Render(ps), pairs[k].0, j) {
        OccurrenceShowsOpen(Render(ps), st.order[k], j);
      }
      Text.ReplaceEachAbsent(Render(ps), pairs);
    }
  }

  /**
   * Two placeholders, of the same key or of two keys, are both replaced: `${a}-${a}` becomes
   * `x-x` and `${a}${b}` the two values one after the other.
   */
  lemma TwoPlaceholdersReplaced(st: Store, a: string, b: string, p: string, q: string, r: string)
    requires st.Valid() && st.Has(a) && st.Has(b)
    requires forall key :: key in st.settings ==> PlainKey(key)
    requires '$' !in p && '$' !in q && '$' !in r
    requires '$' !in AsText(st.settings[a]) && '$' !in AsText(st.settings[b])
    ensures st.Substituted(Str(p + Placeholder(a) + q + Placeholder(b) + r)) ==
              Str(p + AsText(st.settings[a]) + q + AsText(st.settings[b]) + r)
  {
    var ps := [Lit(p), Hole(a), Lit(q), Hole(b), Lit(r)];
    var va, vb := AsText(st.settings[a]), AsText(st.settings[b]);
    TwoPlaceholderPieces(st, a, b, p, q, r);
    PlaceholdersReplaced(st, ps);
    RenderFive(Lit(p), Hole(a), Lit(q), Hole(b), Lit(r));
    RenderFive(Lit(p), Lit(va), Lit(q), Lit(vb), Lit(r));
  }

  lemma TwoPlaceholderPieces(st: Store, a: string, b: string, p: string, q: string, r: string)
    requires st.Has(a) && st.Has(b) && PlainKey(a) && PlainKey(b)
    requires '$' !in p && '$' !in q && '$' !in r
    requires '$' !in AsText(st.settings[a]) && '$' !in AsText(st.settings[b])
    ensures var ps := [Lit(p), Hole(a), Lit(q), Hole(b), Lit(r)];
            && Template(ps) && PlainValues(ps, st.settings)
            && Filled(ps, st.settings) == [Lit(p), Lit(AsText(st.settings[a])), Lit(q), Lit(AsText(st.settings[b])), Lit(r)]
  {
  }

  lemma RenderFive(x0: Piece, x1: Piece, x2: Piece, x3: Piece, x4: Piece)
    ensures Render([x0, x1, x2, x3, x4]) == PieceText(x0) + PieceText(x1) + PieceText(x2) + PieceText(x3) + PieceText(x4)
  {
    var t0, t1, t2, t3, t4 := PieceText(x0), PieceText(x1), PieceText(x2), PieceText(x3), PieceText(x4);
    RenderCons(x4, []);
    assert [x4] + [] == [x4];
    RenderCons(x3, [x4]);
    assert [x3] + [x4] == [x3, x4];
    RenderCons(x2, [x3, x4]);
    assert [x2] + [x3, x4] == [x2, x3, x4];
    RenderCons(x1, [x2, x3, x4]);
    assert [x1] + [x2, x3, x4] == [x1, x2, x3, x4];
    RenderCons(x0, [x1, x2, x3, x4]);
    assert [x0] + [x1, x2, x3, x4] == [x0, x1, x2, x3, x4];
    assert t0 + (t1 + (t2 + (t3 + (t4 + [])))) == t0 + t1 + t2 + t3 + t4;
  }

  lemma RenderCons(x: Piece, c: seq<Piece>)
    ensures Render([x] + c) == PieceText(x) + Render(c)
  {
    assert ([x] + c)[1..] == c;
  }

  /** The pairs `set` builds for the keys `ks`, in that order. */
  function PairsOf(ks: seq<string>, settings: map<string, Value>): seq<(string, string)>
  {
    seq(|ks|, i requires 0 <= i < |ks| => (Placeholder(ks[i]), Filler(ks[i], settings)))
  }

  function Filler(key: string, settings: map<string, Value>): string
  {
    if key in settings then AsText(settings[key]) else ""
  }

  /** Every placeholder of a key in `ks` replaced by its filler. */
  function FilledBy(ps: seq<Piece>, ks: seq<string>, settings: map<string, Value>): seq<Piece>
  {
    seq(|ps|, i requires 0 <= i < |ps| =>
      if ps[i].Hole? && ps[i].key in ks then Lit(Filler(ps[i].key, settings)) else ps[i])
  }

  /** Every placeholder of `k` replaced by `v`. */
  function Plug(ps: seq<Piece>, k: string, v: string): seq<Piece>
  {
    seq(|ps|, i requires 0 <= i < |ps| => if ps[i] == Hole(k) then Lit(v) else ps[i])
  }

  lemma {:induction false} ReplaceEachInPieces(ps: seq<Piece>, ks: seq<string>, settings: map<string, Value>)
    requires Template(ps) && PlainValues(ps, settings)
    requires forall i :: 0 <= i < |ks| ==> PlainKey(ks[i])
    ensures Text.ReplaceEach(Render(ps), PairsOf(ks, settings)) == Render(FilledBy(ps, ks, settings))
    decreases |ks|
  {
    var pairs := PairsOf(ks, settings);
    if ks == [] {
      assert FilledBy(ps, ks, settings) == ps;
    } else {
      var k, v := ks[0], Filler(ks[0], settings);
      ReplaceInPieces(ps, k, v);
      PlugKeepsTemplate(ps, k, settings);
      assert pairs[1..] == PairsOf(ks[1..], settings);
      forall i | 0 <= i < |ks[1..]| ensures PlainKey(ks[1..][i]) {
        assert ks[1..][i] == ks[i + 1];
      }
      ReplaceEachInPieces(Plug(ps, k, v), ks[1..], settings);
      PlugThenFill(ps, ks, settings);
    }
  }

  /** Filling the placeholders of one stored key keeps the pieces a template. */
  lemma PlugKeepsTemplate(ps: seq<Piece>, k: string, settings: map<string, Value>)
    requires Template(ps) && PlainValues(ps, settings)
    ensures Template(Plug(ps, k, Filler(k, settings))) && PlainValues(Plug(ps, k, Filler(k, settings)), settings)
  {
    var v := Filler(k, settings);
    var qs := Plug(ps, k, v);
    forall i | 0 <= i < |qs| ensures if qs[i].Lit? then '$' !in qs[i].text else PlainKey(qs[i].key) {
      if ps[i] == Hole(k) {
        assert qs[i] == Lit(v);
      }
    }
  }

  /** Filling the first key's placeholders, then the rest's, fills those of every key. */
  lemma PlugThenFill(ps: seq<Piece>, ks: seq<string>, settings: map<string, Value>)
    requires ks != []
    ensures FilledBy(Plug(ps, ks[0], Filler(ks[0], settings)), ks[1..], settings) == FilledBy(ps, ks, settings)
  {
    var qs := Plug(ps, ks[0], Filler(ks[0], settings));
    forall i | 0 <= i < |ps| && ps[i].Hole? ensures ps[i].key in ks <==> ps[i].key == ks[0] || ps[i].key in ks[1..] {
      assert ks == [ks[0]] + ks[1..];
    }
  }

  /** One pair's `str_replace` fills every placeholder of its key. */
  lemma {:induction false} ReplaceInPieces(ps: seq<Piece>, k: string, v: string)
    requires Template(ps) && PlainKey(k)
    ensures Text.ReplaceAll(Render(ps), Placeholder(k), v) == Render(Plug(ps, k, v))
    decreases |ps|
  {
    if ps != [] {
      var rest := ps[1..];
      forall i | 0 <= i < |rest| ensures if rest[i].Lit? then '$' !in rest[i].text else PlainKey(rest[i].key) {
        assert rest[i] == ps[i + 1];
      }
      ReplaceInPieces(rest, k, v);
      assert Plug(ps, k, v)[1..] == Plug(rest, k, v);
      var pat, tail := Placeholder(k), Render(rest);
      match ps[0]
      case Lit(t) =>
        Text.ReplaceAllSkipsPrefix(t, tail, pat, v);
      case Hole(j) =>
        if j == k {
          Text.ReplaceAllStep([], pat, tail, v);
          assert [] + pat + tail == pat + tail;
        } else {
          OtherPlaceholderKept(j, k, tail, v);
        }
    }
  }

  /** The placeholder of another plain key is copied through whole. */
  lemma OtherPlaceholderKept(j: string, k: string, tail: string, v: string)
    requires PlainKey(j) && PlainKey(k) && j != k
    ensures Text.ReplaceAll(Placeholder(j) + tail, Placeholder(k), v) ==
              Placeholder(j) + Text.ReplaceAll(tail, Placeholder(k), v)
  {
    var s, pat := Placeholder(j) + tail, Placeholder(k);
    var rest := Placeholder(j)[1..];
    PlaceholderTail(j);
    assert s[1..] == rest + tail;
    Text.ReplaceAllSkipsPrefix(rest, tail, pat, v);
    PlaceholderNotPrefix(j, k, tail);
    Text.ReplaceAllNoMatchAtStart(s, pat, v);
    assert [s[0]] + rest == Placeholder(j);
  }

  lemma PlaceholderTail(j: string)
    requires PlainKey(j)
    ensures '$' !in Placeholder(j)[1..]
  {
    assert Placeholder(j)[1..] == "{" + j + "}";
  }

  /** A placeholder found in the text shows `${` there. */
  lemma OccurrenceShowsOpen(s: string, key: string, j: int)
    ensures Text.OccursAt(s, Placeholder(key), j) ==> Text.Contains(s, OPEN)
  {
    if Text.OccursAt(s, Placeholder(key), j) {
      assert s[j..j + 2] == s[j..j + |Placeholder(key)|][..2];
      assert Text.LetterFree(OPEN);
      Text.ContainsAt(s, OPEN, j);
    }
  }

  /**
   * The constructor: unusable input (missing, undecodable, without `schema` or `settings`,
   * or with sizes that differ) gives an empty container; otherwise exactly the schema's fields
   * that have a value are loaded, with that value, and both arrays share their keys.
   */
  lemma LoadContents(data: Option<Decoded>)
    ensures Load(data).Valid()
    ensures !Usable(data) ==> Load(data) == Empty
    ensures forall k :: Load(data).Has(k) <==>
              Usable(data) && k in data.value.settings.value && Listed(data.value.schema.value, k)
    ensures forall k :: Load(data).Has(k) ==> Load(data).settings[k] == data.value.settings.value[k]
  {
    if Usable(data) {
      FillContents(data.value.schema.value, data.value.settings.value);
    }
  }

  /** The set of keys a schema list names. */
  function Keys(pairs: seq<(string, string)>): (r: set<string>)
    ensures forall k :: k in r <==> Listed(pairs, k)
    decreases |pairs|
  {
    if pairs == [] then {}
    else
      var init := pairs[..|pairs| - 1];
      ListedSnoc(pairs);
      Keys(init) + {pairs[|pairs| - 1].0}
  }

  predicate DistinctKeys(pairs: seq<(string, string)>)
  {
    forall i, j :: 0 <= i < j < |pairs| ==> pairs[i].0 != pairs[j].0
  }

  lemma {:induction false} DistinctKeysCount(pairs: seq<(string, string)>)
    requires DistinctKeys(pairs)
    ensures |Keys(pairs)| == |pairs|
    decreases |pairs|
  {
    if pairs != [] {
      var init := pairs[..|pairs| - 1];
      DistinctKeysCount(init);
      var last := pairs[|pairs| - 1].0;
      forall i | 0 <= i < |init| ensures init[i].0 != last {
        assert init[i] == pairs[i];
      }
      assert last !in Keys(init);
    }
  }

  /**
   * Round trip: a flat settings file whose type names are canonical, whose schema lists each
   * field once and whose fields are exactly the settings' keys is serialised back unchanged.
   */
  lemma LoadSerializeRoundTrip(pairs: seq<(string, string)>, input: map<string, Value>)
    requires DistinctKeys(pairs)
    requires input.Keys == Keys(pairs)
    requires forall i :: 0 <= i < |pairs| ==> pairs[i].1 in {"bln", "flt", "int", "str"}
    ensures var (names, values) := Load(Some(Decoded(Some(pairs), Some(input)))).JsonSerialize();
            && values == input
            && names.Keys == input.Keys
            && forall i :: 0 <= i < |pairs| ==> names[pairs[i].0] == pairs[i].1
  {
    LoadIsFill(pairs, input);
    FillSettings(pairs, input);
    FillNames(pairs, input);
    SerializedNames(Fill(pairs, input), pairs);
  }

  /** `jsonSerialize` lists every field with the name of its type. */
  lemma SerializedNames(st: Store, pairs: seq<(string, string)>)
    requires forall i :: 0 <= i < |pairs| ==> pairs[i].0 in st.schema && st.schema[pairs[i].0].name == pairs[i].1
    ensures st.JsonSerialize().0.Keys == st.schema.Keys
    ensures forall i :: 0 <= i < |pairs| ==> st.JsonSerialize().0[pairs[i].0] == pairs[i].1
  {
  }

  lemma LoadIsFill(pairs: seq<(string, string)>, input: map<string, Value>)
    requires DistinctKeys(pairs) && input.Keys == Keys(pairs)
    ensures Load(Some(Decoded(Some(pairs), Some(input)))) == Fill(pairs, input)
  {
    DistinctKeysCount(pairs);
    assert |input| == |input.Keys|;
  }

  lemma FillSettings(pairs: seq<(string, string)>, input: map<string, Value>)
    requires input.Keys == Keys(pairs)
    ensures Fill(pairs, input).settings == input && Fill(pairs, input).schema.Keys == input.Keys
  {
    var st := Fill(pairs, input);
    FillContents(pairs, input);
    assert st.settings.Keys == input.Keys;
  }

  lemma FillNames(pairs: seq<(string, string)>, input: map<string, Value>)
    requires DistinctKeys(pairs) && input.Keys == Keys(pairs)
    requires forall i :: 0 <= i < |pairs| ==> pairs[i].1 in {"bln", "flt", "int", "str"}
    ensures forall i :: 0 <= i < |pairs| ==>
              pairs[i].0 in Fill(pairs, input).schema && Fill(pairs, input).schema[pairs[i].0].name == pairs[i].1
  {
    var st := Fill(pairs, input);
    FillContents(pairs, input);
    forall i | 0 <= i < |pairs| ensures pairs[i].0 in st.schema && st.schema[pairs[i].0].name == pairs[i].1 {
      CanonicalName(pairs[i].1);
      assert pairs[i].0 in Keys(pairs);
      assert LastEntry(pairs, i);
    }
  }

  lemma CanonicalName(t: string)
    requires t in {"bln", "flt", "int", "str"}
    ensures FieldTypes.FromString(t).name == t
  {
    assert Text.Lower(t) == t;
    FieldTypes.FromStringCases(t);
  }

  class Container {
    var schema: map<string, FieldTypes.FieldType>
    var settings: map<string, Value>
    var order: seq<string>

    function Model(): Store
      reads this
    {
      Store(schema, settings, order)
    }

    ghost predicate Valid()
      reads this
    {
      Model().Valid()
    }

    constructor (data: Option<Decoded>)
      ensures Valid() && Model() == Load(data)
    {
      schema, settings, order := map[], map[], [];
      new;
      if Usable(data) {
        var pairs := data.value.schema.value;
        var input := data.value.settings.value;
        var i := 0;
        while i < |pairs|
          invariant 0 <= i <= |pairs|
          invariant Model() == Fill(pairs[..i], input)
        {
          var field, typeName := pairs[i].0, pairs[i].1;
          FillStep(pairs, i, input);
          if field in input {
            ghost var before := Model();
            schema := schema[field := FieldTypes.FromString(typeName)];
            settings := settings[field := input[field]];
            if field !in order {
              order := order + [field];
            }
            assert Model() == before.Put(field, FieldTypes.FromString(typeName), input[field]);
          }
          i := i + 1;
        }
        assert pairs[..|pairs|] == pairs;
      }
    }

    method Remove(field: string) returns (r: Outcome<ContainerError>)
      requires Valid()
      modifies this
      ensures Valid()
      ensures Reflects(old(Model()).Remove(field), old(Model()), r, Model())
    {
      if !(field in schema && field in settings) {
        return Fail(RemoveMissing);
      }
      schema := schema - {field};
      settings := settings - {field};
      order := Erase(order, field);
      r := Pass;
    }

    method Rename(oldField: string, newField: string) returns (r: Outcome<ContainerError>)
      requires Valid()
      modifies this
      ensures Valid()
      ensures Reflects(old(Model()).Rename(oldField, newField), old(Model()), r, Model())
    {
      if !(oldField in schema && oldField in settings) {
        return Fail(RenameMissing);
      }
      schema := schema[newField := schema[oldField]];
      settings := settings[newField := settings[oldField]];
      if newField !in order {
        order := order + [newField];
      }
      r := Remove(oldField);
    }

    /** The `foreach` of `set` that pairs every `${key}` with its value, in key order. */
    method CollectReplacements() returns (replacements: seq<(string, string)>)
      requires Valid()
      ensures replacements == Model().Replacements()
    {
      replacements := [];
      var i := 0;
      while i < |order|
        invariant 0 <= i <= |order|
        invariant replacements == Model().Replacements()[..i]
      {
        var key := order[i];
        replacements := replacements + [("${" + key + "}", AsText(settings[key]))];
        i := i + 1;
      }
    }

    /** The first step of `set`: placeholders replaced when the value is a string holding `${`. */
    method Substitute(value: Value) returns (v: Value)
      requires Valid()
      ensures v == Model().Substituted(value)
    {
      v := value;
      if v.Str? && Text.Contains(v.s, OPEN) {
        var replacements := CollectReplacements();
        if |replacements| > 0 {
          v := Str(Text.ReplaceEach(v.s, replacements));
        }
      }
    }

    method Set(field: string, value: Value, fieldType: Option<int>) returns (r: Outcome<ContainerError>)
      requires Valid()
      modifies this
      ensures Valid()
      ensures Reflects(old(Model()).Set(field, value, fieldType), old(Model()), r, Model())
    {
      ghost var before := Model();
      var v := Substitute(value);
      if !(field in schema && field in settings) {
        if !(fieldType.Some? && FieldTypes.ValidValue(fieldType.value)) {
          assert before.Set(field, value, fieldType) == Failure(InvalidType);
          return Fail(InvalidType);
        }
        FieldTypes.NewCases(fieldType);
        ValidTypeCoerces(FieldTypes.New(fieldType), v);
        schema := schema[field := FieldTypes.New(fieldType)];
        if field !in order {
          order := order + [field];
        }
      }
      ghost var tag := schema[field];
      var coerced := Coerce(schema[field], v);
      if coerced.Some? {
        settings := settings[field := coerced.value];
      }
      assert before.Set(field, value, fieldType) == Success(before.Assign(field, tag, v));
      assert Model() == before.Assign(field, tag, v);
      r := Pass;
    }
  }
}

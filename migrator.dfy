/**
 * Migration of a settings store through instruction files: the files are ordered by the
 * version they start from, those starting at or after the stored `configVersion` are applied
 * in that order, each action in turn, and every applied file sets `configVersion` to the
 * version it leads to.
 */
module Migrator {
  import opened Results
  import Text
  import FieldTypes
  import MigrationOperators
  import opened ConfigContainer
  import opened MigrationAction

  /** The setting that records which version the settings are at. */
  const VERSION: string := "configVersion"

  /** An instruction file: the version it migrates from, the version it leads to, and its actions. */
  datatype MigrationFile = MigrationFile(origVersion: int, destVersion: int, actions: seq<Action>)

  /**
   * Why a migration stops: an exception from the container, or one of PHP's own errors on an
   * ADD without a type, an array ADD onto a value that is not a list, or a RENAME without a
   * new name.
   */
  datatype MigrateError = ContainerFailed(error: ContainerError) | TypeUnset | MergeIntoNonList | RenameToNull

  function Lift(r: Result<Store, ContainerError>): (m: Result<Store, MigrateError>)
    ensures r.Success? <==> m.Success?
    ensures r.Success? ==> m.value == r.value
    ensures r.Failure? ==> m.error == ContainerFailed(r.error)
  {
    match r
    case Success(st) => Success(st)
    case Failure(e) => Failure(ContainerFailed(e))
  }

  // ---------------------------------------------------------------- ordering the files

  predicate SortedByOrigin(fs: seq<MigrationFile>)
  {
    forall i, j :: 0 <= i < j < |fs| ==> fs[i].origVersion <= fs[j].origVersion
  }

  /** The files of `fs` that start from version `v`, in their order in `fs`. */
  function WithOrigin(fs: seq<MigrationFile>, v: int): seq<MigrationFile>
  {
    if fs == [] then []
    else WithOrigin(fs[..|fs| - 1], v) + (if fs[|fs| - 1].origVersion == v then [fs[|fs| - 1]] else [])
  }

  /** Insertion of `f` into sorted files, after every file that starts no later than `f`. */
  function Insert(sorted: seq<MigrationFile>, f: MigrationFile): (r: seq<MigrationFile>)
    ensures multiset(r) == multiset(sorted) + multiset{f}
    ensures |r| == |sorted| + 1
  {
    if sorted == [] || sorted[|sorted| - 1].origVersion <= f.origVersion then sorted + [f]
    else
      var init := sorted[..|sorted| - 1];
      assert sorted == init + [sorted[|sorted| - 1]];
      Insert(init, f) + [sorted[|sorted| - 1]]
  }

  /**
   * `usort` with the comparator on `origVersion`: PHP 8 sorts stably, so files that start from
   * the same version keep their loading order.
   */
  function SortByOrigin(fs: seq<MigrationFile>): seq<MigrationFile>
  {
    if fs == [] then [] else Insert(SortByOrigin(fs[..|fs| - 1]), fs[|fs| - 1])
  }

  /** Adding a file at the end adds it at the end of its version's files. */
  lemma WithOriginSnoc(s: seq<MigrationFile>, x: MigrationFile, v: int)
    ensures WithOrigin(s + [x], v) == WithOrigin(s, v) + (if x.origVersion == v then [x] else [])
  {
    assert (s + [x])[..|s|] == s;
  }

  /** The files before the last of a sorted list are sorted, and start no later than the last. */
  lemma SortedInit(sorted: seq<MigrationFile>)
    requires SortedByOrigin(sorted) && sorted != []
    ensures SortedByOrigin(sorted[..|sorted| - 1])
    ensures forall g :: g in sorted[..|sorted| - 1] ==> g.origVersion <= sorted[|sorted| - 1].origVersion
  {
    var init := sorted[..|sorted| - 1];
    forall g | g in init ensures g.origVersion <= sorted[|sorted| - 1].origVersion {
      var i :| 0 <= i < |init| && init[i] == g;
      assert sorted[i] == g;
    }
  }

  lemma {:induction false} InsertSorted(sorted: seq<MigrationFile>, f: MigrationFile)
    requires SortedByOrigin(sorted)
    ensures SortedByOrigin(Insert(sorted, f))
    ensures forall g :: g in Insert(sorted, f) ==> g in sorted || g == f
    decreases |sorted|
  {
    if !(sorted == [] || sorted[|sorted| - 1].origVersion <= f.origVersion) {
      var init, last := sorted[..|sorted| - 1], sorted[|sorted| - 1];
      SortedInit(sorted);
      InsertSorted(init, f);
      var r := Insert(init, f);
      assert Insert(sorted, f) == r + [last];
      forall g | g in r ensures g.origVersion <= last.origVersion {
        assert g in init || g == f;
      }
      forall i, j | 0 <= i < j < |r + [last]| ensures (r + [last])[i].origVersion <= (r + [last])[j].origVersion {
        if j == |r| {
          assert (r + [last])[i] in r;
        } else {
          assert (r + [last])[i] == r[i] && (r + [last])[j] == r[j];
        }
      }
      forall g | g in r + [last] ensures g in sorted || g == f {
        if g != last {
          assert g in r;
        }
      }
    }
  }

  lemma {:induction false} InsertStable(sorted: seq<MigrationFile>, f: MigrationFile, v: int)
    requires SortedByOrigin(sorted)
    ensures WithOrigin(Insert(sorted, f), v) == WithOrigin(sorted, v) + (if f.origVersion == v then [f] else [])
    decreases |sorted|
  {
    if sorted == [] || sorted[|sorted| - 1].origVersion <= f.origVersion {
      WithOriginSnoc(sorted, f, v);
    } else {
      var init, last := sorted[..|sorted| - 1], sorted[|sorted| - 1];
      assert sorted == init + [last];
      SortedInit(sorted);
      InsertStable(init, f, v);
      var r := Insert(init, f);
      assert Insert(sorted, f) == r + [last];
      WithOriginSnoc(r, last, v);
      WithOriginSnoc(init, last, v);
      assert !(f.origVersion == v && last.origVersion == v);
    }
  }

  /** The order `usort` leaves the files in: by origin version, a permutation, and stable. */
  lemma {:induction false} SortByOriginSpec(fs: seq<MigrationFile>)
    ensures SortedByOrigin(SortByOrigin(fs))
    ensures multiset(SortByOrigin(fs)) == multiset(fs)
    ensures forall v :: WithOrigin(SortByOrigin(fs), v) == WithOrigin(fs, v)
    decreases |fs|
  {
    if fs != [] {
      var init, last := fs[..|fs| - 1], fs[|fs| - 1];
      SortByOriginSpec(init);
      InsertSorted(SortByOrigin(init), last);
      assert init + [last] == fs;
      forall v ensures WithOrigin(SortByOrigin(fs), v) == WithOrigin(fs, v) {
        InsertStable(SortByOrigin(init), last, v);
      }
    }
  }

  // ---------------------------------------------------------------- choosing the files

  /** The `foreach` that collects the files starting at or after version `v`, in order. */
  function Select(fs: seq<MigrationFile>, v: int): seq<MigrationFile>
  {
    if fs == [] then []
    else Select(fs[..|fs| - 1], v) + (if fs[|fs| - 1].origVersion >= v then [fs[|fs| - 1]] else [])
  }

  /** Exactly the files starting at or after `v` are selected. */
  lemma {:induction false} SelectMembers(fs: seq<MigrationFile>, v: int)
    ensures forall f :: f in Select(fs, v) <==> f in fs && f.origVersion >= v
    decreases |fs|
  {
    if fs != [] {
      SelectMembers(fs[..|fs| - 1], v);
      assert fs == fs[..|fs| - 1] + [fs[|fs| - 1]];
    }
  }

  /** Of files sorted by origin, the selected ones are a tail: every file from some point on. */
  lemma {:induction false} SelectSuffix(fs: seq<MigrationFile>, v: int)
    requires SortedByOrigin(fs)
    ensures |Select(fs, v)| <= |fs|
    ensures Select(fs, v) == fs[|fs| - |Select(fs, v)|..]
    decreases |fs|
  {
    if fs != [] {
      var init, last := fs[..|fs| - 1], fs[|fs| - 1];
      SortedInit(fs);
      SelectSuffix(init, v);
      assert fs == init + [last];
      if last.origVersion >= v {
        var k := |Select(init, v)|;
        assert Select(fs, v) == Select(init, v) + [last];
        assert fs[|fs| - (k + 1)..] == init[|init| - k..] + [last];
      } else {
        forall i | 0 <= i < |init| ensures init[i].origVersion < v {
          assert init[i] in init;
        }
        SelectNone(init, v);
        assert Select(fs, v) == [];
      }
    }
  }

  /** Files that all start before `v` give an empty selection. */
  lemma {:induction false} SelectNone(fs: seq<MigrationFile>, v: int)
    requires forall i :: 0 <= i < |fs| ==> fs[i].origVersion < v
    ensures Select(fs, v) == []
    decreases |fs|
  {
    if fs != [] {
      SelectNone(fs[..|fs| - 1], v);
    }
  }

  // ---------------------------------------------------------------- applying actions

  /** The value an action passes to `set`: its text, or PHP null when the line had none. */
  function Incoming(value: Option<string>): Value
  {
    if value.Some? then Str(value.value) else Null
  }

  /**
   * One pass of the `switch` in `migrate`. `isArray` stands for the type's `isArrayType()`,
   * which the field type class does not define.
   */
  function ApplyAction(st: Store, a: Action, isArray: FieldTypes.FieldType -> bool): Result<Store, MigrateError>
  {
    var op := a.operator.value;
    if op == MigrationOperators.ADD then
      if a.fieldType.None? then Failure(TypeUnset)
      else
        var t := a.fieldType.value;
        if isArray(t) then
          if st.Has(a.field) then
            var tmp := st.Get(a.field, Null);
            if !tmp.List? then Failure(MergeIntoNonList)
            else Lift(st.Set(a.field, List(tmp.items + [Incoming(a.value)]), Some(t.value)))
          else Lift(st.Set(a.field, Incoming(a.value), Some(t.value)))
        else if !st.Has(a.field) then Lift(st.Set(a.field, Incoming(a.value), Some(t.value)))
        else Success(st)
    else if op == MigrationOperators.CHANGE then
      if isArray(st.GetType(a.field)) then Success(st)
      else Lift(st.Set(a.field, Incoming(a.value), None))
    else if op == MigrationOperators.REMOVE then Lift(st.Remove(a.field))
    else if op == MigrationOperators.RENAME then
      if a.value.None? then Failure(RenameToNull) else Lift(st.Rename(a.field, a.value.value))
    else Success(st)
  }

  /** The actions applied one after another; the first failure ends the run. */
  function ApplyActions(st: Store, acts: seq<Action>, isArray: FieldTypes.FieldType -> bool): Result<Store, MigrateError>
    decreases |acts|
  {
    if acts == [] then Success(st)
    else
      match ApplyActions(st, acts[..|acts| - 1], isArray)
      case Failure(e) => Failure(e)
      case Success(s) => ApplyAction(s, acts[|acts| - 1], isArray)
  }

  /** A file: its actions, then `configVersion` set to the version the file leads to. */
  function ApplyFile(st: Store, f: MigrationFile, isArray: FieldTypes.FieldType -> bool): Result<Store, MigrateError>
  {
    match ApplyActions(st, f.actions, isArray)
    case Failure(e) => Failure(e)
    case Success(s) => Lift(s.Set(VERSION, Int(f.destVersion), None))
  }

  function ApplyFiles(st: Store, fs: seq<MigrationFile>, isArray: FieldTypes.FieldType -> bool): Result<Store, MigrateError>
    decreases |fs|
  {
    if fs == [] then Success(st)
    else
      match ApplyFiles(st, fs[..|fs| - 1], isArray)
      case Failure(e) => Failure(e)
      case Success(s) => ApplyFile(s, fs[|fs| - 1], isArray)
  }

  /** A store without `configVersion` gets it as the integer 0. */
  function EnsureVersion(st: Store): Result<Store, MigrateError>
  {
    if st.Has(VERSION) then Success(st) else Lift(st.Set(VERSION, Int(0), Some(FieldTypes.INTEGER)))
  }

  /** The stored version, read as an integer. */
  function Version(st: Store): int
  {
    IntValue(st.Get(VERSION, Null))
  }

  /** `migrate`: the settings it would write, or the error that stops it before writing. */
  function Run(start: Store, files: seq<MigrationFile>, isArray: FieldTypes.FieldType -> bool): Result<Store, MigrateError>
  {
    match EnsureVersion(start)
    case Failure(e) => Failure(e)
    case Success(st) => ApplyFiles(st, Select(files, Version(st)), isArray)
  }

  // ---------------------------------------------------------------- properties

  /** A failure after some of the actions is the result of all of them. */
  lemma {:induction false} ActionsFailureFinal(st: Store, acts: seq<Action>, k: nat, isArray: FieldTypes.FieldType -> bool)
    requires k <= |acts|
    requires ApplyActions(st, acts[..k], isArray).Failure?
    ensures ApplyActions(st, acts, isArray) == ApplyActions(st, acts[..k], isArray)
    decreases |acts| - k
  {
    if k == |acts| {
      assert acts[..k] == acts;
    } else {
      var init := acts[..|acts| - 1];
      assert init[..k] == acts[..k];
      ActionsFailureFinal(st, init, k, isArray);
    }
  }

  /** A failure in some file is the result of the whole run of files. */
  lemma {:induction false} FilesFailureFinal(st: Store, fs: seq<MigrationFile>, k: nat, isArray: FieldTypes.FieldType -> bool)
    requires k <= |fs|
    requires ApplyFiles(st, fs[..k], isArray).Failure?
    ensures ApplyFiles(st, fs, isArray) == ApplyFiles(st, fs[..k], isArray)
    decreases |fs| - k
  {
    if k == |fs| {
      assert fs[..k] == fs;
    } else {
      var init := fs[..|fs| - 1];
      assert init[..k] == fs[..k];
      FilesFailureFinal(st, init, k, isArray);
    }
  }

  /** Every action keeps the container's invariant: one key set, listed once in order. */
  lemma ApplyActionValid(st: Store, a: Action, isArray: FieldTypes.FieldType -> bool)
    requires st.Valid()
    ensures ApplyAction(st, a, isArray).Success? ==> ApplyAction(st, a, isArray).value.Valid()
  {
    var op := a.operator.value;
    if op == MigrationOperators.ADD && a.fieldType.Some? {
      var t := a.fieldType.value;
      if st.Has(a.field) && st.Get(a.field, Null).List? {
        SetSpec(st, a.field, List(st.Get(a.field, Null).items + [Incoming(a.value)]), Some(t.value));
      }
      SetSpec(st, a.field, Incoming(a.value), Some(t.value));
    } else if op == MigrationOperators.CHANGE {
      SetSpec(st, a.field, Incoming(a.value), None);
    } else if op == MigrationOperators.RENAME && a.value.Some? {
      RenameSpec(st, a.field, a.value.value);
    }
  }

  lemma {:induction false} ApplyActionsValid(st: Store, acts: seq<Action>, isArray: FieldTypes.FieldType -> bool)
    requires st.Valid()
    ensures ApplyActions(st, acts, isArray).Success? ==> ApplyActions(st, acts, isArray).value.Valid()
    decreases |acts|
  {
    if acts != [] {
      ApplyActionsValid(st, acts[..|acts| - 1], isArray);
      var before := ApplyActions(st, acts[..|acts| - 1], isArray);
      if before.Success? {
        ApplyActionValid(before.value, acts[|acts| - 1], isArray);
      }
    }
  }

  lemma ApplyFileValid(st: Store, f: MigrationFile, isArray: FieldTypes.FieldType -> bool)
    requires st.Valid()
    ensures ApplyFile(st, f, isArray).Success? ==> ApplyFile(st, f, isArray).value.Valid()
  {
    ApplyActionsValid(st, f.actions, isArray);
    var mid := ApplyActions(st, f.actions, isArray);
    if mid.Success? {
      SetSpec(mid.value, VERSION, Int(f.destVersion), None);
    }
  }

  lemma {:induction false} ApplyFilesValid(st: Store, fs: seq<MigrationFile>, isArray: FieldTypes.FieldType -> bool)
    requires st.Valid()
    ensures ApplyFiles(st, fs, isArray).Success? ==> ApplyFiles(st, fs, isArray).value.Valid()
    decreases |fs|
  {
    if fs != [] {
      ApplyFilesValid(st, fs[..|fs| - 1], isArray);
      var before := ApplyFiles(st, fs[..|fs| - 1], isArray);
      if before.Success? {
        ApplyFileValid(before.value, fs[|fs| - 1], isArray);
      }
    }
  }

  /** `configVersion` is made present, as integer 0 when it was missing; nothing else changes. */
  lemma EnsureVersionSpec(st: Store)
    requires st.Valid()
    ensures EnsureVersion(st).Success?
    ensures var r := EnsureVersion(st).value;
            && r.Valid() && r.Has(VERSION)
            && (st.Has(VERSION) ==> r == st)
            && (!st.Has(VERSION) ==>
                  r.schema[VERSION] == FieldTypes.FieldType("int", FieldTypes.INTEGER) && r.settings[VERSION] == Int(0)
                  && Version(r) == 0)
            && (forall k :: k != VERSION ==> (r.Has(k) <==> st.Has(k)))
            && (forall k :: k != VERSION && r.Has(k) ==> r.schema[k] == st.schema[k] && r.settings[k] == st.settings[k])
  {
    if !st.Has(VERSION) {
      FieldTypes.NewCases(Some(FieldTypes.INTEGER));
      FieldTypes.ValidValueIff(FieldTypes.INTEGER);
      SetSpec(st, VERSION, Int(0), Some(FieldTypes.INTEGER));
    }
  }

  /** The run is the chosen files applied in order to the store with `configVersion` ensured. */
  lemma RunSelects(start: Store, files: seq<MigrationFile>, isArray: FieldTypes.FieldType -> bool)
    requires start.Valid()
    ensures EnsureVersion(start).Success?
    ensures var st := EnsureVersion(start).value;
            && Run(start, files, isArray) == ApplyFiles(st, Select(files, Version(st)), isArray)
            && (forall f :: f in Select(files, Version(st)) <==> f in files && f.origVersion >= Version(st))
            && (Run(start, files, isArray).Success? ==> Run(start, files, isArray).value.Valid())
  {
    EnsureVersionSpec(start);
    var st := EnsureVersion(start).value;
    SelectMembers(files, Version(st));
    ApplyFilesValid(st, Select(files, Version(st)), isArray);
  }

  /** A scalar ADD never overwrites: it creates the field with its type, or changes nothing. */
  lemma ScalarAdd(st: Store, a: Action, isArray: FieldTypes.FieldType -> bool)
    requires st.Valid()
    requires a.operator.value == MigrationOperators.ADD && a.fieldType.Some? && !isArray(a.fieldType.value)
    ensures st.Has(a.field) ==> ApplyAction(st, a, isArray) == Success(st)
    ensures !st.Has(a.field) && !FieldTypes.ValidValue(a.fieldType.value.value) ==>
              ApplyAction(st, a, isArray) == Failure(ContainerFailed(InvalidType))
    ensures !st.Has(a.field) && FieldTypes.ValidValue(a.fieldType.value.value) ==>
              && ApplyAction(st, a, isArray).Success?
              && ApplyAction(st, a, isArray).value.Has(a.field)
              && ApplyAction(st, a, isArray).value.schema[a.field] == FieldTypes.New(Some(a.fieldType.value.value))
              && Some(ApplyAction(st, a, isArray).value.settings[a.field]) ==
                   Coerce(FieldTypes.New(Some(a.fieldType.value.value)), st.Substituted(Incoming(a.value)))
  {
    SetSpec(st, a.field, Incoming(a.value), Some(a.fieldType.value.value));
  }

  /** An ADD of an array type appends the value to the list already stored, or stores it anew. */
  lemma ArrayAdd(st: Store, a: Action, isArray: FieldTypes.FieldType -> bool)
    requires st.Valid()
    requires a.operator.value == MigrationOperators.ADD && a.fieldType.Some? && isArray(a.fieldType.value)
    ensures st.Has(a.field) && !st.settings[a.field].List? ==> ApplyAction(st, a, isArray) == Failure(MergeIntoNonList)
    ensures st.Has(a.field) && st.settings[a.field].List? ==>
              var appended := List(st.settings[a.field].items + [Incoming(a.value)]);
              && ApplyAction(st, a, isArray).Success?
              && ApplyAction(st, a, isArray).value.schema[a.field] == st.schema[a.field]
              && (Coerce(st.schema[a.field], appended).Some? ==>
                    ApplyAction(st, a, isArray).value.settings[a.field] == Coerce(st.schema[a.field], appended).value)
  {
    if st.Has(a.field) && st.settings[a.field].List? {
      var appended := List(st.settings[a.field].items + [Incoming(a.value)]);
      SetSpec(st, a.field, appended, Some(a.fieldType.value.value));
    }
  }

  /**
   * CHANGE leaves a field of array kind alone, and otherwise sets the value under the stored
   * type; on a missing field (whose type reads as the error type) it fails.
   */
  lemma Change(st: Store, a: Action, isArray: FieldTypes.FieldType -> bool)
    requires st.Valid()
    requires a.operator.value == MigrationOperators.CHANGE
    ensures isArray(st.GetType(a.field)) ==> ApplyAction(st, a, isArray) == Success(st)
    ensures !st.Has(a.field) && !isArray(FieldTypes.FieldType(FieldTypes.ERROR_NAME, FieldTypes.ERROR)) ==>
              ApplyAction(st, a, isArray) == Failure(ContainerFailed(InvalidType))
    ensures st.Has(a.field) && !isArray(st.schema[a.field]) ==>
              var v := Coerce(st.schema[a.field], st.Substituted(Incoming(a.value)));
              && ApplyAction(st, a, isArray).Success?
              && ApplyAction(st, a, isArray).value.schema[a.field] == st.schema[a.field]
              && ApplyAction(st, a, isArray).value.settings[a.field] == (if v.Some? then v.value else st.settings[a.field])
  {
    SetSpec(st, a.field, Incoming(a.value), None);
  }

  /** REMOVE of a missing field fails, and that failure ends every longer run of actions. */
  lemma RemoveMissingAborts(st: Store, acts: seq<Action>, k: nat, isArray: FieldTypes.FieldType -> bool)
    requires k < |acts|
    requires ApplyActions(st, acts[..k], isArray).Success?
    requires acts[k].operator.value == MigrationOperators.REMOVE
    requires !ApplyActions(st, acts[..k], isArray).value.Has(acts[k].field)
    ensures ApplyActions(st, acts, isArray) == Failure(ContainerFailed(RemoveMissing))
  {
    var prefix := acts[..k + 1];
    assert prefix[..k] == acts[..k];
    ActionsFailureFinal(st, acts, k + 1, isArray);
  }

  /** An action whose operator is not in the table (the ERROR operator) changes nothing. */
  lemma UnknownOperatorIgnored(st: Store, a: Action, isArray: FieldTypes.FieldType -> bool)
    requires !MigrationOperators.ValidValue(a.operator.value)
    ensures ApplyAction(st, a, isArray) == Success(st)
  {
    MigrationOperators.ValidValueIff(a.operator.value);
  }

  /** The action does not name field `k`, neither as its field nor as a RENAME target. */
  predicate Untouched(a: Action, k: string)
  {
    a.field != k && (a.operator.value == MigrationOperators.RENAME && a.value.Some? ==> a.value.value != k)
  }

  /** An action leaves every field it does not name as it was. */
  lemma ApplyActionFrame(st: Store, a: Action, isArray: FieldTypes.FieldType -> bool, k: string)
    requires st.Valid() && Untouched(a, k)
    ensures ApplyAction(st, a, isArray).Success? ==> Keeps(st, ApplyAction(st, a, isArray).value, k)
  {
    var op := a.operator.value;
    if op == MigrationOperators.ADD && a.fieldType.Some? {
      var t := a.fieldType.value;
      if st.Has(a.field) && st.Get(a.field, Null).List? {
        SetKeeps(st, a.field, List(st.Get(a.field, Null).items + [Incoming(a.value)]), Some(t.value), k);
      }
      SetKeeps(st, a.field, Incoming(a.value), Some(t.value), k);
    } else if op == MigrationOperators.CHANGE {
      SetKeeps(st, a.field, Incoming(a.value), None, k);
    } else if op == MigrationOperators.REMOVE {
    } else if op == MigrationOperators.RENAME && a.value.Some? {
      RenameKeeps(st, a.field, a.value.value, k);
    }
  }

  lemma {:induction false} ApplyActionsFrame(st: Store, acts: seq<Action>, isArray: FieldTypes.FieldType -> bool, k: string)
    requires st.Valid()
    requires forall i :: 0 <= i < |acts| ==> Untouched(acts[i], k)
    ensures ApplyActions(st, acts, isArray).Success? ==>
              var r := ApplyActions(st, acts, isArray).value;
              && r.Valid()
              && (r.Has(k) <==> st.Has(k))
              && (st.Has(k) ==> r.schema[k] == st.schema[k] && r.settings[k] == st.settings[k])
    decreases |acts|
  {
    if acts != [] {
      var init := acts[..|acts| - 1];
      assert forall i :: 0 <= i < |init| ==> init[i] == acts[i];
      ApplyActionsFrame(st, init, isArray, k);
      ApplyActionsValid(st, init, isArray);
      var before := ApplyActions(st, init, isArray);
      if before.Success? {
        ApplyActionFrame(before.value, acts[|acts| - 1], isArray, k);
        ApplyActionValid(before.value, acts[|acts| - 1], isArray);
      }
    }
  }

  /** The types under which setting `configVersion` to a number reads back as that number. */
  predicate NumericTag(t: FieldTypes.FieldType)
  {
    t.value == FieldTypes.INTEGER || t.value == FieldTypes.STRING || t.value == FieldTypes.FLOAT
  }

  /** Setting `configVersion` to `d` under a numeric tag makes the version read `d`. */
  lemma SetVersion(st: Store, d: int)
    requires st.Valid() && st.Has(VERSION) && NumericTag(st.schema[VERSION])
    ensures st.Set(VERSION, Int(d), None).Success?
    ensures var r := st.Set(VERSION, Int(d), None).value;
            && r.Valid() && r.Has(VERSION) && r.schema[VERSION] == st.schema[VERSION]
            && Version(r) == d
  {
    var t := st.schema[VERSION];
    assert st.Substituted(Int(d)) == Int(d);
    assert st.Set(VERSION, Int(d), None) == Success(st.Assign(VERSION, t, Int(d)));
    var r := st.Assign(VERSION, t, Int(d));
    if t.value == FieldTypes.INTEGER {
      assert Coerce(t, Int(d)) == Some(Int(d));
    } else {
      Text.IntValOfIntToString(d);
      if t.value == FieldTypes.STRING {
        assert Coerce(t, Int(d)) == Some(Str(Text.IntToString(d)));
      } else {
        assert Coerce(t, Int(d)) == Some(Float(Text.IntToString(d)));
      }
    }
    assert r.Has(VERSION);
  }

  /**
   * A file whose actions leave `configVersion` alone ends with the version it leads to, the
   * version's type unchanged.
   */
  lemma ApplyFileVersion(st: Store, f: MigrationFile, isArray: FieldTypes.FieldType -> bool)
    requires st.Valid() && st.Has(VERSION) && NumericTag(st.schema[VERSION])
    requires forall i :: 0 <= i < |f.actions| ==> Untouched(f.actions[i], VERSION)
    ensures ApplyFile(st, f, isArray).Success? ==>
              var r := ApplyFile(st, f, isArray).value;
              && r.Valid() && r.Has(VERSION) && r.schema[VERSION] == st.schema[VERSION]
              && Version(r) == f.destVersion
  {
    ApplyActionsFrame(st, f.actions, isArray, VERSION);
    var mid := ApplyActions(st, f.actions, isArray);
    if mid.Success? {
      SetVersion(mid.value, f.destVersion);
    }
  }

  /** The version after a run of files is the last file's destination, or unchanged if there is none. */
  lemma {:induction false} ApplyFilesVersion(st: Store, fs: seq<MigrationFile>, isArray: FieldTypes.FieldType -> bool)
    requires st.Valid() && st.Has(VERSION) && NumericTag(st.schema[VERSION])
    requires forall j, i :: 0 <= j < |fs| && 0 <= i < |fs[j].actions| ==> Untouched(fs[j].actions[i], VERSION)
    ensures ApplyFiles(st, fs, isArray).Success? ==>
              var r := ApplyFiles(st, fs, isArray).value;
              && r.Valid() && r.Has(VERSION) && r.schema[VERSION] == st.schema[VERSION]
              && Version(r) == if fs == [] then Version(st) else fs[|fs| - 1].destVersion
    decreases |fs|
  {
    if fs != [] {
      var init := fs[..|fs| - 1];
      assert forall j :: 0 <= j < |init| ==> init[j] == fs[j];
      ApplyFilesVersion(st, init, isArray);
      var before := ApplyFiles(st, init, isArray);
      if before.Success? {
        ApplyFileVersion(before.value, fs[|fs| - 1], isArray);
      }
    }
  }

  /**
   * A successful run ends at the destination version of the last file it selected, or at the
   * version it started from when no file starts at or after it.
   */
  lemma RunFinalVersion(start: Store, files: seq<MigrationFile>, isArray: FieldTypes.FieldType -> bool)
    requires start.Valid()
    requires start.Has(VERSION) ==> NumericTag(start.schema[VERSION])
    requires forall j, i :: 0 <= j < |files| && 0 <= i < |files[j].actions| ==> Untouched(files[j].actions[i], VERSION)
    ensures EnsureVersion(start).Success?
    ensures var st := EnsureVersion(start).value;
            var chosen := Select(files, Version(st));
            Run(start, files, isArray).Success? ==>
              Version(Run(start, files, isArray).value) == if chosen == [] then Version(st) else chosen[|chosen| - 1].destVersion
  {
    EnsureVersionSpec(start);
    var st := EnsureVersion(start).value;
    if !start.Has(VERSION) {
      FieldTypes.NewCases(Some(FieldTypes.INTEGER));
    }
    var chosen := Select(files, Version(st));
    SelectKeeps(files, Version(st));
    ApplyFilesVersion(st, chosen, isArray);
  }

  /** The text of an integer is never `true` or `false`, whatever its case. */
  lemma IntegerTextNotBoolWord(d: int)
    ensures Text.Lower(AsText(Int(d))) != "true" && Text.Lower(AsText(Int(d))) != "false"
  {
    var t := Text.IntToString(d);
    assert t[0] == '-' || Text.IsDigit(t[0]);
    assert Text.Lower(t)[0] == t[0];
  }

  /**
   * The reserved-name check looks at an action's field only, so `x > configVersion` parses. On
   * a store where `x` is a BOOLEAN field, that rename gives `configVersion` the BOOLEAN type,
   * and the version update at the end of the file then stores `true` (or `false` for
   * destination 0): the version reads 1 (or 0), not the file's destination.
   */
  lemma RenameOntoVersion(st: Store, x: string, o: int, d: int, isArray: FieldTypes.FieldType -> bool)
    requires st.Valid() && st.Has(VERSION) && st.Has(x) && x != VERSION
    requires st.schema[x].value == FieldTypes.BOOLEAN
    requires ' ' !in x && '[' !in x && Text.Lower(x) != RESERVED
    ensures var a := Action(x, MigrationOperators.FromString(">"), None, Some(VERSION));
            && Parse(x + " > " + VERSION) == Success(a)
            && ApplyFile(st, MigrationFile(o, d, [a]), isArray).Success?
            && ApplyFile(st, MigrationFile(o, d, [a]), isArray).value.schema[VERSION] == st.schema[x]
            && Version(ApplyFile(st, MigrationFile(o, d, [a]), isArray).value) == if d != 0 then 1 else 0
  {
    MigrationOperators.FromStringCases(">");
    RenameLineParses(x, VERSION);
    RenameFileOntoVersion(st, Action(x, MigrationOperators.FromString(">"), None, Some(VERSION)), o, d, isArray);
  }

  lemma RenameFileOntoVersion(st: Store, a: Action, o: int, d: int, isArray: FieldTypes.FieldType -> bool)
    requires st.Valid() && st.Has(VERSION) && st.Has(a.field) && a.field != VERSION
    requires st.schema[a.field].value == FieldTypes.BOOLEAN
    requires a.operator.value == MigrationOperators.RENAME && a.value == Some(VERSION)
    ensures ApplyFile(st, MigrationFile(o, d, [a]), isArray).Success?
    ensures ApplyFile(st, MigrationFile(o, d, [a]), isArray).value.schema[VERSION] == st.schema[a.field]
    ensures Version(ApplyFile(st, MigrationFile(o, d, [a]), isArray).value) == if d != 0 then 1 else 0
  {
    RenameStep(st, a, isArray);
    RenameSpec(st, a.field, VERSION);
    var renamed := st.Rename(a.field, VERSION).value;
    SingleActionFile(st, a, o, d, isArray);
    BoolVersionBump(renamed, d);
  }

  lemma RenameStep(st: Store, a: Action, isArray: FieldTypes.FieldType -> bool)
    requires a.operator.value == MigrationOperators.RENAME && a.value.Some?
    ensures ApplyAction(st, a, isArray) == Lift(st.Rename(a.field, a.value.value))
  {
  }

  lemma SingleActionFile(st: Store, a: Action, o: int, d: int, isArray: FieldTypes.FieldType -> bool)
    requires ApplyAction(st, a, isArray).Success?
    ensures ApplyFile(st, MigrationFile(o, d, [a]), isArray) ==
              Lift(ApplyAction(st, a, isArray).value.Set(VERSION, Int(d), None))
  {
    assert [a][..0] == [];
    assert ApplyActions(st, [a], isArray) == ApplyAction(st, a, isArray);
  }

  /** A RENAME line onto any name parses; only its source field is checked against the reserved name. */
  lemma RenameLineParses(x: string, target: string)
    requires ' ' !in x && '[' !in x && Text.Lower(x) != RESERVED
    requires target != "" && target != EMPTY_QUOTES
    ensures Parse(x + " > " + target) == Success(Action(x, MigrationOperators.FromString(">"), None, Some(target)))
  {
    var a := Action(x, MigrationOperators.FromString(">"), None, Some(target));
    MigrationOperators.FromStringCases(">");
    RenameActionWellFormed(x, target);
    ParseFormat(a);
    RenameLine(a, x, target);
  }

  lemma RenameActionWellFormed(x: string, target: string)
    requires ' ' !in x && '[' !in x && Text.Lower(x) != RESERVED
    requires target != EMPTY_QUOTES
    ensures WellFormed(Action(x, MigrationOperators.FromString(">"), None, Some(target)))
  {
    MigrationOperators.FromStringCases(">");
    MigrationOperators.ValidNameIff(">");
  }

  lemma RenameLine(a: Action, x: string, target: string)
    requires a.field == x && a.fieldType.None? && a.operator.name == ">" && a.value == Some(target) && target != ""
    ensures Format(a) == x + " > " + target
  {
  }

  /** Setting a BOOLEAN `configVersion` to a number stores whether it is non-zero. */
  lemma BoolVersionBump(st: Store, d: int)
    requires st.Valid() && st.Has(VERSION) && st.schema[VERSION].value == FieldTypes.BOOLEAN
    ensures st.Set(VERSION, Int(d), None).Success?
    ensures st.Set(VERSION, Int(d), None).value.schema[VERSION] == st.schema[VERSION]
    ensures Version(st.Set(VERSION, Int(d), None).value) == if d != 0 then 1 else 0
  {
    SetSpec(st, VERSION, Int(d), None);
    IntegerTextNotBoolWord(d);
  }

  /** Files whose actions leave `configVersion` alone still do after selection. */
  lemma {:induction false} SelectKeeps(fs: seq<MigrationFile>, v: int)
    requires forall j, i :: 0 <= j < |fs| && 0 <= i < |fs[j].actions| ==> Untouched(fs[j].actions[i], VERSION)
    ensures forall j, i :: 0 <= j < |Select(fs, v)| && 0 <= i < |Select(fs, v)[j].actions| ==>
              Untouched(Select(fs, v)[j].actions[i], VERSION)
    decreases |fs|
  {
    if fs != [] {
      var init := fs[..|fs| - 1];
      assert forall j :: 0 <= j < |init| ==> init[j] == fs[j];
      SelectKeeps(init, v);
    }
  }

  // ---------------------------------------------------------------- the migrator

  /**
   * How a step of `migrate` reports: the new state on success, the error otherwise (the
   * container is then abandoned, so its state does not matter).
   */
  predicate Reaches(res: Result<Store, MigrateError>, r: Outcome<MigrateError>, after: Store)
  {
    match res
    case Success(st) => r.Pass? && after == st
    case Failure(e) => r == Fail(e)
  }

  class Migrator {
    /** The loaded instruction files, in the order `migrate` considers them. */
    var files: seq<MigrationFile>

    /**
     * The constructor, given the files read from the migration directory (in the order they
     * were found): they are kept sorted by the version they start from.
     */
    constructor (loaded: seq<MigrationFile>)
      ensures files == SortByOrigin(loaded)
    {
      files := SortByOrigin(loaded);
    }

    /** One pass of the `switch` in `migrate`, on the container being migrated. */
    method Perform(settings: Container, a: Action, isArray: FieldTypes.FieldType -> bool) returns (r: Outcome<MigrateError>)
      requires settings.Valid()
      modifies settings
      ensures settings.Valid()
      ensures Reflects(ApplyAction(old(settings.Model()), a, isArray), old(settings.Model()), r, settings.Model())
    {
      ghost var before := settings.Model();
      var op := a.operator.value;
      var res: Outcome<ContainerError> := Pass;
      if op == MigrationOperators.ADD {
        if a.fieldType.None? {
          return Fail(TypeUnset);
        }
        var t := a.fieldType.value;
        if isArray(t) {
          if settings.Model().Has(a.field) {
            var tmp := settings.Model().Get(a.field, Null);
            if !tmp.List? {
              return Fail(MergeIntoNonList);
            }
            res := settings.Set(a.field, List(tmp.items + [Incoming(a.value)]), Some(t.value));
          } else {
            res := settings.Set(a.field, Incoming(a.value), Some(t.value));
          }
        } else if !settings.Model().Has(a.field) {
          res := settings.Set(a.field, Incoming(a.value), Some(t.value));
        }
      } else if op == MigrationOperators.CHANGE {
        if !isArray(settings.Model().GetType(a.field)) {
          res := settings.Set(a.field, Incoming(a.value), None);
        }
      } else if op == MigrationOperators.REMOVE {
        res := settings.Remove(a.field);
      } else if op == MigrationOperators.RENAME {
        if a.value.None? {
          return Fail(RenameToNull);
        }
        res := settings.Rename(a.field, a.value.value);
      }
      if res.Fail? {
        return Fail(ContainerFailed(res.error));
      }
      r := Pass;
    }

    /** The `foreach` of `migrate` over one file's actions, then the version update. */
    method ApplyFileTo(settings: Container, file: MigrationFile, isArray: FieldTypes.FieldType -> bool)
      returns (r: Outcome<MigrateError>)
      requires settings.Valid()
      modifies settings
      ensures settings.Valid()
      ensures Reaches(ApplyFile(old(settings.Model()), file, isArray), r, settings.Model())
    {
      ghost var atStart := settings.Model();
      var j := 0;
      while j < |file.actions|
        invariant 0 <= j <= |file.actions|
        invariant settings.Valid()
        invariant ApplyActions(atStart, file.actions[..j], isArray) == Success(settings.Model())
      {
        assert file.actions[..j + 1][..j] == file.actions[..j];
        ghost var before := settings.Model();
        assert ApplyActions(atStart, file.actions[..j + 1], isArray) == ApplyAction(before, file.actions[j], isArray);
        var outcome := Perform(settings, file.actions[j], isArray);
        if outcome.Fail? {
          ActionsFailureFinal(atStart, file.actions, j + 1, isArray);
          return outcome;
        }
        j := j + 1;
      }
      assert file.actions[..j] == file.actions;
      ghost var done := settings.Model();
      assert ApplyFile(atStart, file, isArray) == Lift(done.Set(VERSION, Int(file.destVersion), None));
      var bumped := settings.Set(VERSION, Int(file.destVersion), None);
      if bumped.Fail? {
        return Fail(ContainerFailed(bumped.error));
      }
      r := Pass;
    }

    /** The `foreach` of `migrate` over the chosen files. */
    method ApplyFilesTo(settings: Container, fs: seq<MigrationFile>, isArray: FieldTypes.FieldType -> bool)
      returns (r: Outcome<MigrateError>)
      requires settings.Valid()
      modifies settings
      ensures Reaches(ApplyFiles(old(settings.Model()), fs, isArray), r, settings.Model())
    {
      ghost var st := settings.Model();
      var i := 0;
      while i < |fs|
        invariant 0 <= i <= |fs|
        invariant settings.Valid()
        invariant ApplyFiles(st, fs[..i], isArray) == Success(settings.Model())
      {
        assert fs[..i + 1][..i] == fs[..i];
        var outcome := ApplyFileTo(settings, fs[i], isArray);
        if outcome.Fail? {
          FilesFailureFinal(st, fs, i + 1, isArray);
          return outcome;
        }
        i := i + 1;
      }
      assert fs[..i] == fs;
      r := Pass;
    }

    /**
     * `migrate`, given the decoded settings file (None when it is missing or unreadable): the
     * settings it would write, or the error that stops it.
     */
    /** The `foreach` that collects the files starting at or after `current`, in their order. */
    method SelectFrom(current: int) returns (chosen: seq<MigrationFile>)
      ensures chosen == Select(files, current)
      ensures forall f :: f in chosen <==> f in files && f.origVersion >= current
    {
      chosen := [];
      var i := 0;
      while i < |files|
        invariant 0 <= i <= |files|
        invariant chosen == Select(files[..i], current)
      {
        if files[i].origVersion >= current {
          chosen := chosen + [files[i]];
        }
        assert files[..i + 1][..i] == files[..i];
        i := i + 1;
      }
      assert files[..|files|] == files;
      SelectMembers(files, current);
    }

    method Migrate(data: Option<Decoded>, isArray: FieldTypes.FieldType -> bool) returns (r: Result<Store, MigrateError>)
      ensures r == Run(Load(data), files, isArray)
    {
      var settings := new Container(data);
      ghost var start := settings.Model();
      if !settings.Model().Has(VERSION) {
        var made := settings.Set(VERSION, Int(0), Some(FieldTypes.INTEGER));
        if made.Fail? {
          assert EnsureVersion(start) == Failure(ContainerFailed(made.error));
          return Failure(ContainerFailed(made.error));
        }
      }
      ghost var st := settings.Model();
      assert EnsureVersion(start) == Success(st);
      RunSelects(start, files, isArray);
      var filesToApply := SelectFrom(Version(settings.Model()));

      var outcome := ApplyFilesTo(settings, filesToApply, isArray);
      if outcome.Fail? {
        return Failure(outcome.error);
      }
      r := Success(settings.Model());
    }
  }
}

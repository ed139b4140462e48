# config-migration in Dafny

A model of the PHP library that keeps an application's settings in a typed store and
migrates that store through numbered instruction files. The model covers five parts:

- **FieldTypes**: the setting types, an ERROR sentinel (0, name `err`) and the four tags
  `bln`, `flt`, `int`, `str` (1 to 4).
- **MigrationOperators**: the operators of an instruction line, ERROR plus `+` ADD,
  `=` CHANGE, `-` REMOVE and `>` RENAME.
  - Both enumerations are records `(name, value)` built by a constructor that searches a
    constant table (module `Lookup`).
  - Both offer case-insensitive `fromString`, `validName` and `validValue`.
- **ConfigContainer**: the settings store.
  - It holds two parallel PHP arrays (field to type, field to value) and the key order they
    share. Its invariant is that both arrays have the same keys.
  - `Store` is the state as a value, with `has`, `get`, `getType`, `jsonSerialize` and the
    specification of `remove`, `rename` and `set`.
  - `Container` is the class whose constructor, `remove`, `rename` and `set` update those
    fields in place. Each is proved to reach the state the `Store` function gives, or to
    leave the state alone and report the error.
- **MigrationAction**: the parser of one instruction line `field[type] op value`, and a
  writer `Format` that it inverts.
- **Migrator**: the driver.
  - It sorts the files by the version they start from.
  - It makes sure `configVersion` exists and selects the files starting at or after it.
  - It applies every action of every selected file, then sets `configVersion` to the file's
    destination. The first error stops the run.
  - `Run` is the specification. The `Migrator` class performs it on a `Container`, with the
    loops of the source.

`Text` holds the PHP string functions the code relies on (`strtolower`, `stripos`, `substr`,
`str_replace`, `intval`, `boolval`, integer to string). `Results` holds `Option`, `Result`
and `Outcome`.

Exceptions are modelled as `Failure` values. PHP 8 runtime errors on the paths the
migration can reach are modelled as errors too: an ADD line without a type (an `Error`, from
reading the uninitialised typed property `$type`), and the `TypeError`s of an array ADD onto a
stored value that is not a list and of a RENAME line without a new name. CHANGE of a
missing field passes a null type to `validValue`; that is modelled as the container's
"Invalid type" failure.

## Model

| member | source | states |
|---|---|---|
| Lookup.ValueOf | Config/FieldTypes.php:53-57 | the table search by name finds a number exactly when the name is a key, and the pair found is in the table |
| Lookup.NameOf | Config/FieldTypes.php:96-103 | the search by number finds a name exactly when some entry has that number, and the pair found is in the table |
| Lookup.AnyValue | Config/FieldTypes.php:79-85 | the `validValue` loop answers true exactly when some entry has the number |
| Lookup.NameThenValue | Config/FieldTypes.php:36-41 | in a table without repeats, the name found for a number leads back to that number |
| Lookup.ValueThenName | Config/FieldTypes.php:36-41 | in a table without repeats, the number found for a name leads back to that name |
| FieldTypes.New | Config/FieldTypes.php:94-107 | definition: the constructor, the table entry of a number found in the table and (`err`, 0) for anything else |
| FieldTypes.FromString | Config/FieldTypes.php:50-60 | definition: the lower-cased name looked up in the table, ERROR when absent |
| FieldTypes.ValidName | Config/FieldTypes.php:68-70 | definition: the lower-cased name is a key of the table |
| FieldTypes.ValidValue | Config/FieldTypes.php:78-86 | definition: some entry of the table has the number |
| FieldTypes.TableFacts | Config/FieldTypes.php:13-41 | the type table has no repeats, its keys are exactly `bln flt int str`, and its numbers exactly 1..4 |
| FieldTypes.ValidValueIff | Config/FieldTypes.php:78-86 | `validValue(v)` holds iff 1 <= v <= 4, so 0 and -1 are rejected |
| FieldTypes.NewCases | Config/FieldTypes.php:94-107 | the constructor gives the table entry of each valid number, and (`err`, 0) for null or any other number |
| FieldTypes.FromStringCases | Config/FieldTypes.php:50-60 | `fromString` maps `bln flt int str`, in any case, to tags 1..4; every other name gives (`err`, 0), which is not a valid tag |
| FieldTypes.ValidNameIff | Config/FieldTypes.php:68-70 | `validName(s)` holds iff the lower-cased `s` is a table key, iff `fromString(s)` is not ERROR |
| FieldTypes.NameOfFromString | Config/FieldTypes.php:50-60 | for a valid name, the name of `fromString(s)` is `s` lower-cased |
| FieldTypes.FromStringOfName | Config/FieldTypes.php:50-107 | round trip: `fromString` of the name of any constructed type gives that type back |
| FieldTypes.CaseInsensitive | Config/FieldTypes.php:50-70 | `fromString` and `validName` give the same answer for `s` and for `s` lower-cased |
| FieldTypes.Accessors | Config/FieldTypes.php:114-148 | `is(v)` holds iff the value is `v`; `__toString` and `jsonSerialize` both give the name |
| MigrationOperators.New | Config/MigrationOperators.php:94-107 | definition: the constructor, the table entry of a number found in the table and (`err`, 0) for anything else |
| MigrationOperators.FromString | Config/MigrationOperators.php:50-60 | definition: the lower-cased symbol looked up in the table, ERROR when absent |
| MigrationOperators.ValidName | Config/MigrationOperators.php:68-70 | definition: the lower-cased symbol is a key of the table |
| MigrationOperators.ValidValue | Config/MigrationOperators.php:78-86 | definition: some entry of the table has the number |
| MigrationOperators.TableFacts | Config/MigrationOperators.php:13-41 | the operator table has no repeats, its keys are exactly `+ = - >` and its numbers exactly 1..4 |
| MigrationOperators.ValidValueIff | Config/MigrationOperators.php:78-86 | `validValue(v)` holds iff 1 <= v <= 4 |
| MigrationOperators.NewCases | Config/MigrationOperators.php:94-107 | the constructor gives the entry of each valid number, and (`err`, 0) for anything else |
| MigrationOperators.LowerIsOperator | Config/MigrationOperators.php:51 | lower-casing a string yields an operator character iff the string already is that character |
| MigrationOperators.FromStringCases | Config/MigrationOperators.php:50-60 | `fromString` maps `+ = - >` to ADD, CHANGE, REMOVE, RENAME; every other string gives (`err`, 0), which is not valid |
| MigrationOperators.ValidNameIff | Config/MigrationOperators.php:68-70 | `validName(s)` holds iff `s` is one of the four characters, iff `fromString(s)` is not ERROR |
| MigrationOperators.FromStringOfName | Config/MigrationOperators.php:50-107 | round trip: `fromString` of the name of any constructed operator gives that operator back |
| MigrationOperators.Accessors | Config/MigrationOperators.php:114-148 | `is(v)` holds iff the value is `v`; `__toString` and `jsonSerialize` both give the name |
| Text.Stripos | Config/MigrationAction.php:47 | case-insensitive search equals the plain first-occurrence search for patterns without letters |
| Text.IndexOf | Config/MigrationAction.php:47 | the position found holds the pattern and no earlier position does; None means the pattern occurs nowhere |
| Text.Substr | Config/MigrationAction.php:53 | `substr` is the slice from `start`, cut at the end of the text, and empty past the end |
| Text.Lower | Config/ConfigContainer.php:199 | `strtolower` keeps the length and lower-cases each ASCII letter |
| Text.ReplaceAll | Config/ConfigContainer.php:185 | definition: `str_replace` for one pair, every occurrence replaced left to right without overlap, the inserted text not scanned again |
| Text.ReplaceEach | Config/ConfigContainer.php:185 | definition: `str_replace` with arrays, the pairs applied one after the other, each to the previous result |
| Text.IntVal | Config/ConfigContainer.php:213 | definition: `intval` of a string, the leading white space, sign and digits read as an integer |
| Text.Truthy | Config/ConfigContainer.php:204 | definition: `boolval` of a string, false exactly for `""` and `"0"` |
| Text.ReplaceAllStep | Config/ConfigContainer.php:185 | `str_replace` replaces every occurrence: past a prefix without the pattern's first character, the pattern is replaced and the scan goes on in the rest |
| Text.ReplaceAllAbsent | Config/ConfigContainer.php:185 | `str_replace` leaves text without the pattern unchanged |
| Text.IntValOfIntToString | Config/ConfigContainer.php:212-213 | `intval` reads every integer back from its decimal text |
| Text.IntValLeadingInteger | Config/ConfigContainer.php:212-213 | `intval` reads the leading integer: white space, an optional sign, and the digits up to the first non-digit (`"12abc"` is 12, `" -7x"` is -7, `"1.9"` is 1) |
| Text.IntValNoDigits | Config/ConfigContainer.php:212-213 | text with no digit after its leading white space and optional sign reads as 0 |
| Text.ReplaceEachOne | Config/ConfigContainer.php:185 | `str_replace` with a list of `$` patterns on `$`-free text around one pattern replaces exactly that pattern, when no other pattern starts there |
| ConfigContainer.Erase | Config/ConfigContainer.php:140-141 | `unset` drops exactly the key from the key order and keeps the other keys distinct |
| ConfigContainer.EraseAppend | Config/ConfigContainer.php:140-141 | `unset` keeps the other keys in their order: erasing from two pieces is erasing from each, and a single key goes just when it is the one erased |
| ConfigContainer.AsText | Config/ConfigContainer.php:185-218 | definition: PHP's conversion of a value to a string (`true` is `1`, `false` and null are empty, a list is `Array`) |
| ConfigContainer.Truthy | Config/ConfigContainer.php:204 | definition: `boolval` of a value |
| ConfigContainer.IntValue | Config/ConfigContainer.php:213 | definition: `intval` of a value |
| ConfigContainer.Coerce | Config/ConfigContainer.php:197-225 | definition: the `switch` of `set`, the value stored under each of the four tags, and nothing for any other tag |
| ConfigContainer.Store.Has | Config/ConfigContainer.php:112-114 | definition: the field is a key of both arrays |
| ConfigContainer.Store.JsonSerialize | Config/ConfigContainer.php:121-126 | definition: the schema as type names, and the settings as they are |
| ConfigContainer.Store.Rename | Config/ConfigContainer.php:154-165 | definition: RenameMissing for an absent field; otherwise the type and value copied to the new name, then the old name removed |
| ConfigContainer.Store.Replacements | Config/ConfigContainer.php:178-182 | definition: the pairs `${key}` and the key's value as text, in key order |
| ConfigContainer.Store.Substituted | Config/ConfigContainer.php:177-187 | definition: a string holding `${` gets the replacement pairs applied; any other value is kept |
| ConfigContainer.Store.Set | Config/ConfigContainer.php:176-228 | definition: substitute, fail with InvalidType for a new field without a valid type, otherwise store the value coerced to the field's type |
| ConfigContainer.Usable | Config/ConfigContainer.php:39-45 | definition: both keys present, and as many distinct schema names as settings |
| ConfigContainer.Load | Config/ConfigContainer.php:32-57 | definition: the empty store for unusable input, otherwise the fill loop over the schema list |
| ConfigContainer.Store.Get | Config/ConfigContainer.php:66-72 | `get` gives the stored value of a present field and the default otherwise |
| ConfigContainer.Store.GetType | Config/ConfigContainer.php:98-104 | `getType` gives the stored type of a present field and (`err`, 0) otherwise |
| ConfigContainer.HasOnValid | Config/ConfigContainer.php:112-114 | under the invariant, `has` is membership in either array |
| ConfigContainer.Store.Put | Config/ConfigContainer.php:159-160 | writing a field into both arrays keeps the invariant |
| ConfigContainer.Store.Remove | Config/ConfigContainer.php:135-144 | `remove` fails with RemoveMissing iff the field is absent; otherwise both arrays lose exactly that key and the invariant holds |
| ConfigContainer.RenameSpec | Config/ConfigContainer.php:154-165 | `rename` fails iff the old field is absent; otherwise the new name gets the old type and value (overwriting), the old name is gone (so renaming a field onto itself removes it), other fields are untouched, and the invariant holds |
| ConfigContainer.Store.Assign | Config/ConfigContainer.php:194-225 | the field takes the tag and the coerced value; a tag with no coercion keeps the old value; a new field joins the end of the key order; the invariant is kept |
| ConfigContainer.SetSpec | Config/ConfigContainer.php:176-228 | `set` fails with InvalidType iff the field is new and the type is not valid; otherwise the field has its old type (or the new one) and the substituted value coerced to it, every other field is untouched, and the invariant holds |
| ConfigContainer.AssignSpec | Config/ConfigContainer.php:194-225 | after the store step, the field holds the tag and the coerced value, and every other field is as it was |
| ConfigContainer.ValidTypeCoerces | Config/ConfigContainer.php:197-219 | every valid tag stores a value (no valid tag reaches the empty `default` branch) |
| ConfigContainer.SetIgnoresTypeOfExisting | Config/ConfigContainer.php:189-195 | on an existing field the type argument of `set` makes no difference |
| ConfigContainer.BooleanCoercion | Config/ConfigContainer.php:198-207 | BOOLEAN takes `true`/`false` in any case literally and otherwise PHP truthiness, so `""` and `"0"` give false |
| ConfigContainer.IntegerCoercion | Config/ConfigContainer.php:212-215 | INTEGER reads an integer back from its decimal text and keeps an integer |
| ConfigContainer.IntegerCoercionOfText | Config/ConfigContainer.php:212-215 | INTEGER stores the leading integer of other text, and 0 for text that does not start with one |
| ConfigContainer.StringCoercion | Config/ConfigContainer.php:216-219 | STRING stores a string verbatim |
| ConfigContainer.ErrorTypeKeepsValue | Config/ConfigContainer.php:221-223 | `set` on a field whose stored type is not valid succeeds and changes nothing |
| ConfigContainer.CoerceIdempotent | Config/ConfigContainer.php:197-225 | coercing an already coerced value gives it back |
| ConfigContainer.SetOwnValue | Config/ConfigContainer.php:176-228 | setting a field to a coerced value it holds, which holds no `${key}` of a stored key, changes nothing |
| ConfigContainer.SetStringTo | Config/ConfigContainer.php:176-219 | setting an existing STRING field stores the substituted text and leaves the type, the key order and every other field alone |
| ConfigContainer.SetOwnPlaceholder | Config/ConfigContainer.php:176-219 | setting a STRING field holding `${g}` to its own value stores `g`'s value instead: substitution runs before coercion |
| ConfigContainer.UnknownPlaceholdersKept | Config/ConfigContainer.php:177-187 | text holding no `${key}` of a stored key is left unchanged by substitution |
| ConfigContainer.PlaceholderReplaced | Config/ConfigContainer.php:177-187 | in any store whose keys hold no `$` or `}`, text without `$` around one `${k}` of a stored `k` has it replaced by `k`'s value (itself without `$`), wherever `k` stands in the key order |
| ConfigContainer.PlaceholdersReplaced | Config/ConfigContainer.php:177-187 | in any store whose keys hold no `$` or `}`, text made of `$`-free pieces and any number of placeholders has every `${k}` of a stored `k` replaced by `k`'s value (when those hold no `$`), and every other placeholder kept |
| ConfigContainer.TwoPlaceholdersReplaced | Config/ConfigContainer.php:177-187 | two placeholders, of one key or of two, are both replaced: `${a}-${a}` becomes `x-x` |
| ConfigContainer.PlaceholderNotPrefix | Config/ConfigContainer.php:179-181 | the placeholder of one such key never starts the text at another key's placeholder, so only the named key's pair replaces anything |
| ConfigContainer.SetSubstitutes | Config/ConfigContainer.php:176-219 | setting a new STRING field to such text succeeds and stores it with the placeholder replaced |
| ConfigContainer.SubstitutionOrder | Config/ConfigContainer.php:179-185 | the replacements run in key order, each on the previous result: with `a` = `${b}` and `b` = `x`, `${a}` becomes `x` when `a` comes first and stays `${b}` when `b` comes first |
| ConfigContainer.Fill | Config/ConfigContainer.php:47-54 | every prefix of the constructor's fill loop yields a store that keeps the invariant |
| ConfigContainer.FillContents | Config/ConfigContainer.php:47-54 | the fill loop loads exactly the listed fields that have a value, with that value and the type named by the field's last schema entry |
| ConfigContainer.LoadContents | Config/ConfigContainer.php:32-57 | missing input, a missing key or different sizes give the empty store; otherwise exactly the listed fields with values are loaded; the invariant holds |
| ConfigContainer.Keys | Config/ConfigContainer.php:47 | the key set of the schema list is exactly the names it lists |
| ConfigContainer.DistinctKeysCount | Config/ConfigContainer.php:43 | a schema list without repeated names has as many distinct names, the number `count` gives, as entries |
| ConfigContainer.LoadSerializeRoundTrip | Config/ConfigContainer.php:32-126 | for a flat schema with canonical type names, one entry per setting, `jsonSerialize` after construction gives back the same names and values |
| ConfigContainer.Container.constructor | Config/ConfigContainer.php:32-57 | the fill loop leaves the container in the state `Load` gives, with the invariant |
| ConfigContainer.Container.Remove | Config/ConfigContainer.php:135-144 | the container reaches `Store.Remove`'s state, or reports RemoveMissing unchanged |
| ConfigContainer.Container.Rename | Config/ConfigContainer.php:154-165 | the container reaches `Store.Rename`'s state, or reports RenameMissing unchanged |
| ConfigContainer.Container.CollectReplacements | Config/ConfigContainer.php:178-182 | the loop builds the `${key}`/value pairs of every stored key, in key order |
| ConfigContainer.Container.Substitute | Config/ConfigContainer.php:177-187 | the substitution step gives the value `Store.Substituted` specifies |
| ConfigContainer.Container.Set | Config/ConfigContainer.php:176-228 | the container reaches `Store.Set`'s state, or reports InvalidType unchanged; the invariant holds |
| MigrationAction.RawField | Config/MigrationAction.php:47 | the raw field is the text before the first space, and empty when there is no space |
| MigrationAction.BareField | Config/MigrationAction.php:49-58 | the field is the raw field cut at its first `[`, and the whole raw field without one |
| MigrationAction.TypeOf | Config/MigrationAction.php:49-56 | a type is read iff the raw field holds `[`; it is `fromString` of the 5 characters after the `[` when the raw field holds `[]`, and of the 3 characters after it otherwise |
| MigrationAction.ArraySuffixIsError | Config/MigrationAction.php:52-53 | a raw field holding `[]` always gets the ERROR type: a type name is three letters, so the five characters could match only at the end of the field, where no `[]` fits |
| MigrationAction.ScalarSuffixType | Config/MigrationAction.php:49-56 | a three-character suffix `[xyz]` is looked up case-insensitively: `f[INT]` is INTEGER, an unknown name is ERROR |
| MigrationAction.Parse | Config/MigrationAction.php:45-80 | a parsed field is a prefix of the line with no space or `[` and is not `configversion`; a missing value only comes with REMOVE or RENAME; the value is never the two quote characters |
| MigrationAction.ParseParts | Config/MigrationAction.php:45-80 | for any line: the field runs to the first space or `[`; the type comes from the raw field's suffix; the operator is the character after the raw field and a space; the value is the rest from two characters further, present iff that is non-empty, with `""` read as empty; ReservedField iff the field is `configversion` in any case; MissingValue iff, past that, an operator below REMOVE has no value |
| MigrationAction.RawFieldOf | Config/MigrationAction.php:47 | a line splits at the space after a space-free raw field |
| MigrationAction.BareFieldOf | Config/MigrationAction.php:49-58 | a field followed by a `[` suffix is cut back to the field |
| MigrationAction.ReservedRejected | Config/MigrationAction.php:61-63 | any field lower-casing to `configversion`, with or without a type suffix, fails with ReservedField whatever follows |
| MigrationAction.NoEmptyBrackets | Config/MigrationAction.php:52 | a bracket suffix of three non-bracket characters holds no `[]` |
| MigrationAction.TypeSuffixRoundTrip | Config/MigrationAction.php:49-56 | a written `[name]` suffix reads back as the canonical type it names |
| MigrationAction.ValueSuffixRoundTrip | Config/MigrationAction.php:67-77 | the value part reads back as the value, with `""` standing for the empty string, and is absent iff none was written |
| MigrationAction.HeadRoundTrip | Config/MigrationAction.php:47-65 | the field, type and operator of a written line read back as they were |
| MigrationAction.ParseFormat | Config/MigrationAction.php:45-80 | round trip: parsing the line written for any well-formed action gives that action |
| MigrationAction.MissingValueRejected | Config/MigrationAction.php:67-73 | a line ending after the operator fails with MissingValue for ERROR, ADD and CHANGE and parses for REMOVE and RENAME |
| MigrationAction.NoSpaceLine | Config/MigrationAction.php:47-65 | when a line without a space parses, its field is empty, it has no type, and its operator is the character at index 1 |
| Migrator.SortByOrigin | Config/Migrator.php:87-95 | definition: `usort` on `origVersion`, as insertion of each loaded file in turn |
| Migrator.Insert | Config/Migrator.php:88-94 | inserting a file adds exactly that file |
| Migrator.InsertSorted | Config/Migrator.php:88-94 | insertion keeps the files sorted by origin version |
| Migrator.InsertStable | Config/Migrator.php:88-94 | insertion puts the file after the files with its origin version |
| Migrator.SortByOriginSpec | Config/Migrator.php:87-95 | the sorted files are ordered by origin version, a permutation of the loaded ones, and files with equal origins keep their loading order |
| Migrator.Migrator.constructor | Config/Migrator.php:87-95 | the migrator keeps the loaded files sorted by origin version |
| Migrator.EnsureVersion | Config/Migrator.php:112-114 | definition: `set('configVersion', 0, INTEGER)` when the field is missing |
| Migrator.Version | Config/Migrator.php:117 | definition: the stored `configVersion` read by `intval` |
| Migrator.Select | Config/Migrator.php:116-123 | definition: the files whose `origVersion` is at or above the version, in their order |
| Migrator.ApplyAction | Config/Migrator.php:127-165 | definition: the `switch` on the operator, ADD (array or scalar), CHANGE, REMOVE, RENAME, and nothing for any other operator |
| Migrator.ApplyFile | Config/Migrator.php:126-169 | definition: the file's actions in order, then `configVersion` set to the destination |
| Migrator.ApplyFiles | Config/Migrator.php:125-170 | definition: the files in order, the first failure ending the run |
| Migrator.Run | Config/Migrator.php:105-170 | definition: ensure `configVersion`, read the version once, select, and apply the selected files |
| Migrator.SelectMembers | Config/Migrator.php:116-123 | exactly the files with origin version at or above the current version are selected |
| Migrator.SelectSuffix | Config/Migrator.php:116-123 | of sorted files, the selection is a tail of the list, so it is applied in sorted order |
| Migrator.EnsureVersionSpec | Config/Migrator.php:112-114 | `configVersion` becomes present, as integer 0 (type `int`) when it was missing, and nothing else changes |
| Migrator.RunSelects | Config/Migrator.php:105-170 | a run applies the files selected by the version read once before any file, in order, and keeps the invariant |
| Migrator.ActionsFailureFinal | Config/Migrator.php:126-167 | a failure after some of a file's actions is the result of all of them |
| Migrator.FilesFailureFinal | Config/Migrator.php:125-170 | a failure after some of the files is the result of the whole run |
| Migrator.ApplyActionValid | Config/Migrator.php:127-165 | every action that succeeds keeps the container's invariant |
| Migrator.ApplyActionsValid | Config/Migrator.php:126-167 | a file's actions keep the invariant |
| Migrator.ApplyFileValid | Config/Migrator.php:125-170 | a file, with its version bump, keeps the invariant |
| Migrator.ApplyFilesValid | Config/Migrator.php:125-170 | a run of files keeps the invariant |
| Migrator.ScalarAdd | Config/Migrator.php:140-144 | a scalar ADD never overwrites; it creates an absent field with the action's type and the substituted value coerced to it, and fails for an invalid type |
| Migrator.ArrayAdd | Config/Migrator.php:129-138 | an array ADD onto a stored list passes the list with the value appended, keeping the type; onto a non-list it fails |
| Migrator.Change | Config/Migrator.php:145-152 | CHANGE leaves an array-kind field alone; on another field it keeps the type and stores the substituted value coerced to it (the old value when the type coerces nothing); on a missing field (type ERROR, unless that counts as array-kind) it fails with InvalidType |
| Migrator.RemoveMissingAborts | Config/Migrator.php:153-156 | REMOVE of a missing field fails, and the failure ends the rest of the file |
| Migrator.UnknownOperatorIgnored | Config/Migrator.php:161-165 | an action with the ERROR operator changes nothing |
| Migrator.ApplyActionFrame | Config/Migrator.php:127-165 | an action leaves every field it does not name as it was |
| Migrator.ApplyActionsFrame | Config/Migrator.php:126-167 | actions that do not name a field leave it as it was |
| Migrator.SetVersion | Config/Migrator.php:169 | setting `configVersion` to a number under a numeric type makes the version read that number |
| Migrator.ApplyFileVersion | Config/Migrator.php:125-170 | after a file whose actions leave `configVersion` alone, the version is the file's destination |
| Migrator.ApplyFilesVersion | Config/Migrator.php:125-170 | after a run of such files, the version is the last file's destination, or unchanged when there is none |
| Migrator.RunFinalVersion | Config/Migrator.php:105-170 | when `configVersion` has a numeric type (INTEGER, FLOAT or STRING) or is missing, and no action names it as its field or RENAME target, a successful migration ends at the destination of the last selected file, or at the starting version when none is selected |
| Migrator.RenameLineParses | Config/MigrationAction.php:61-65 | a RENAME line onto any name, `configVersion` included, parses: only the source field is checked against the reserved name |
| Migrator.BoolVersionBump | Config/Migrator.php:169 | setting a BOOLEAN `configVersion` to a number stores whether it is non-zero, so the version reads 1 or 0 |
| Migrator.RenameOntoVersion | Config/Migrator.php:153-169 | the line `x > configVersion` on a BOOLEAN field `x` parses, gives `configVersion` the BOOLEAN type, and the file then leaves the version at 1 (0 for destination 0) instead of its destination |
| Migrator.Migrator.Perform | Config/Migrator.php:127-166 | one pass of the `switch` on the container reaches `ApplyAction`'s state, or reports its error unchanged |
| Migrator.Migrator.ApplyFileTo | Config/Migrator.php:126-169 | the loop over a file's actions and the version bump reach `ApplyFile`'s state, or report its error |
| Migrator.Migrator.ApplyFilesTo | Config/Migrator.php:125-170 | the loop over the selected files reaches `ApplyFiles`'s state, or reports its error |
| Migrator.Migrator.SelectFrom | Config/Migrator.php:116-123 | the `foreach` collecting the files to apply keeps exactly those starting at or above the current version, in their order |
| Migrator.Migrator.Migrate | Config/Migrator.php:105-172 | the migration yields exactly `Run` of the loaded store and the sorted files: the settings to write, or the error that stops it |

## Left out

- JSON decoding and encoding, and all file access (`file_exists`, `file_get_contents`,
  `file_put_contents`). The container is built from an already-decoded optional record,
  and `Migrate` returns the store it would write.
- The Migrator constructor's directory check, path normalisation, extension check, `glob` and
  line reading. The constructor takes the loaded files.
- Config/MigrationFile.php is not part of this model. A file is the record
  `(origVersion, destVersion, actions)`.
- `usort` is a library call, so the sort is the function `SortByOrigin`. It is a stable
  insertion sort, as PHP 8's sort is stable.
- `isArrayType()` is called by the migrator but not defined by the field type class. It is a
  parameter `isArray` of the migration functions.
- Floats are kept as the decimal text they were written with. `floatval` is not computed, and
  a float's text is what conversion to string, `intval` and `boolval` read.
- `Text.IntVal`: leading white space, a sign and leading digits. It does not model exponent
  notation or saturation at the 64-bit limits.
- `ConfigContainer.Store.Substituted`: only string values are searched for `${`. PHP 8 throws
  a `TypeError` when `stripos` gets an array, which an array ADD passes. That case is modelled
  as no substitution.
- `Migrator.Version`: the version is the stored value read by `intval`. The source compares
  the stored value with PHP's loose `>=`. The two agree on integers, which is what
  `configVersion` holds. They can differ for a float (a stored `1.5` reads as 1, so a file
  starting at 1 is selected, while PHP's `1 >= 1.5` is false), a non-numeric string, or a
  boolean stored there by hand.
- Migrator.Migrator.ApplyFileTo, Migrator.Migrator.ApplyFilesTo: on failure they state only
  the error, not the container's state. `migrate` abandons the container after an exception.
- PHP 8 runtime errors are modelled as the errors TypeUnset (reading the uninitialised typed
  property `$type`, an `Error`), MergeIntoNonList and RenameToNull (`TypeError`s).
  `validValue(null)` is modelled as the InvalidType failure. The exception classes and
  messages of those cases are not distinguished further.
- Strings are sequences of characters, while PHP's `strlen`, `stripos` and `substr` count
  bytes. The two agree on ASCII text. They can differ when a non-ASCII character comes before
  the operator position of an instruction line: `f éx` has no value here, while PHP reads
  `x` as its value.
- `ConfigContainer.Value` holds scalars and lists only. A JSON object given as the value of
  a schema key is stored by the source as an associative array; the model has no such value,
  so the conversions (`AsText`, `Truthy`, `IntValue`) and `array_merge` on it are not modelled.
- `ConfigContainer.Store.JsonSerialize` returns the two arrays as maps. The key order
  `json_encode` writes is the store's `order`, which is not part of that result.
- Migrator.RunFinalVersion: holds only when `configVersion` has a numeric type and no action
  names it. The reserved-name check covers only an action's field, so a RENAME onto
  `configVersion` is accepted and can change its type (Migrator.RenameOntoVersion).
- Array type tags and nested setting trees do not exist in the field type table or the
  container code, although the tests expect them. The model follows the code.
- `getSchema` and `getSettings` are plain field reads, and the model's state is the `Store`
  value (`Container.Model`).

# hwtest-analysis raw-data decoding, in Dafny

This project models the decoding core of hwtest-analysis. A hardware test
writes a raw-data log with two kinds of rows:

- **Definition rows** (`hw_args`) declare a hardware call: its name
  `Class.accessor[_getter|_setter]`, its input field names and its output
  fields (`hw_out...`).
- **Call rows** record one call against such a definition. The call is named
  `<resource>__<definition name>`, its origin is `class->step`, and it carries
  an epoch time, a duration and its io values.

The model covers four parts:

- **Definitions and the lookup table** (`parsing.py`): `HwCallDef`, `HwCallDefLUT`.
- **Calls** (`parsing.py`): `HwCall`, including the string coercion and the flattening into one record.
- **The post-processor** (`post_process.py`):
  - `RawDataFile` groups calls by `(resource, defining triple)`.
  - It gives each record a per-step call counter and trims every group to the retention bound.
  - It dispatches the rows in order and names each group as a stream.
- **Column handling** (`post_process.py`): the `||<id>` renaming of data columns and the metadata filter used when writing.

The modules, in dependency order:

- `Wrappers`: the `Option` type (`None` for Python's `None`, a missing entry or a raised exception).
- `Text`: Python's `find`, `in`, `endswith` and `split` (a `Join` inverse specifies `split`).
- `Dicts`: an insertion-ordered Python `dict`, as a list of pairs.
- `Values`: the values of a record and `_convert_to_type`.
- `Definitions`: definition rows.
- `DefTable`: the lookup table. It is a class, `HwCallDefLUT`, proved against functions on a `Table` value.
- `Calls`: call rows and `dictionary`.
- `Aggregator`: `add_call`, the row loop and stream naming. The class `RawDataFile` is proved against functions on a `Session` value.
- `Columns`: column renaming and selection.

Where the code and its description differ, the model follows the code:

- **Output names.** An output token's name is what follows its first six
  characters. The code never checks that those six characters are `hw_out`
  (`Definitions.OutputNameChecksNoPrefix`).
- **Missing definition.** When no definition matches a call, `next(...)` raises
  `StopIteration`, not the `KeyError` the code catches. The model treats every
  exception the same way: the row, and the load, yield `None`.

## Model

| member | source | states |
|---|---|---|
| Values.ConvertToType | parsing.py:186-203 | Gives an int exactly for a decimal literal without `.`, and a float exactly for one with `.`, each carrying the literal's value. Gives `None` exactly for the text `None`. Returns any other text unchanged. |
| Values.NoDotIsInteger | parsing.py:190-193 | A literal without `.` always denotes an integer, so the `is_integer()` test never sends it to the float branch. |
| Values.NoneIsNotDecimal | parsing.py:189-201 | The text `None` is not numeric, so it reaches the `None` branch. |
| Values.ConvertIntText | parsing.py:186-193 | Round trip: the decimal text of any integer converts back to that integer. |
| Values.ConvertIntTextPointZero | parsing.py:191-195 | An integer written with `.0` converts to a float of the same value, not to an int. |
| Values.ConvertExamples | parsing.py:186-203 | `10` gives int 10, `10.0` gives float 10.0, `-3.25` gives float -3.25, `None` gives null, `abc` gives the text. |
| Definitions.ParseCallStrings | parsing.py:29-54 | Neither the class nor the accessor it returns contains `.`. |
| Definitions.ParseClassDot | parsing.py:33-44 | `c.x` parses as a getter when `x` ends in `_getter`, else as a setter when it ends in `_setter` (suffix cut off), else as a function named `x`. |
| Definitions.ParseCallStringsRoundTrip | parsing.py:29-54 | Every writable triple (`class.accessor` plus `_getter`, `_setter` or nothing) parses back from its written form. |
| Definitions.ParseCallStringsFallback | parsing.py:45-48 | A name without `.` is the accessor of a function with an empty class (the `IndexError` path). |
| Definitions.ParseCallStringsFirstTwo | parsing.py:33-44 | Two names whose first two `.`-pieces agree parse the same. |
| Definitions.ParseCallStringsIgnoresRest | parsing.py:33-44 | Pieces after the second `.`-piece are ignored. |
| Definitions.OutputName | parsing.py:85-89 | Never empty. Either `hw_out` or a proper suffix of the token. |
| Definitions.OutputNames | parsing.py:80-91 | One non-empty name per token: `hw_out` for a token of at most six characters, otherwise the token without its first six. |
| Definitions.ParseOutputDefs | parsing.py:80-91 | The loop appends exactly `OutputNames` of the tokens. |
| Definitions.OutputNameOfMarkedToken | parsing.py:85-89 | `hw_out` followed by a key gives the key. The bare `hw_out` gives `hw_out`. |
| Definitions.OutputNameChecksNoPrefix | parsing.py:85-89 | The first six characters are dropped whatever they are (`xhw_out[a]` gives `t[a]`). |
| Definitions.OutputStart | parsing.py:25 | The index of the first token containing `hw_out`, or the length when there is none. |
| Definitions.ExtractIoDefs | parsing.py:17-27 | Has a name exactly when the first token is `name`, which is then dropped. The inputs are the longest prefix of the rest with no token containing `hw_out`. Every remaining token gives one output name. |
| Definitions.DecodeDefinition | parsing.py:10-15 | Start time unset and relative time equal to the time field's value. Every io field is accounted for: the name flag plus the inputs plus the outputs equal the fields from index 4 on. |
| Definitions.CallDefString | parsing.py:58 | The piece after the first `__` never contains `__` itself. |
| Definitions.CallTriple | parsing.py:58-59 | The triple a call refers to has no `.` in its class or its accessor. |
| Definitions.Defines | parsing.py:56-59 | A definition can only match a call when its own class and accessor have no `.`. |
| Definitions.CallTripleRoundTrip | parsing.py:56-59 | A call named `<resource>__<written triple>` refers to that triple. |
| DefTable.FirstMatch | parsing.py:115 | The index of the first entry with the triple, with no match before it. `None` exactly when no entry matches. |
| DefTable.WithDef | parsing.py:105-119 | The first definition after a reset fixes the start time. Every entry carries it, and the first entry never changes. |
| DefTable.WithDefReplaces | parsing.py:114-117 | A triple first found at index 1 or later is overwritten in place, nothing else changes, and lookups find the new definition. |
| DefTable.WithDefAppends | parsing.py:116-119 | A new triple, or the triple of the entry at index 0, is appended. |
| DefTable.WithDefDuplicatesFirst | parsing.py:115-119 | Redefining the first entry appends a duplicate triple, and lookups keep returning the old entry. |
| DefTable.WithDefKeepsUniqueUnlessFirst | parsing.py:105-119 | As written, one entry per triple survives every addition except a redefinition of the first entry. |
| DefTable.WithDefEntries | parsing.py:105-119 | Every entry after `add_def` was already in the table or is the new definition with the start time. |
| DefTable.WithDefCorrected | parsing.py:105-119 | The corrected addition keeps the start time, which is set by the first definition and carried by every entry. |
| DefTable.WithDefCorrectedUpserts | parsing.py:114-119 | The corrected addition keeps one entry per triple. A triple found at any index, 0 included, is overwritten in place and nothing else changes. A new triple is appended. Lookups find the new definition. |
| DefTable.Lookup | parsing.py:124 | A table entry with the asked triple. `None` exactly when no entry has it. |
| DefTable.GetDefinition | parsing.py:121-126 | A table entry that defines the call. `None` exactly when no entry defines it. The result carries the table's start time. |
| DefTable.GetDefinitionFirst | parsing.py:124 | Of several entries that define the call, the first in table order is returned. |
| DefTable.HwCallDefLUT.constructor | parsing.py:97-99 | A new table is empty with no start time. |
| DefTable.HwCallDefLUT.Reset | parsing.py:101-103 | Empties the table and clears the start time. |
| DefTable.HwCallDefLUT.IndexOf | parsing.py:115 | The scan returns `FirstMatch`. |
| DefTable.HwCallDefLUT.AddDef | parsing.py:105-119 | The table becomes `WithDef` of its old state and stays anchored to its start time. |
| DefTable.HwCallDefLUT.AddDefCorrected | parsing.py:105-119 | The table becomes `WithDefCorrected` of its old state. |
| DefTable.HwCallDefLUT.GetDefinitionOf | parsing.py:121-126 | The scan returns `GetDefinition` of the current state. |
| Calls.ResourceNameOf | parsing.py:148-149 | Never empty and never contains `__`. A name without `__` is kept whole. |
| Calls.ResourceNameRoundTrip | parsing.py:148-149 | `<resource>__<rest>` gives back the resource. |
| Calls.ResourceNameMissing | parsing.py:148-149 | A name starting with `__` gives `NotProvided`. |
| Calls.ParseCallOrigin | parsing.py:160-166 | No step exactly when there is no `->`, and then the class is the whole text. The class never contains `->`. `class->step` is a prefix of the origin. |
| Calls.ParseCallOriginRoundTrip | parsing.py:160-166 | `class->step` parses back into its two parts. |
| Calls.FromMapping | parsing.py:174-180 | Distinct keys, every key is a name from the list, and there are no more keys than the shorter list. |
| Calls.ParseFromMapping | parsing.py:174-180 | The loop of updates yields `FromMapping` (the zipped pairs assigned in order). |
| Calls.FromMappingKeys | parsing.py:174-180 | The keys are exactly the names paired with a value, they are distinct, and there are no more of them than the shorter list. |
| Calls.FromMappingValue | parsing.py:177-178 | With distinct names, the i-th name holds the coerced i-th value. |
| Calls.IoValues | parsing.py:171-172 | Drops the first value exactly when the definition has a name. |
| Calls.ParseIo | parsing.py:168-184 | Every input key is an input name and every output key is an output name. |
| Calls.ParseIoSizes | parsing.py:168-184 | Inputs and outputs together have no more keys than there are values. Neither exceeds its name list, and both have distinct keys. |
| Calls.ParseIoInput | parsing.py:182-183 | The i-th input name gets the i-th value. |
| Calls.ParseIoOutput | parsing.py:182-184 | The j-th output name gets the value after all the input positions. |
| Calls.DecodeCall | parsing.py:145-158 | Has the resolved definition and a non-empty resource name. Epoch and duration are the fields' values, and relative time is epoch minus the file start. io sizes are bounded by the definition, and every output key is one of its output names. |
| Calls.BasicPairs | parsing.py:207-211 | The keys are `epoch_sec`, `relative_sec` and the metadata columns, in that order. |
| Calls.Flatten | parsing.py:205-220 | Every basic column is present, `test_step` included, and the keys are distinct. |
| Calls.Dictionary | parsing.py:205-220 | The three loops of updates yield `Flatten`. |
| Calls.FlattenBasicFirst | parsing.py:207-211 | The basic columns come first, in their fixed order. |
| Calls.FlattenBasic | parsing.py:210-211 | A basic column that no output overwrites holds the value the basic pairs give it. |
| Calls.ArgKeysNotBasic | parsing.py:213-214 | No `arg:` column is a basic column. |
| Calls.FlattenInput | parsing.py:213-214 | Every input is found under `arg:<name>` unless an output takes that column. |
| Calls.OutputKeyInjective | parsing.py:216-218 | Different non-empty output names never share a column. |
| Calls.FlattenOutput | parsing.py:216-218 | Every output is found under its column (the accessor, followed by the name unless it is `hw_out`). |
| Aggregator.KeyOfCallRow | post_process.py:29 | The group of a decoded call is the resource before the first `__` of its name with the triple written after it. |
| Aggregator.LastN | post_process.py:44 | `[-n:]`: the whole list when `n` is 0 or at least the length, otherwise the last `n` elements. |
| Aggregator.TrimAll | post_process.py:43-44 | Each key keeps its place, and its list becomes its last `n` records. |
| Aggregator.Trimmed | post_process.py:42-44 | Same keys in the same places. Every list is replaced by its trimmed form. |
| Aggregator.TrimmedList | post_process.py:42-44 | A suffix of the list. Never empty when the list is not. Unchanged without a bound, and at most `n` records with a bound `n >= 1`. |
| Aggregator.TrimmedGet | post_process.py:42-44 | A lookup after the trim finds the trimmed list. |
| Aggregator.TrimmedKeys | post_process.py:42-44 | The trim keeps the keys and their order. |
| Aggregator.TrimmedOk | post_process.py:42-44 | The trim keeps every group non-empty and consistently counted, and keeps the keys distinct. |
| Aggregator.NextCounter | post_process.py:34 | The counter is 0 exactly when the steps differ under Python `!=`. |
| Aggregator.Stamp | post_process.py:34-35 | The record gets the counter and keeps its step. |
| Aggregator.Extended | post_process.py:29-40 | The stored list is a prefix of the result, exactly one record is added, it carries the call's step, and the list stays consistently counted. |
| Aggregator.ExtendedCounter | post_process.py:34 | The added counter is 0 when nothing was stored or the step changed (Python `!=`), otherwise one more than the last record's. |
| Aggregator.AddedCall | post_process.py:27-44 | `add_call` keeps `_calls_dict` consistent: distinct keys, and non-empty lists whose counters follow the counter rule. |
| Aggregator.AddedCallKeys | post_process.py:29-40 | The keys are unchanged, or the call's new key is appended last. |
| Aggregator.AddedCallNewKey | post_process.py:37-40 | The first call of a key starts a one-record list with counter 0. |
| Aggregator.AddedCallExistingKey | post_process.py:30-36 | A later call is appended after its key's records with the counter rule applied, then trimmed. |
| Aggregator.AddedCallOthers | post_process.py:42-44 | Every other key's list changes only by the trim. |
| Aggregator.AddedCallNewestLast | post_process.py:36-44 | The new record ends its key's list, even after the trim. |
| Aggregator.AddedCallBounded | post_process.py:42-44 | With a bound `n >= 1`, every list holds between 1 and `n` records. |
| Aggregator.AddedCallCounter | post_process.py:29-40 | The newest record carries the call's step. Its counter is 0 for a new key or a changed step, otherwise one more than the previous record's. |
| Aggregator.StoreCall | post_process.py:29-40 | The store writes exactly `Extended` under the call's key. |
| Aggregator.TrimEach | post_process.py:42-44 | The loop over the keys yields `TrimAll`. |
| Aggregator.AddCallTo | post_process.py:27-44 | The store and the trim yield `AddedCall`. |
| Aggregator.StepRow | post_process.py:49-56 | A successful row keeps the state consistent. A definition row changes only the table, and a call row changes only the call groups. |
| Aggregator.StepDefinitionRow | post_process.py:50-52 | A readable definition row adds its definition to the table through `add_def` as written (`WithDef`). |
| Aggregator.StepRowKeepsUniqueUnlessFirst | post_process.py:49-56 | Every row keeps the table's first entry. It keeps one entry per triple unless it is a definition row that redeclares the first entry's triple. |
| Aggregator.StepRowRedefiningFirst | post_process.py:50-56 | A definition row that redeclares the first entry's triple grows the table by one. A later call with that triple still resolves to the old first entry. |
| Aggregator.StepCallRow | post_process.py:53-56 | A call row fails exactly when its name has no `__`, no definition matches, or a time field is not numeric. Otherwise only the call groups change, by `AddedCall`. |
| Aggregator.Run | post_process.py:46-56 | A completed load leaves a consistent state. |
| Aggregator.RunKeepsUniqueUnlessFirst | post_process.py:46-56 | A whole load from a non-empty table keeps its first entry. When no row redeclares that entry's triple, it also keeps one entry per triple. |
| Aggregator.StepRowCorrected | post_process.py:49-56 | The row step with the corrected addition succeeds exactly when the as-written step does, and is the same on call rows. |
| Aggregator.RunCorrected | post_process.py:46-56 | A completed load with the corrected addition leaves a consistent state. |
| Aggregator.StepRowCorrectedKeepsUnique | post_process.py:49-56 | With the corrected addition, every row keeps one table entry per triple. |
| Aggregator.RunCorrectedKeepsUnique | post_process.py:46-56 | With the corrected addition, a whole load keeps one table entry per triple. |
| Aggregator.RunAppend | post_process.py:49-56 | Loading `a + b` is loading `a`, then `b` from where `a` left off. |
| Aggregator.RunFailsAt | post_process.py:49-56 | A failing row stops the whole load. |
| Aggregator.RunFailsIff | post_process.py:49-56 | A load fails exactly when some row fails after every row before it succeeded. |
| Aggregator.NameOfAccessType | post_process.py:65-67 | Only plain functions go without the `_<type>` suffix. |
| Aggregator.StreamNameOfRecord | post_process.py:64-67 | A record whose naming columns hold texts is named `resource.accessor`, plus `_<type>` unless the type is `function`. |
| Aggregator.StreamNameOfCall | post_process.py:64-67 | A call's stream is named `resource.accessor[_type]`. The resource class is not part of the name. |
| Aggregator.StreamPairs | post_process.py:62-70 | Each list is paired with the name of its first record, in key order. |
| Aggregator.StreamsKeys | post_process.py:58-72 | The stream names are exactly the names of the lists, and there are no more streams than lists. |
| Aggregator.StreamsGet | post_process.py:62-70 | When the names differ, each list is found under its own name. |
| Aggregator.StreamsGetLast | post_process.py:62-70 | Under a shared name, the list of the last group with that name wins. |
| Aggregator.AddedCallNamed | post_process.py:27-44 | `add_call` of a record that holds text in its naming columns keeps every stored record nameable: the counter is not a naming column, the append adds only the new record, and the trim keeps a suffix. |
| Aggregator.DecodedCallNamed | parsing.py:205-220 | A call whose definition writes no output to `resource_name`, `accessor` or `access_type` flattens to a record that holds text in all three. |
| Aggregator.StepRowKeepsNamed | post_process.py:49-56 | Under that condition on its definition rows, a row keeps every table definition clear of the naming columns and every stored record nameable. |
| Aggregator.RunKeepsNamed | post_process.py:46-67 | After a completed load under that condition, every group's first record can be named, which is what `generate_data_frames` needs. |
| Aggregator.RawDataFile.constructor | post_process.py:19-23 | An empty table, no call groups, no streams, and the given retention bound. |
| Aggregator.RawDataFile.AddCall | post_process.py:27-44 | The call groups become `AddedCall` of the old groups and the call's record. The streams are untouched. |
| Aggregator.RawDataFile.ReadRow | post_process.py:49-56 | Succeeds exactly when `StepRow` does, and then the state is `StepRow`'s, with `add_def` as written. A failing row leaves the state unchanged. |
| Aggregator.RawDataFile.ReadDefinitionRow | post_process.py:50-52 | The same, for a definition row: the table becomes `WithDef` of the old one, and stays as it was when the row fails. |
| Aggregator.RawDataFile.ReadCallRow | post_process.py:53-56 | The same, for a call row; a failing row changes nothing. |
| Aggregator.RawDataFile.LoadRawDataFile | post_process.py:46-56 | Succeeds exactly when `Run` does, and then the state is `Run`'s. The properties proved of `Run` hold, the duplicate left by a redefined first entry included. On failure the state is what the rows before the first failing row left. |
| Aggregator.RawDataFile.GenerateDataFrames | post_process.py:58-72 | The streams become `Streams` of the call groups, and the groups are untouched. |
| Aggregator.OpenRawDataFile | post_process.py:19-25 | `__init__`: a new file loads the rows. It succeeds exactly when `Run` from the empty state does, and then the streams become `Streams` of the loaded groups. |
| Columns.UpdateColumnId | post_process.py:89-97 | The first `split('\|\|')` piece of the name, then `\|\|`, then the id. A name without `\|\|` keeps all of its text, and the result always ends in `\|\|<id>`. |
| Columns.UpdateColumnIdKeepsName | post_process.py:89-97 | A renamed column keeps its original name as its first piece. |
| Columns.UpdateColumnIdLastWins | post_process.py:89-97 | Renaming twice is renaming once with the last id, and renaming again with the same id changes nothing. |
| Columns.UpdateColumnIdTrailingBar | post_process.py:89-97 | The exception to the previous row: `x\|` becomes `x\|\|\|1` and then `x\|\|1`. |
| Columns.MappingPairs | post_process.py:100 | Exactly the unprotected columns are paired, each with its renamed form. |
| Columns.ColumnMapping | post_process.py:100 | Distinct keys, and no more entries than columns. |
| Columns.ColumnMappingGet | post_process.py:100 | The mapping holds exactly the columns present that are not `relative_sec`, `epoch_sec` or metadata, each with its renamed form. |
| Columns.RenamedColumns | post_process.py:99-101 | Renaming keeps the number of columns. |
| Columns.RenamedColumnsAt | post_process.py:99-101 | Each column is renamed in place unless protected. |
| Columns.WithoutMetadata | post_process.py:135 | Keeps exactly the columns that are not metadata columns, and never lengthens the list. |
| Columns.WriteableColumns | post_process.py:128-135 | All the columns, unchanged, with metadata. Otherwise never longer, and only columns of the frame. |
| Columns.WriteableColumnsMembers | post_process.py:128-135 | With metadata, every column is written. Otherwise exactly the non-metadata ones are written. The two time columns always are. |
| Columns.WithoutMetadataAppend | post_process.py:135 | The filter keeps order: filtering a concatenation concatenates the filtered parts. |
| Columns.WithoutMetadataIdempotent | post_process.py:135 | Filtering twice is filtering once. |

## Left out

- Reading the gzip'd CSV file is not modelled. `LoadRawDataFile` takes the rows already split into fields.
- pandas is not modelled: `DataFrame` construction, `rename`, `to_csv`, `combine_raw_data` and `write_csvs`. The model keeps a stream as its list of records and a frame's columns as a list of names.
- `plot_current.py` is not part of this model.
- `float(...)` is modelled by a decimal-literal recognizer with exact rational values. Exponents, `inf`, `nan`, underscores, surrounding whitespace and binary rounding are not modelled.
- A negative `max_stored_calls` is not modelled: the bound is a `nat`, or absent for `None`.
- `add_def` assigns `new_def.log_t0` on the caller's object. The model returns a stamped copy, so aliasing between the table and the caller is not captured.
- `calls.append(new_dict)` mutates the list object stored in the dict. The model stores a new list value under the key.
- `__init__` of `RawDataFile` runs three steps: construction, `load_raw_data_file`, `generate_data_frames`. The model exposes them as the constructor, `LoadRawDataFile` and `GenerateDataFrames`. `RawDataFile` holds its table as a field instead of inheriting from `HwCallDefLUT`.
- Exceptions are not distinguished: a short row, a non-numeric time, a call name without `__`, and a call with no definition all give `None` or `false`.
- `update_postpended_id` looks its stream up by name and renames the frame in place. The model takes the stream's column list and returns the renamed list (`Columns.RenamedColumns`).
- `__repr__`, the `streams` and `available_streams` properties, the `definition` property and `FillMethods` are not modelled, because they only expose state.
- `HwCallDef.access_types` is modelled by the `AccessType` datatype.
- Aggregator.RawDataFile.GenerateDataFrames: requires every group's first record to hold text in `resource_name`, `accessor` and `access_type`. An output column can overwrite one of these with a number, which the f-string would still format; that case is not modelled.
- Aggregator.RunKeepsNamed: proves that requirement only for loads whose definition rows write no output to those three columns (`RowKeepsNaming`).
- Aggregator.OpenRawDataFile: requires `RowKeepsNaming` of every row, for the same reason: the streams are only shown to be generated when no definition writes an output to a naming column.
- Columns.UpdateColumnIdLastWins: requires the name to contain `||` or not end in `|`. The one exception is shown by `Columns.UpdateColumnIdTrailingBar`.
- Definitions.ParseCallStringsRoundTrip: requires a triple its written form can represent: no `.` in the class or the accessor, and no plain function whose accessor ends in `_getter` or `_setter`.

## Findings

| source | as written | input that shows it | evidently intended | confidence | as-written member | corrected member |
|---|---|---|---|---|---|---|
| parsing.py:115-119 | `if existing_index:` is false for index 0 as well as for `None`, so a redefinition of the first table entry is appended instead of replacing it | a table whose first entry has triple T, then `add_def` of a new definition with triple T: the table holds T twice and `get_definition` keeps returning the old entry | replace the entry wherever it is found (`existing_index is not None`) | high; not executed | DefTable.WithDefDuplicatesFirst, Aggregator.StepRowRedefiningFirst | DefTable.WithDefCorrectedUpserts, Aggregator.RunCorrectedKeepsUnique |

The table and the row loop keep the code as written: `DefTable.WithDef`, `DefTable.HwCallDefLUT.AddDef`, `Aggregator.StepRow`, `Aggregator.Run` and the `RawDataFile` methods. The corrected addition is `DefTable.WithDefCorrected` and `DefTable.HwCallDefLUT.AddDefCorrected`, and the corrected loop is `Aggregator.StepRowCorrected` and `Aggregator.RunCorrected`.

# Video helper capability registry, in Dafny

This project models the video helper of xpra (`xpra/codecs/video_helper.py`).
The helper is the registry that tells the rest of the system which video
encoders, colorspace converters (csc modules) and video decoders are usable.
It also records which format pairs each of them supports.

- **Catalog.** A process-wide list of known codec names, found by probing
  which modules can be imported (`CODEC_TO_MODULE`, `try_import_modules`,
  the `ALL_*_OPTIONS` lists).
- **Selection.** `set_modules` turns user lists such as `["all", "-x265"]`
  into the module names to try. This is refused once the helper is initialized.
- **Population.** `init` loads every selected module once. It registers one
  entry per declared format pair in three two-level tables:
  - encoding → input colorspace → encoder specs;
  - input colorspace → output colorspace → csc specs;
  - encoding → input colorspace → (decoder name, decoder module).

  A module that is missing, or whose `get_spec` raises, does not stop the others.
  A raising `get_spec` ends that module's enumeration, and entries added before
  it stay. A decoder module without a usable `Decoder` is skipped pair by pair.
- **Life cycle.** `cleanup` empties everything, including the selections.
  `clone` returns an initialized helper with fresh copies of the tables.
- **Queries.** `get_info` builds a diagnostic report.
  `get_server_full_csc_modes` returns, per encoding, the sorted input
  colorspaces for which some decoder outputs a colorspace the client handles.
  The RGB variant widens the client's modes by one csc step.

How the model is built:

- **The class.** `Registry.VideoHelper` is a class with the helper's fields.
  Its methods carry `modifies` frames, and its loops are proved against
  specification functions.
  - `Population` says which entries each module contributes.
  - `Tables.AddAll` says what inserting them does.
  - `Negotiation` says what the colorspace queries mean.
  - `Info` says what the report contains.
- **The outside world.** Module loading is an oracle (`Codecs.Loader`).
  Import probing is a parameter `probe: string -> bool`.
- **Dictionary order.** Python dictionary iteration order is not modelled.
  Loops over dictionary items choose their next key arbitrarily, and every
  result is stated independently of that order.

Where the program's own words and its code differ, the model follows the code:

- **Unknown names.** `filt` keeps a name the catalog does not know
  (`Selection.UnknownNameKept`). Its warning at video_helper.py:147 says
  such names are being ignored.
- **Default encoders.** `get_DEFAULT_VIDEO_ENCODERS` says it returns all
  installed encoders, but its loop stops after the first one. It is modelled
  as written (`Catalog.DefaultVideoEncoders`), so at most one encoder is ever
  reported "disabled" (`Info.AtMostOneDisabled`).

Two life-cycle facts follow from the code:

- `cleanup` also empties the three selections. A later `init` without a new
  `set_modules` therefore registers nothing (`Scenarios.CleanupThenInit`).
- `cleanup`, `set_modules` and `init` together rebuild the tables a new
  helper would get from the same selections
  (`Scenarios.CleanupSetModulesInit`).

## Model

| member | source | states |
|---|---|---|
| Strings.Find | xpra/codecs/video_helper.py:69 | `str.find`: -1 exactly when `sub` occurs nowhere, otherwise an index where it occurs with no earlier occurrence |
| Strings.SortedKeys | xpra/codecs/video_helper.py:397 | `sorted(d.items())` keys: strictly ascending and exactly the key set |
| Strings.AscendingUnique | xpra/codecs/video_helper.py:397 | two ascending lists with the same elements are equal, so the sorted order is unique |
| Strings.FilterAscending | xpra/codecs/video_helper.py:397-406 | keeping some colorspaces of the sorted order leaves them sorted |
| Tables.Inner | xpra/codecs/video_helper.py:249-256 | `.get(k, {})`: the inner mapping of a present key with the same lists, an empty mapping otherwise |
| Tables.Add | xpra/codecs/video_helper.py:300-301 | `setdefault(k1, {}).setdefault(k2, []).append(v)`: the pair's list gains `v` at its end; every other pair's list is unchanged |
| Tables.AddKeys | xpra/codecs/video_helper.py:300-301 | after an insert, the outer key and the inner key are both present |
| Tables.InnerEmptyIffAbsent | xpra/codecs/video_helper.py:249-256 | on a table built by inserts, a lookup is empty exactly for an absent key |
| Tables.AddNoEmpty | xpra/codecs/video_helper.py:300-301 | inserts never create an empty inner mapping or an empty list |
| Tables.AddAllLookup | xpra/codecs/video_helper.py:300-301 | inserting a list of entries appends, under each pair, exactly that pair's values in order |
| Tables.AddAllKeys | xpra/codecs/video_helper.py:239-246 | inserting entries adds exactly their outer keys |
| Tables.AddAllNoEmpty | xpra/codecs/video_helper.py:300-301 | a table built by inserts keeps having no empty part |
| Tables.AddAllConcat | xpra/codecs/video_helper.py:259-279 | inserting `a` then `b` is inserting `a + b` |
| Tables.AddAllSnoc | xpra/codecs/video_helper.py:300-301 | one more entry is one more insert |
| Tables.OuterKeysOccupied | xpra/codecs/video_helper.py:239-246 | on a table built by inserts, a key is listed exactly when some pair under it holds a value |
| Tables.NoEmptyExtensional | xpra/codecs/video_helper.py:177-192 | tables without empty parts that agree on every lookup are equal, so a clone of a populated table equals it |
| Tables.AppendEach | xpra/codecs/video_helper.py:186-187 | the innermost clone loop appends the list's values in order under one pair, and nothing else changes |
| Tables.CopyRow | xpra/codecs/video_helper.py:185-187 | the middle clone loop appends every list of one inner mapping under its outer key |
| Tables.DeepishClone | xpra/codecs/video_helper.py:182-188 | `deepish_clone_dict`: a new table with the same value lists, in the same order, for every pair |
| ModuleNames.EncoderModuleName | xpra/codecs/video_helper.py:68-71 | the result always contains "enc"; it is the name itself exactly when that already contains "enc", else "enc_" + name |
| ModuleNames.DecoderModuleName | xpra/codecs/video_helper.py:73-74 | "dec_" followed by the name |
| ModuleNames.CscModuleName | xpra/codecs/video_helper.py:76-77 | "csc_" followed by the name |
| ModuleNames.EncoderModuleNameIdempotent | xpra/codecs/video_helper.py:68-71 | mapping an encoder module name again gives the same name |
| ModuleNames.ModuleNamesDistinct | xpra/codecs/video_helper.py:73-77 | decoder and csc module names are injective and never collide |
| Catalog.TryImportModules | xpra/codecs/video_helper.py:41-47 | succeeds exactly when every name is in CODEC_TO_MODULE, giving the importable names in order; otherwise fails on the first unknown name (KeyError) |
| Catalog.ProbeCatalog | xpra/codecs/video_helper.py:51-55 | each catalog list is the importable names of its fixed list, in that order |
| Catalog.CatalogNamesKnown | xpra/codecs/video_helper.py:19-29 | every name of the fixed encoder, csc and decoder lists has a CODEC_TO_MODULE entry, so building the catalog never raises |
| Catalog.FirstLoadedAt | xpra/codecs/video_helper.py:84-89 | the loaded encoder the loop stops at is the only first loaded encoder |
| Catalog.DefaultVideoEncoders | xpra/codecs/video_helper.py:81-90 | at most one name: the first catalog encoder whose module is loaded, or none when no module is loaded |
| Catalog.DefaultCscModules | xpra/codecs/video_helper.py:92-100 | every catalog csc module that is loaded, in catalog order |
| Catalog.DefaultVideoDecoders | xpra/codecs/video_helper.py:102-110 | every catalog decoder that is loaded, in catalog order |
| Selection.Exclusions | xpra/codecs/video_helper.py:140 | `x` is excluded exactly when "-x" is in the list |
| Selection.Inclusions | xpra/codecs/video_helper.py:141 | exactly the non-empty entries not starting with "-" |
| Selection.Filt | xpra/codecs/video_helper.py:139-148 | a name is selected exactly when not excluded and, with "all", in the catalog, otherwise among the inclusions; no longer than that source |
| Selection.Unknown | xpra/codecs/video_helper.py:142-147 | the reported names: without "all", the non-empty included or excluded names absent from the catalog; with "all", none |
| Selection.ExclusionsAppend | xpra/codecs/video_helper.py:140 | exclusions of a concatenation are the concatenated exclusions |
| Selection.AllSelectsCatalog | xpra/codecs/video_helper.py:142-143 | `["all"]` selects the catalog list itself |
| Selection.AllButOne | xpra/codecs/video_helper.py:139-148 | `["all", "-x"]` selects the catalog list without `x`, in order |
| Selection.EmptyEntryIgnored | xpra/codecs/video_helper.py:140-141 | an empty entry anywhere changes nothing |
| Selection.EmptyEntryNeutral | xpra/codecs/video_helper.py:140-141 | an empty entry adds no exclusion and no inclusion |
| Selection.UnknownNameKept | xpra/codecs/video_helper.py:144-148 | an unknown, included, not excluded name is selected and also reported |
| Population.ModuleEntriesDeclared | xpra/codecs/video_helper.py:289-297 | a spec module registers only pairs it declares, each with the spec it returns |
| Population.ModuleEntriesComplete | xpra/codecs/video_helper.py:289-297 | when no `get_spec` fails, the module finishes and every declared pair is registered |
| Population.IncompleteHasFailure | xpra/codecs/video_helper.py:292-297 | a module that did not finish has a declared pair whose `get_spec` fails |
| Population.InnerConcat | xpra/codecs/video_helper.py:295-297 | a row split in two is the first part continued by the second |
| Population.InnerPrefixStep | xpra/codecs/video_helper.py:295-297 | a successful `get_spec` extends the row's entries by one |
| Population.InnerPrefixStop | xpra/codecs/video_helper.py:295-297 | a failing `get_spec` ends the module with the row's entries so far |
| Population.OuterConcat | xpra/codecs/video_helper.py:292-297 | first keys split in two: the first part continued by the second |
| Population.OuterPrefixStep | xpra/codecs/video_helper.py:292-297 | a finished row extends the module's entries; an unfinished one ends the module |
| Population.NoDecoderNoEntries | xpra/codecs/video_helper.py:369-377 | a decoder module without a usable `Decoder` registers nothing |
| Population.DecoderEntriesExact | xpra/codecs/video_helper.py:364-377 | a usable decoder module registers itself, under its name, for exactly its declared pairs |
| Population.DecoderInnerConcat | xpra/codecs/video_helper.py:369-377 | decoder entries of concatenated colorspace lists concatenate |
| Population.DecoderOuterConcat | xpra/codecs/video_helper.py:366-377 | decoder entries of concatenated encoding lists concatenate |
| Population.DecoderInnerPrefixStep | xpra/codecs/video_helper.py:369-377 | one more colorspace adds one entry when the `Decoder` is usable, none otherwise |
| Population.DecoderOuterPrefixStep | xpra/codecs/video_helper.py:366-377 | one more encoding adds that encoding's entries |
| Population.EncoderEntriesAppend | xpra/codecs/video_helper.py:262-277 | modules are handled independently: the entries for concatenated selections concatenate |
| Population.CscEntriesAppend | xpra/codecs/video_helper.py:307-313 | the same for csc modules |
| Population.DecoderEntriesAppend | xpra/codecs/video_helper.py:344-350 | the same for decoders |
| Population.EncoderEntriesPrefixStep | xpra/codecs/video_helper.py:262-277 | one more selected encoder adds what its module contributes |
| Population.CscEntriesPrefixStep | xpra/codecs/video_helper.py:307-313 | one more selected csc module adds what it contributes |
| Population.DecoderEntriesPrefixStep | xpra/codecs/video_helper.py:344-350 | one more selected decoder adds what it contributes |
| Population.MissingEncoderSkipped | xpra/codecs/video_helper.py:282-288 | an encoder whose module cannot be loaded contributes nothing |
| Negotiation.RepresentsUnique | xpra/codecs/video_helper.py:387-408 | the query's contract determines its result |
| Negotiation.RgbModes | xpra/codecs/video_helper.py:417-423 | the widened modes always include the targets |
| Negotiation.ModesMonotone | xpra/codecs/video_helper.py:387-408 | accepting more client modes never removes an encoding or a colorspace |
| Negotiation.RgbWidens | xpra/codecs/video_helper.py:411-424 | the RGB variant answers at least what the plain query answers for the targets |
| Negotiation.RecordIfDecodable | xpra/codecs/video_helper.py:398-406 | the colorspace is recorded once for the encoding exactly when some decoder of the pair outputs a client mode |
| Negotiation.PrefixNotRecorded | xpra/codecs/video_helper.py:397-405 | a sorted colorspace is never already recorded when the loop reaches it, so the `not in` guard never skips one |
| Negotiation.PrefixAdvance | xpra/codecs/video_helper.py:397-406 | after each colorspace, the encoding's list is the viable colorspaces seen so far, in sorted order |
| Negotiation.RecordStep | xpra/codecs/video_helper.py:404-406 | recording a colorspace extends the encoding's list, creating it on first use |
| Negotiation.RecordEncoding | xpra/codecs/video_helper.py:397-406 | an encoding appears exactly when it has a viable colorspace; its list is ascending and holds exactly the viable ones; others unchanged |
| Negotiation.SortedViable | xpra/codecs/video_helper.py:397-406 | the viable colorspaces in sorted order are ascending and exactly the viable set |
| Negotiation.FeedsAny | xpra/codecs/video_helper.py:419-422 | true exactly when some output colorspace is a target with a non-empty spec list |
| Info.ModStatus | xpra/codecs/video_helper.py:211-217 | active exactly when selected; disabled exactly when not selected but a default; otherwise not found |
| Info.AtMostOneDisabled | xpra/codecs/video_helper.py:81-90 | with at most one default, at most one module is reported disabled |
| Info.SummaryUnique | xpra/codecs/video_helper.py:199-210 | a report section is determined by its table |
| Info.SummaryFollowsLookups | xpra/codecs/video_helper.py:199-210 | sections that skip empty lists depend only on the lists, so a registry and its clone report the same |
| Info.KeepEmptyIrrelevant | xpra/codecs/video_helper.py:203-205 | on a table built by inserts, the csc section's keeping of empty lists makes no difference |
| Info.AppendNames | xpra/codecs/video_helper.py:201-202 | appending one name per value gives the list of names under the key, or no key for an empty list |
| Info.SummarizeRow | xpra/codecs/video_helper.py:200-202 | one outer key adds exactly its present pairs with their names; earlier keys unchanged |
| Info.Summarize | xpra/codecs/video_helper.py:199-210 | one key per present pair (transposed for the encoding section), mapped to its names in order |
| Registry.EncoderStatuses | xpra/codecs/video_helper.py:218-220 | every catalog encoder has a status: active when selected, disabled when the first loaded encoder but unselected |
| Registry.CscStatuses | xpra/codecs/video_helper.py:221-223 | every catalog csc module has a status: active when selected, disabled when loaded but unselected |
| Registry.VideoHelper.constructor | xpra/codecs/video_helper.py:121-134 | the given tables, nothing selected, the given initialized flag |
| Registry.VideoHelper.SetModules | xpra/codecs/video_helper.py:136-154 | refused once initialized with nothing changed; otherwise each selection is its filtered list |
| Registry.VideoHelper.GetEncodings | xpra/codecs/video_helper.py:239-240 | on a populated table, exactly the encodings with at least one spec |
| Registry.VideoHelper.GetDecodings | xpra/codecs/video_helper.py:242-243 | on a populated table, exactly the encodings with at least one decoder |
| Registry.VideoHelper.GetCscInputs | xpra/codecs/video_helper.py:245-246 | on a populated table, exactly the input colorspaces with at least one csc spec |
| Registry.VideoHelper.GetEncoderSpecs | xpra/codecs/video_helper.py:249-250 | the encoding's colorspaces with their spec lists; empty for an unknown encoding |
| Registry.VideoHelper.GetCscSpecs | xpra/codecs/video_helper.py:252-253 | the source format's outputs with their spec lists; empty for an unknown one |
| Registry.VideoHelper.GetDecoderSpecs | xpra/codecs/video_helper.py:255-256 | the encoding's colorspaces with their decoders; empty for an unknown encoding |
| Registry.VideoHelper.AddEncoderSpec | xpra/codecs/video_helper.py:300-301 | the encoder table is the old one with the spec inserted |
| Registry.VideoHelper.AddCscSpec | xpra/codecs/video_helper.py:337-338 | the csc table is the old one with the spec inserted |
| Registry.VideoHelper.AddDecoder | xpra/codecs/video_helper.py:379-384 | the decoder table is the old one with the (name, module) pair inserted |
| Registry.VideoHelper.AddEncodingSpecs | xpra/codecs/video_helper.py:293-297 | one encoding's row of entries is inserted; false exactly when a `get_spec` failed |
| Registry.VideoHelper.InitVideoEncoderOption | xpra/codecs/video_helper.py:281-298 | the module's entries are inserted; false exactly when the module was stopped by a failing `get_spec` |
| Registry.VideoHelper.InitVideoEncodersOptions | xpra/codecs/video_helper.py:259-279 | the entries of every selected encoder are inserted, module after module |
| Registry.VideoHelper.AddCscRowSpecs | xpra/codecs/video_helper.py:331-335 | one input colorspace's row of entries is inserted; false exactly when a `get_spec` failed |
| Registry.VideoHelper.InitCscOption | xpra/codecs/video_helper.py:321-335 | the csc module's entries are inserted; false exactly when it was stopped by a failing `get_spec` |
| Registry.VideoHelper.InitCscOptions | xpra/codecs/video_helper.py:304-319 | the entries of every selected csc module are inserted |
| Registry.VideoHelper.AddDecoderRow | xpra/codecs/video_helper.py:367-377 | one encoding's decoder entries are inserted |
| Registry.VideoHelper.InitVideoDecoderOption | xpra/codecs/video_helper.py:355-377 | the decoder module's entries are inserted |
| Registry.VideoHelper.InitVideoDecodersOptions | xpra/codecs/video_helper.py:341-353 | the entries of every selected decoder are inserted |
| Registry.VideoHelper.Init | xpra/codecs/video_helper.py:226-237 | the first call inserts the entries of every selected module into the three tables; later calls change nothing |
| Registry.VideoHelper.Cleanup | xpra/codecs/video_helper.py:156-175 | a no-op when not initialized; otherwise empties tables, selections and teardown list, and uninitializes |
| Registry.VideoHelper.Clone | xpra/codecs/video_helper.py:177-192 | initializes this helper if needed; returns a fresh initialized helper with nothing selected and copies of the tables that agree on every lookup |
| Registry.VideoHelper.GetInfo | xpra/codecs/video_helper.py:194-224 | each section summarizes its table; every catalog encoder and csc module has its status |
| Registry.VideoHelper.GetServerFullCscModes | xpra/codecs/video_helper.py:387-408 | per encoding, the sorted colorspaces some decoder of which outputs a client mode; encodings with none left out |
| Registry.VideoHelper.GetServerFullCscModesForRgb | xpra/codecs/video_helper.py:411-424 | the plain query asked for the targets plus every csc source with a spec into a target |
| Scenarios.ResolveByColorspaceExample | xpra/codecs/video_helper.py:387-408 | one ("V1", "YUV420P") decoder that outputs RGB: offered for {"RGB"}, nothing for {"RGB2"} |
| Scenarios.ResolveByColorspaceAnswer | xpra/codecs/video_helper.py:387-408 | and the answer is exactly {"V1": ["YUV420P"]} |
| Scenarios.ResolveByRgbExample | xpra/codecs/video_helper.py:411-424 | a YUV444P decoder missed by the RGB query is found through a YUV444P→RGB conversion |
| Scenarios.CloneIsIndependent | xpra/codecs/video_helper.py:177-192 | after cloning, a spec registered in the clone and another registered in the source each reach only the helper they were registered in. This holds by value semantics (see Left out) |
| Scenarios.CleanupThenInit | xpra/codecs/video_helper.py:156-175 | after cleanup, init without new selections registers nothing |
| Scenarios.CleanupSetModulesInit | xpra/codecs/video_helper.py:136-175 | after cleanup, new selections and init, each table equals a new helper's after the same selections and init: the entries of the selected modules |
| Scenarios.InitTwice | xpra/codecs/video_helper.py:226-237 | two init calls populate each of the three tables once: the second call changes nothing |

The contracts above are stated against these specification functions:

- `Population.InnerAttempt` and `Population.OuterAttempt` give what one spec
  module registers. A failing `get_spec` stops the module, and the entries
  added before it stay.
- `Population.EncoderEntries`, `Population.CscEntries` and
  `Population.DecoderEntries` give the entries of every selected module, in
  selection order. `Init` is proved to insert exactly these, through
  `Tables.AddAll`.
- `Negotiation.FullCscModeSets` gives, per encoding, the set of input
  colorspaces some decoder turns into an accepted mode.
  `GetServerFullCscModes` is proved to represent it as ascending lists.
- `Info.Summarizes` says what one report section of `GetInfo` contains.
- `Strings.Less` is Python's `<` on `str`: code-point lexicographic order,
  with a proper prefix smaller. `Strings.Ascending` is strict order under it.

## Left out

- `xpra/sound/sound_pipeline.py` is not part of this model: it is a separate component.
- Import probing (`has_codec_module`, `__import__`) and the codec loader (`load_codec`, `get_codec`, `get_codec_error`) are external. They are parameters: `probe` and `Codecs.Loader`. A module that fails to load and one that `get_codec` does not return are both None.
- Module failures other than a raising `get_spec` or an unusable `Decoder` are not modelled. This covers `get_encodings` or `get_input_colorspaces` raising, and any other exception inside the try blocks.
- `get_type()`, and `get_output_colorspace` during decoder registration, are only logged; they are not modelled. Logging and the "ignoring unknown" warning are not modelled either; `Selection.Unknown` gives the names the warning would list.
- The lock and threads are not modelled: `init` and `cleanup` are single atomic methods.
- Registry.VideoHelper.Cleanup: the `cleanup_module()` teardown calls and their errors are not modelled. Nothing in this file ever adds to the teardown list, which is only reset.
- The catalog is a constructor parameter (`catalog`) instead of module globals.
- `HARDWARE_ENCODER_OPTIONS`, `NO_GFX_CSC_OPTIONS` and the `PREFERRED_*_ORDER` tuples are not modelled: no modelled operation reads them.
- The `getVideoHelper` singleton and `main` are process plumbing and are not modelled.
- Python dictionary insertion order is not modelled. Results are stated as maps and sets; where the code sorts, the lists are proved ascending.
- Registry.VideoHelper.GetInfo: the report's "%s_to_%s" string keys are modelled as pairs. Distinct pairs that render to the same string are therefore not merged. The status maps are separate fields instead of entries inside the encoding section.
- Registry.VideoHelper.GetServerFullCscModesForRgb: the `sorted()` of the widened mode list is left out. The plain query only tests membership in that list.
- Registry.VideoHelper.GetEncoderSpecs: the lookups return values. The code returns the live inner dictionary, and mutating it through a caller is not modelled. The same holds for GetCscSpecs and GetDecoderSpecs.
- Registry.VideoHelper.Clone: the copies hold the same spec and decoder values. Sharing those leaf objects by reference is not modelled. Tables are map values, so the new containers that `deepish_clone_dict` builds are not observable either. A clone that shared the source's dictionaries would meet the same contract.
- Scenarios.CloneIsIndependent: the independence it states holds by value semantics for any copy. It does not tell the deep-ish copy apart from a copy that shares the containers. Dictionary identity is not modelled: the constructor storing the caller's dictionaries (lines 122-124) and clone's fresh containers are both invisible.
- Catalog.DefaultVideoEncoders, and through it Registry.VideoHelper.GetInfo, assumes every catalog module has already been loaded. The `get_DEFAULT_*` functions call `get_codec` alone (lines 86, 97, 107), which answers from modules loaded earlier. `load_codecs()` at line 445 arranges this only when `main` runs. One oracle answers for `load_codec` followed by `get_codec` and for `get_codec` alone, so the "disabled" and "not found" status of an unselected module can differ from the program's when it was never loaded. The same holds for Catalog.DefaultCscModules and Catalog.DefaultVideoDecoders.
- Population.NoDecoderNoEntries: under `python -O` the `assert decoder_module.Decoder` at line 373 is removed, so every pair is added even without a `Decoder`. The model follows a run with assertions enabled.
- Registry.VideoHelper.SetModules: the failed `assert` (an AssertionError, or nothing under `python -O`) is modelled as a false result with nothing changed. Under `python -O` the program instead goes on and replaces the three selections after `init` (line 138, then lines 149-151). The model follows a run with assertions enabled.

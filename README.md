# dysweep sweep-configuration utilities, in Dafny

This project models `dysweep/utils.py`. That module turns a nested
experiment configuration into the flat sweep a hyper-parameter dashboard
understands, and merges a selected point of the sweep back into a base
configuration. It covers these pieces:

- **The path codec.** Flat keys are root-to-node paths joined with
  `__CUSTOM_SEPERATOR__`. List positions travel as `__IDX__<n>` segments
  (module `PathCodec`).
- **The flattener.** `flatten_sweep_config` emits each dict tagged `"sweep"`
  under the flat key of its path, with the tag stripped. Everything else is
  kept as the remainder tree (module `Flattener`).
- **The inverse walk.** `unflatten_sweep_config` places each flat value back
  at its path (module `Unflatten`). `add_where_needed` fills the remainder
  back in without overwriting anything (module `Reintegrate`). Together with
  flattening they round-trip (module `RoundTrip`).
- **The compressor.**
  - `compress_parameter_config` names each flat key by a declared
    `sweep_identifier`. Otherwise it uses the dotted suffix of its path that
    starts at the last segment no earlier key has claimed.
  - It records `sweep_alias` display aliases for values.
  - `decompress_parameter_config` undoes both renamings (modules
    `Compression`, `CompressionFacts`, `Inversion`, `CompressionTheorems`).
- **The module-level state.** `compression_mapping`,
  `value_compression_mapping` and `remaining_bunch` become the fields of the
  class `Session.Sweeper`. Its methods follow the source loops step by step.
  `standardize_sweep_config` and `destandardize_sweep_config` are composed on
  top (modules `Session`, `Pipeline`).
- **The merge engine.** `upsert_config`:
  - replaces scalars;
  - merges into dicts key by key;
  - reads dicts of `__IDX__n` keys as lists;
  - edits lists by position or by `sweep_list_operations`;
  - applies `sweep_group*` overlays in sorted key order and the `upsert`
    list last;
  - at the top, refuses a result holding a reserved key
    (`sanity_check_special_keys`).

  The process-wide flag `EXCEPTION_OCCURED` decides whether an exception is
  tagged with its configuration path. Modules `MergeBasics`, `Merge` and
  `MergeFacts` define and state the merge as functions. The class
  `Merger.Merger` runs it as the source does: a flag field and loops that
  edit the target step by step. Each of its methods is proved to compute
  what the `Merge` functions define.

Configuration trees (`Trees.Tree`) are JSON/YAML-like values. Dicts are
ordered association lists, because insertion order decides:

- the order of flat keys;
- which path segment a key claims;
- where a new key lands in a merged dict.

Every Python exception becomes a `Fail` value whose kind says what was
raised.

Some behaviours of the code are easy to miss, and the model keeps them:

- **The annotation flag is set once and never cleared.** The flag at
  `dysweep/utils.py:24` is set by the first handler that tags an exception
  (lines 392-394). Nothing clears it, so every later exception in the process
  reaches the caller untagged (`Merger.Merger.Upsert`).
- **Colliding compressed names overwrite silently.** When two flat keys get
  the same name, `ret[compression_mapping[key]] = val` at
  `dysweep/utils.py:87` keeps only the later value
  (`CompressionTheorems.CompressDecompress` needs the names distinct).
- **An empty dict is a list pretender.** The loop at lines 328-331 finds no
  key that is not a position, so merging into `{}` treats it as an empty
  list (`MergeFacts.EmptyDictIsList`, `MergeFacts.EmptyDictRefusesKey`).
- **Two branches always raise.** The computed-value branches at lines
  279-286 and 306-313 write the result through `args[key]`. In the first,
  `key` is a string used as a list index. In the second, `key` is not bound.
  Both raise, and the model raises there (`MergeFacts.ComputedEntryRaises`).
- **An insert with an index alone leaks a reserved key.** It inserts the
  overlay itself, and line 273 has put `sweep_list_operations` back into it.
  The top-level check at lines 384-389 then raises
  (`MergeFacts.IndexOnlyInsertLeaks`).

## Model

| member | source | states |
|---|---|---|
| PathCodec.IndexSegment | dysweep/utils.py:140-141 | The segment of list position `i` starts with `__IDX__`, and the rest reads back as `i`. |
| PathCodec.NatToString | dysweep/utils.py:141 | `str(n)` of a non-negative integer is a nonempty run of decimal digits. |
| PathCodec.Split | dysweep/utils.py:109 | `key.split(SEPARATOR)` always yields at least one piece. |
| PathCodec.ParseIntToString | dysweep/utils.py:276 | `int(str(i)) == i` for every integer, negative ones included. |
| PathCodec.ParseNonNegative | dysweep/utils.py:335 | The decimal digits of `n` read back as `n`. |
| PathCodec.ParseNegative | dysweep/utils.py:276 | A minus sign before the digits of `n` reads back as `-n`. |
| PathCodec.FindFrom | dysweep/utils.py:109 | The first occurrence of the separator at or after a position, and none between that position and it. |
| PathCodec.JoinSplit | dysweep/utils.py:109 | Joining the pieces of any string split on the separator gives the string back. |
| PathCodec.SplitJoin | dysweep/utils.py:171 | Splitting the flat key of a path of clean segments gives the path back. |
| PathCodec.SplitAfterClean | dysweep/utils.py:109 | Splitting stops right after a clean first segment: the first piece is that segment, the rest is the split of the remainder. |
| PathCodec.FirstSegment | dysweep/utils.py:148-149 | The first piece of a joined key is the first segment of its path. |
| PathCodec.JoinCons | dysweep/utils.py:171 | Joining a path with one more segment in front puts that segment and the separator before the joined rest. |
| PathCodec.IndexSegmentClean | dysweep/utils.py:140-141 | The segment of a list position holds no separator, so splitting a flat key never cuts it. |
| Flattener.FlattenTreeSpec | dysweep/utils.py:129-177 | For a tree of dicts, flattening gives exactly the following, and the flat keys are distinct:<br>• one entry per sweep unit, in visiting order, under the joined path, with the `"sweep"` tag stripped;<br>• a flag that is set exactly when there is a unit;<br>• the remainder tree. |
| Flattener.FlattenDictSpec | dysweep/utils.py:160-174 | The loop over a dict's items, started from the entries of the keys already visited, ends with the entries and remainder of the whole dict. |
| Flattener.FlattenDictStep | dysweep/utils.py:160-174 | One turn of the loop moves from the entries and remainder of the first `i` keys to those of the first `i + 1`. |
| Flattener.StepUnit | dysweep/utils.py:162-164 | A tagged child adds one flat entry, its payload, under its own key; the remainder does not change. |
| Flattener.StepChild | dysweep/utils.py:166-172 | An untagged dict child adds its own flat entries under `key` and the separator, keys stay distinct, and its remainder goes under `key`. |
| Flattener.StepScalar | dysweep/utils.py:173-174 | A scalar child goes into the remainder verbatim under its key and adds no flat entry. |
| Flattener.PrefixedAppend | dysweep/utils.py:170-171 | Copying a child's flat entries under fresh prefixed keys appends them, in order, after the existing entries. |
| Flattener.PrefixedUnique | dysweep/utils.py:170-171 | That copy keeps the flat keys distinct. |
| Flattener.ParamsBefore | dysweep/utils.py:171 | Every flat key emitted before position `i` starts with an earlier key, never with the key at `i`. |
| Flattener.UnitPathsWell | dysweep/utils.py:148-149 | Unit paths are nonempty, made of segments the separator cannot cut, and start with a key of the tree. |
| Flattener.ContributionWell | dysweep/utils.py:170-171 | The units under one key have well-formed paths that start with that key. |
| Flattener.RemToKeys | dysweep/utils.py:172-174 | The keys of a partial remainder are keys already visited. |
| Flattener.FlattenTree | dysweep/utils.py:129-177 | `flatten_tree` raises only the type error of popping `"sweep"` from a tagged list. A success leaves a remainder of the tree's own kind: a dict for a dict, a list for a list. A scalar is its own remainder, and nothing is found in it. |
| Flattener.FlattenDict | dysweep/utils.py:160-174 | The loop over a dict's items raises only that type error. It ends with a dict remainder that keeps every key already in it. Once something is found, the flag stays set. |
| Flattener.FlattenList | dysweep/utils.py:134-152 | The loop over a list's items raises only that type error. Its remainder is a list at least as long as the items kept so far, and it gains at most one item per element still to visit. Once something is found, the flag stays set. |
| Flattener.FlattenSweepConfig | dysweep/utils.py:179-183 | `flatten_sweep_config` raises only that type error. A success returns a remainder of the configuration's own kind. |
| Flattener.FlattenListSpec | dysweep/utils.py:134-152 | For a list whose elements are scalars, sweep units or trees of dicts, flattening gives exactly the following, and the flat keys are distinct:<br>• a unit at position `i`: one entry under `__IDX__<i>`, its payload without the tag;<br>• a dict at position `i`: its own entries under `__IDX__<i>` and the separator;<br>• a flag set exactly when there is a unit;<br>• a remainder list of the scalars and of the dicts' remainders, in order. A unit leaves no placeholder in it. |
| Flattener.FlattenListStep | dysweep/utils.py:136-152 | One turn of the list loop moves from the entries and remainder of the first `i` elements to those of the first `i + 1`, and keeps the flat keys distinct. |
| Flattener.StepListUnit | dysweep/utils.py:138-142 | A unit element adds one flat entry under its position's segment, and nothing to the remainder. |
| Flattener.StepListChild | dysweep/utils.py:144-150 | A dict element adds its own flat entries under its position's segment and the separator, keys stay distinct, and its remainder is appended. |
| Flattener.ListParamsBefore | dysweep/utils.py:140-149 | Every flat key emitted before position `i` starts with the segment of an earlier position, never with that of `i`. |
| RoundTrip.RemLookup | dysweep/utils.py:172-174 | Each key of the remainder holds what stays of the same key of the tree: scalars verbatim, dict children as their remainders, and units dropped. |
| RoundTrip.RemShape | dysweep/utils.py:153-177 | The remainder holds nothing on or below a unit's path, and exactly the tree everywhere else. |
| RoundTrip.StripShape | dysweep/utils.py:123-126 | The stripped tree holds the tag-less payloads below unit paths, and the tree itself elsewhere. |
| RoundTrip.RemDistinct | dysweep/utils.py:153-174 | The remainder of a tree of dicts has distinct keys throughout. |
| RoundTrip.UnitsShape | dysweep/utils.py:106-116 | Below the root, the unflattened units hold the payload under a unit path, a dict strictly above one, and nothing elsewhere. |
| RoundTrip.UnitsPrefixFree | dysweep/utils.py:160-172 | No unit path is a prefix of another. |
| RoundTrip.RoundTrip | dysweep/utils.py:106-183 | For a tree of dicts, these three steps all succeed and give back the tree with every `"sweep"` tag removed:<br>• flattening;<br>• unflattening the flat entries;<br>• adding the remainder back with `add_where_needed`. |
| RoundTrip.RoundTripAt | dysweep/utils.py:438-441 | Position by position:<br>• where both the unflattened units and the remainder hold something, both hold dicts;<br>• filling one from the other gives the stripped tree. |
| Unflatten.Insert | dysweep/utils.py:109-115 | Placing one value at a path leaves a dict at the root. |
| Unflatten.Unflatten | dysweep/utils.py:106-116 | The loop with its `cur` cursor computes `Unflattened`. |
| Unflatten.Unflattened | dysweep/utils.py:106-116 | Unflattening raises only the type error of a path that runs through a value that is not a dict. A success is a dict. |
| Unflatten.InsertOk | dysweep/utils.py:111-115 | Placing a value succeeds exactly when no non-dict value lies strictly above the end of the path. |
| Unflatten.InsertShape | dysweep/utils.py:109-115 | After placing `v` at `path`, all other positions are as before:<br>• `v` lies at `path` and below it;<br>• dicts lie strictly above it. |
| Unflatten.InsertShapeLast | dysweep/utils.py:115 | The same, for a one-segment path set directly. |
| Unflatten.InsertShapeAside | dysweep/utils.py:111-115 | Positions that leave the path at its first segment are untouched. |
| Unflatten.FailureStays | dysweep/utils.py:108-115 | Once an entry raises, the whole unflattening raises with that error. |
| Unflatten.UnflattenedShape | dysweep/utils.py:106-116 | For entries whose paths survive the separator and never extend an earlier path:<br>• unflattening succeeds;<br>• each position holds what the last placement reaching it put there. |
| Unflatten.OverAppend | dysweep/utils.py:108 | Placing one list of entries and then another is placing their concatenation. |
| Unflatten.OverMissed | dysweep/utils.py:111-115 | Placements that neither reach a position nor lie below it leave it alone. |
| Reintegrate.AddWhereNeeded | dysweep/utils.py:419-446 | The method computes `Reintegrated`. |
| Reintegrate.AddToList | dysweep/utils.py:424-430 | The loop over a list to add computes `ReintegrateList`. |
| Reintegrate.AddToDict | dysweep/utils.py:436-441 | The loop over a dict to add computes `ReintegrateDict`. |
| Reintegrate.Reintegrated | dysweep/utils.py:419-446 | `add_where_needed` raises only shape errors, untagged. A success keeps the base's kind, and a list keeps its length. What each list position ends with is stated by `Reintegrate.ReintegrateListAt`. What a dict ends with is stated by `Reintegrate.ReintegrateDictFill`. |
| Reintegrate.ReintegrateList | dysweep/utils.py:424-430 | The list loop raises only shape errors. It keeps the base list's length and the positions it has passed. What each position ends with is stated by `Reintegrate.ReintegrateListFill`. |
| Reintegrate.ReintegrateListFill | dysweep/utils.py:424-430 | After a successful list loop from position `i`:<br>• the list to add was no longer than the base;<br>• each position from `i` below `len(to_add)` holds `add_where_needed(base[j], to_add[j])`;<br>• every later position keeps the base item. |
| Reintegrate.ReintegrateListAt | dysweep/utils.py:419-430 | `add_where_needed` on two lists, when it succeeds: `base[i]` becomes `add_where_needed(base[i], to_add[i])` for every `i < len(to_add)`, and later positions keep their item. |
| Reintegrate.ReintegrateDict | dysweep/utils.py:436-441 | The dict loop raises only shape errors, and ends with a dict. |
| Reintegrate.ReintegrateDictFill | dysweep/utils.py:435-441 | After a successful fill:<br>• keys of `base` alone keep their value;<br>• keys of `to_add` alone are copied;<br>• keys of both are filled recursively.<br>No key of `base` is replaced outright. |
| Reintegrate.ReintegrateDictLookup | dysweep/utils.py:435-441 | Filling a dict from a compatible dict always succeeds, with every key as above. |
| Reintegrate.ReintegrateShape | dysweep/utils.py:419-446 | For compatible dicts, each position holds what `base` holds there, or what `to_add` holds where `base` has nothing. |
| Reintegrate.ChildCompat | dysweep/utils.py:441 | The values under a key that both compatible dicts have are dicts, and compatible again. |
| Reintegrate.ReintegrateListLonger | dysweep/utils.py:425-428 | A list to add that is longer than the base list raises. |
| Reintegrate.ReintegrateErrors | dysweep/utils.py:423-446 | The following raise a shape error:<br>• a list base with a non-list to add;<br>• a dict base with a non-dict;<br>• a list to add that is longer than the base.<br>A base that is not a container comes back unchanged. |
| Compression.AliasLookup | dysweep/utils.py:100-101 | An alias is found exactly when it is recorded. |
| Compression.AliasNames | dysweep/utils.py:60 | The aliases of `value_compression_mapping`, one per entry, in order. |
| Compression.Members | dysweep/utils.py:59 | Iteration succeeds on lists, dicts and strings only, and yields a list's items. |
| Compression.Item | dysweep/utils.py:60 | Indexing a list succeeds exactly within its length. |
| Compression.RecordAliases | dysweep/utils.py:59-65 | A successful alias loop returns one alias per value. |
| Compression.DeclareOne | dysweep/utils.py:52-68 | For one dict value, an identifier present is recorded for the key, no other key's name changes, and the dict loses the identifier. A dict with neither directive passes unchanged. |
| Compression.DeclareFrom | dysweep/utils.py:51-68 | The first loop keeps the config's keys in order and keeps the recorded names distinct. |
| Compression.FreeSegment | dysweep/utils.py:77-83 | The scan from the end stops at the last unclaimed segment, and every segment after it is claimed. When it finds none, every segment is claimed. |
| Compression.ClaimFrom | dysweep/utils.py:70-83 | The claim loop keeps the recorded keys distinct. |
| Compression.RenameFrom | dysweep/utils.py:85-87 | A successful renaming has distinct keys. |
| Compression.Compressed | dysweep/utils.py:44-88 | A compression succeeds only after its first pass succeeded. |
| Compression.Declared | dysweep/utils.py:51-68 | The first pass keeps the config's keys, in order, and keeps the recorded names distinct. |
| Compression.Original | dysweep/utils.py:96 | The inverted mapping finds a key for a name exactly when some key is recorded under it. |
| Compression.Resolve | dysweep/utils.py:99-101 | A value stands for itself, or, when it is a string recorded as an alias, for the value recorded under it. A value that is not a recorded alias stands for itself. |
| Compression.DecompressFrom | dysweep/utils.py:98-103 | The decompression loop raises only a missing-key error, untagged, for a name that no key is recorded under. A success keeps the keys already written and keeps keys distinct. |
| Compression.Decompressed | dysweep/utils.py:91-103 | Decompression raises untagged errors only. With a hashable mapping, the only error is a name no key is recorded under. A success has distinct keys. |
| Compression.OriginalSpec | dysweep/utils.py:96 | The inverted mapping finds a key recorded under the name, and finds nothing exactly when no key is. |
| CompressionFacts.RecordAliasesSpec | dysweep/utils.py:59-65 | The alias loop succeeds exactly when every alias is hashable, new and not repeated. It then records each alias with its value, in order, after the earlier ones, and returns the aliases. |
| CompressionFacts.RecordAliasesOk | dysweep/utils.py:59-65 | The success half of that iff. |
| CompressionFacts.RecordAliasesContents | dysweep/utils.py:64-65 | What a successful loop records and returns, position by position. |
| CompressionFacts.AliasLookupAt | dysweep/utils.py:100-101 | The first recorded entry under an alias is the one found. |
| CompressionFacts.AliasRoundTrip | dysweep/utils.py:59-65 | After the alias loop, each value's alias leads back to that value. Decompression turns a string alias back into the value. |
| CompressionFacts.AliasDistinct | dysweep/utils.py:60-64 | Entries recorded before the alias of position `j` are under other aliases. |
| CompressionFacts.AliasReuseRaises | dysweep/utils.py:60-63 | An alias already recorded, whether in this call or an earlier one, or shared by two values, makes the loop raise. |
| CompressionFacts.DeclareAliases | dysweep/utils.py:57-67 | A dict with `sweep_alias` and `values` loses `sweep_alias`, its values become the aliases, and each alias is recorded for the value it replaced. |
| CompressionFacts.DeclareFromFacts | dysweep/utils.py:51-68 | After the first loop, each key names its declared identifier or what it named before. Non-dict values are untouched, and dicts stay dicts without their identifier. |
| CompressionFacts.DeclareKeysOutside | dysweep/utils.py:55 | The first loop records names only for keys it visits. |
| CompressionFacts.DeclareOutAfter | dysweep/utils.py:68 | Entries already visited are not changed by the rest of the loop. |
| CompressionFacts.DeclareUntouched | dysweep/utils.py:51-68 | Dicts with neither directive pass the first loop unchanged, and nothing is recorded. |
| CompressionFacts.ClaimOther | dysweep/utils.py:71-83 | The claim loop never touches a key it does not visit. |
| CompressionFacts.ClaimKeeps | dysweep/utils.py:81-82 | The claim loop never replaces a name already recorded. |
| CompressionFacts.ClaimAt | dysweep/utils.py:70-83 | Each visited key ends with the name it already had, or else with the dotted suffix that starts at its last segment no earlier key claimed. It gets no name when every segment is claimed. |
| CompressionFacts.ClaimWalk | dysweep/utils.py:71-83 | The same, from any point of the loop, needing only that no other key equals this one. |
| CompressionTheorems.CompressIdentifier | dysweep/utils.py:54-56 | A declared `sweep_identifier` becomes the key's name verbatim and keys the compressed config. The dict no longer carries it. |
| CompressionTheorems.CompressSuffixName | dysweep/utils.py:70-83 | A key with no identifier and no earlier name is named after the dotted suffix starting at the last segment no earlier key claimed. |
| CompressionTheorems.CompressAllClaimed | dysweep/utils.py:77-87 | When every segment of such a key is claimed, no name is recorded, and the lookup at line 87 raises. |
| CompressionTheorems.FreshDomain | dysweep/utils.py:81-82 | A fresh compression records names only for keys of the config. |
| CompressionTheorems.NameLeadsBack | dysweep/utils.py:96 | With distinct names, the inverted mapping takes each key's name back to that key. |
| CompressionTheorems.NamesHashable | dysweep/utils.py:96 | Every recorded name is a string, so the inverted mapping can be built. |
| CompressionTheorems.RenameOneToOne | dysweep/utils.py:85-87 | A renaming that gave no name twice holds each value under its key's string name, in order. The names are pairwise distinct. |
| CompressionTheorems.DeclaredKeys | dysweep/utils.py:51-68 | The first pass keeps the config's keys, in order, and dicts stay dicts. |
| CompressionTheorems.FreshInvertible | dysweep/utils.py:44-88 | A fresh compression in which no two keys share a name is invertible. |
| CompressionTheorems.InvertibleDecompress | dysweep/utils.py:91-103 | Decompressing an invertible renaming of dict values gives the entries back. |
| CompressionTheorems.CompressDecompress | dysweep/utils.py:44-103 | Decompression undoes a fresh compression in which no two keys share a name. Every value is back under its original key, in order. |
| Inversion.RenameLength | dysweep/utils.py:85-87 | A renaming holds at most one entry per key. |
| Inversion.RenameKeeps | dysweep/utils.py:86-87 | A name, once in the result, stays. |
| Inversion.RenameNames | dysweep/utils.py:87 | A successful renaming found a string name for every key, and that name keys the result. |
| Inversion.RenameStep | dysweep/utils.py:87 | A step of a renaming that does not collide appends the value under its name. |
| Inversion.RenameAppends | dysweep/utils.py:85-87 | Without collisions, the renaming is each value under its name, in order. |
| Inversion.RenameFails | dysweep/utils.py:87 | A key with no recorded name makes the renaming raise. |
| Inversion.DecompressStep | dysweep/utils.py:98-102 | A name whose original key is not yet in the result appends that key with the resolved value. |
| Inversion.DecompressExact | dysweep/utils.py:98-103 | When every name leads to its own key, decompression puts each resolved value under that key, in order. |
| Session.Sweeper.constructor | dysweep/utils.py:39-41 | The mappings and the remainder start empty. |
| Session.Sweeper.Compress | dysweep/utils.py:44-88 | The three loops leave in the mappings exactly what `Compressed` records. They keep what was recorded before an exception, and the remainder is untouched. |
| Session.Sweeper.DeclareAll | dysweep/utils.py:51-68 | The first loop, step by step, computes `Declared` and updates the mappings as it does. |
| Session.Sweeper.DeclareOneStep | dysweep/utils.py:52-68 | One dict value: identifier, then aliases, as `DeclareOne`. |
| Session.Sweeper.RecordAll | dysweep/utils.py:58-66 | The alias loop records into `value_compression_mapping` exactly what `RecordAliases` does. |
| Session.Sweeper.ClaimNames | dysweep/utils.py:70-83 | The claim loop leaves the key mapping as `ClaimFrom`, claiming into a fresh `current_tri`. |
| Session.Sweeper.ScanFree | dysweep/utils.py:77-83 | The inner scan from the end stops at `FreeSegment`, with `current_path` the dotted suffix from there. |
| Session.Sweeper.Rename | dysweep/utils.py:85-88 | The rename loop computes `RenameFrom` and changes nothing. |
| Session.Sweeper.Decompress | dysweep/utils.py:91-103 | Decompression reads the mappings and changes nothing. |
| Session.Sweeper.Standardize | dysweep/utils.py:408-416 | The result, the new state and the mapping handed out are as `Standardized` says. The handed-out mapping is the new state. |
| Session.Sweeper.Destandardize | dysweep/utils.py:449-463 | A given mapping is installed first. The result is decompression, unflattening and reintegration under the state in force. |
| Session.Standardized | dysweep/utils.py:408-416 | Without `parameters`, the call raises a missing-key error and records nothing. A success keeps the config's keys, with only `parameters` replaced by a dict, and records the flattening remainder. |
| Session.Destandardized | dysweep/utils.py:449-463 | A success is a dict. No error is tagged with a path. |
| Pipeline.UnitValuesDicts | dysweep/utils.py:162-163 | Every unit found by flattening becomes a dict. |
| Pipeline.StandardizeRoundTrip | dysweep/utils.py:408-463 | Standardizing a tree of dicts, then destandardizing the compressed parameters with the mapping handed out, gives the tree back without its `"sweep"` tags. |
| MergeBasics.LeakSpec | dysweep/utils.py:186-198 | The reserved-key check raises exactly when some dict anywhere has a reserved key, and the key it names is reserved and present. |
| MergeBasics.LeakFromSpec | dysweep/utils.py:188-198 | The same for the children from a position on. |
| MergeBasics.Leak | dysweep/utils.py:186-198 | The key the check names is reserved. A value that is not a container never raises. |
| MergeBasics.Position | dysweep/utils.py:269 | `xs[i]` exists exactly when `-n <= i < n`. A negative index counts from the end. |
| MergeBasics.InsertPosition | dysweep/utils.py:242-243 | `list.insert` counts negative indices from the end and clamps both ends. |
| MergeBasics.Inserted | dysweep/utils.py:242-243 | `list.insert` puts `x` at that position, with the items before and after unchanged. |
| MergeBasics.KeyIndexSegment | dysweep/utils.py:276 | The key of position `i` starts with `__IDX__` and reads back as `i`. |
| MergeBasics.PretenderFrom | dysweep/utils.py:333-335 | Filling `true_args` keeps its length. |
| MergeBasics.PretenderFromPlaces | dysweep/utils.py:333-335 | Values whose keys name distinct positions in range land at those positions. |
| MergeBasics.PretenderPlaces | dysweep/utils.py:328-336 | A dict keyed `__IDX__0` .. `__IDX__(n-1)`, in any order, pretends to be a list, and reads as the list of its values by position. |
| MergeBasics.LineEnd | dysweep/utils.py:295-296 | Where `.` stops matching: the next newline, or the end. |
| MergeBasics.LastClose | dysweep/utils.py:295-296 | The last `)` before a bound, or none. |
| MergeBasics.SearchEval | dysweep/utils.py:295-296 | The regex search finds a `dy_eval(...)` call, on one line, exactly when there is one. The match starts at the leftmost position where a call is written. Its argument is the longest one there, running to the last `)` on that line, as a greedy `.*` does. |
| MergeBasics.CallMentionsEval | dysweep/utils.py:292-296 | A string with a call mentions `dy_eval`, so it takes the computed branch. |
| MergeBasics.Evaluated | dysweep/utils.py:297-298 | The evaluator's answer, or an evaluation error where it has none. |
| MergeBasics.EvalSpec | dysweep/utils.py:281-285 | A string is passed to `dy.eval` as is, and a dict as keyword arguments. Anything else raises a type error. |
| MergeBasics.BelowIrreflexive | dysweep/utils.py:374 | No string sorts before itself. |
| MergeBasics.BelowTotal | dysweep/utils.py:374 | Any two distinct strings are ordered one way. |
| MergeBasics.BelowTransitive | dysweep/utils.py:374 | String order is transitive. |
| MergeBasics.Insort | dysweep/utils.py:374 | Inserting into a sorted list keeps it sorted and adds exactly that key. |
| MergeBasics.SortKeys | dysweep/utils.py:374 | `keys.sort()` gives a sorted permutation of the keys. |
| MergeBasics.GroupKeys | dysweep/utils.py:342-343 | The collected keys are exactly the overlay's keys that start with `sweep_group`. |
| MergeBasics.ParseOpFails | dysweep/utils.py:222-272 | Each malformed operation raises, with its own kind:<br>• not a dict;<br>• not exactly one key;<br>• an unknown tag;<br>• a non-int index;<br>• a pair whose length is not 2. |
| MergeBasics.IndexArg | dysweep/utils.py:227-237 | The argument is accepted exactly when it is an int, or a list of length 2. An int is the index with no value. A pair is index and value. Anything else raises a malformed-operation error. |
| MergeBasics.ParseOp | dysweep/utils.py:222-272 | Reading an operation raises only untagged type, malformed-operation or unknown-operation errors. A parsed operation comes from a one-key dict whose key is its tag. |
| MergeBasics.ParseOpTree | dysweep/utils.py:225-269 | Reading back an operation as it is written gives the operation. |
| MergeBasics.KeyIndex | dysweep/utils.py:276 | A key reads as a position only when it is longer than `__IDX__`. |
| MergeBasics.PretendsList | dysweep/utils.py:328-331 | An empty dict pretends to be a list. |
| MergeBasics.PretenderNoReservedKey | dysweep/utils.py:26-36 | No reserved key starts with `__IDX__`, so a dict that pretends to be a list holds none. |
| MergeBasics.PretenderItems | dysweep/utils.py:333-335 | `true_args` has one slot per key. Its errors are untagged. |
| Merge.Annotated | dysweep/utils.py:391-403 | A result passes through unchanged. An error keeps its kind, and it carries a path exactly when it already had one or annotation is on. An untagged error caught with annotation on is tagged with this call's path. A tagged error passes through as it is. |
| Merge.Checked | dysweep/utils.py:384-389 | Only the top-level call checks. It raises exactly when a reserved key is present, and otherwise returns the tree. |
| Merge.EvalString | dysweep/utils.py:367-370 | Evaluation errors are raised untagged. A string with no `dy_eval(...)` call on one line raises `NoExpression`, the AttributeError of `.group(1)` on a failed search, and nothing else does. Otherwise the result is the evaluator's answer for the argument the search matched, applied to the target value. |
| Merge.Upserted | dysweep/utils.py:202-405 | With annotation off, no error is tagged. |
| Merge.ListStep | dysweep/utils.py:214-323 | With annotation off, no error from the list-target branch is tagged. |
| Merge.ApplyOps | dysweep/utils.py:221-273 | Likewise for the operations loop. Each kind of operation has a step lemma: `MergeFacts.InsertStep`, `MergeFacts.InsertOverlayStep`, `MergeFacts.OverwriteStep`, `MergeFacts.OverwriteMergeStep`, `MergeFacts.RemoveStep` and `MergeFacts.OutOfRangeRaises`. |
| Merge.MergeIndexed | dysweep/utils.py:275-298 | Likewise for a dict of positions onto a list. What it computes is stated by `MergeFacts.MergeIndexedValue` and `MergeFacts.MergeIndexedPlain`. |
| Merge.MergeList | dysweep/utils.py:303-323 | Likewise for a list overlay onto a list. What it computes is stated by `MergeFacts.MergeListAt`. |
| Merge.DictStep | dysweep/utils.py:325-383 | Likewise for the dict-target branch. |
| Merge.MergeKeys | dysweep/utils.py:341-366 | Likewise for the loop over ordinary keys. |
| Merge.ApplyGroups | dysweep/utils.py:374-379 | Likewise for the group overlays. Their order and effect are stated by `MergeFacts.GroupsSet` and `MergeFacts.GroupsLastWins`. |
| Merge.ApplyUpserts | dysweep/utils.py:380-383 | Likewise for the `upsert` entries. |
| Merge.UpsertConfig | dysweep/utils.py:202-212 | A non-container target raises an untagged type error. Otherwise an error is tagged exactly when annotation is on. |
| MergeFacts.MergeKeysUntouched | dysweep/utils.py:341-366 | Keys not in the overlay, and `sweep_group*` keys, keep their target value. Every target key stays. |
| MergeFacts.MergeKeysValue | dysweep/utils.py:345-366 | An ordinary key gets its value, and the rest of the loop runs on the result. The value is, by the overlay's kind:<br>• a plain value: copied;<br>• a `sweep_operation_val` dict: what `EvalSpec` computes from the root;<br>• any other dict or list: the recursive merge of the overlay into the key's current value, or into None when the key is missing, under path `path + [key]` (so a container onto a missing key is copied);<br>• a `dy_eval` string: what `EvalString` computes with the key's current value, or None, as argument. |
| MergeFacts.MergeKeysSets | dysweep/utils.py:345-362 | An ordinary key with a plain value, or a new key with a dict or list, ends up with exactly the overlay's value. |
| MergeFacts.ScalarTargetReplaced | dysweep/utils.py:371-372 | A target that is not a list or a dict is replaced by the overlay, unless the overlay is to be computed. |
| MergeFacts.DictTargetNeedsDict | dysweep/utils.py:325-366 | A dict target that does not pretend to be a list raises a type error for an overlay that is not a dict. |
| MergeFacts.PretenderKept | dysweep/utils.py:328-331 | A dict with a non-position key keeps one after any assignment. |
| MergeFacts.DictOverlayStep | dysweep/utils.py:338-389 | A one-key plain overlay onto a dict target sets that key, and then the result is checked. |
| MergeFacts.DictOverlaySets | dysweep/utils.py:345-362 | Below the top, that overlay sets the key and changes nothing else. |
| MergeFacts.UpsertsLastWins | dysweep/utils.py:380-383 | When every `upsert` entry assigns the same key, the last one's value stays and nothing else changes. |
| MergeFacts.PretenderAsList | dysweep/utils.py:328-336 | A dict keyed `__IDX__i` is merged as the list holding each value at the position its key names. |
| MergeFacts.EmptyDictIsList | dysweep/utils.py:328-336 | An empty dict is merged as an empty list. |
| MergeFacts.EmptyDictRefusesKey | dysweep/utils.py:328-336 | Hence adding a non-position key to an empty dict raises a type error. |
| MergeFacts.EmptyDictScalar | dysweep/utils.py:328-336 | A scalar merged into an empty dict at the top gives an empty list. |
| MergeFacts.ListLengthMismatch | dysweep/utils.py:299-302 | A list overlay whose length differs from the target's raises a shape error. |
| MergeFacts.OpsMustBeList | dysweep/utils.py:216-220 | `sweep_list_operations` that is not a list raises a malformed-operation error. |
| MergeFacts.InsertStep | dysweep/utils.py:238-243 | `sweep_insert: -1` appends. Any other int inserts where `list.insert` does. |
| MergeFacts.InsertOverlayStep | dysweep/utils.py:239-273 | An index alone inserts the overlay itself, its other keys followed by the operations put back. |
| MergeFacts.OverwriteStep | dysweep/utils.py:262-263 | `sweep_overwrite: [i, v]` replaces element `i`, counting from the end when negative. |
| MergeFacts.OverwriteMergeStep | dysweep/utils.py:258-260 | `sweep_overwrite: i` or `[i, None]` merges the overlay, with its operations popped, into element `i` under the path segment `str(i)`. On success the loop goes on with only that element replaced. On failure the loop returns the merge's error. |
| MergeFacts.OverwriteMergeExample | dysweep/utils.py:244-273 | `[{a: 0}]` with `{b: 1, sweep_list_operations: [{sweep_overwrite: 0}]}` gives `[{a: 0, b: 1}]`. |
| MergeFacts.RemoveStep | dysweep/utils.py:264-269 | `sweep_remove: i` deletes element `i`, counting from the end when negative. |
| MergeFacts.OutOfRangeRaises | dysweep/utils.py:261-269 | Removing or overwriting a position the list lacks raises. |
| MergeFacts.RemoveThenInsert | dysweep/utils.py:216-273 | `[10,20,30]` with "remove 0, insert 99 at 0" gives `[99,20,30]`. |
| MergeFacts.RemoveThenInsertOps | dysweep/utils.py:221-272 | The operations loop of that example. |
| MergeFacts.IndexOnlyInsertLeaks | dysweep/utils.py:238-273 | Merging `{sweep_list_operations: [{sweep_insert: 0}]}` into `[]` raises a leak of `sweep_list_operations`. The inserted overlay holds its operations again by line 273, and the check at lines 384-389 finds them. |
| MergeFacts.MergeIndexedValue | dysweep/utils.py:275-298 | One entry of a dict of positions: its key names a position of the list, counted from the end when negative. That position alone gets the entry's plain value, the value merged into the element, or the computed value. The rest of the loop runs on the result. |
| MergeFacts.MergeIndexedPlain | dysweep/utils.py:275-293 | Entries with plain values naming positions in range never raise. Each position ends with the value of the last entry naming it, and every other position is unchanged. |
| MergeFacts.ComputedEntryRaises | dysweep/utils.py:279-313 | A `dy_eval` dict at a list position always raises, in a dict of positions and in a list overlay alike. |
| MergeFacts.MergeListAt | dysweep/utils.py:303-323 | A successful list overlay of the target's length has that length. Each element `q` is merged into the target's element `q` under path segment `q`, independently of the other positions. None is a `dy_eval` dict. |
| MergeFacts.MergeListPlain | dysweep/utils.py:318-319 | A list overlay of plain values never raises. |
| MergeFacts.GroupsSet | dysweep/utils.py:375-379 | When every group overlay sets the same ordinary key to a plain value, the one applied last decides it, and nothing else changes. |
| MergeFacts.GroupSetStep | dysweep/utils.py:375-379 | One group overlay that sets an ordinary key to a plain value sets that key, and the remaining groups are applied to the result. |
| MergeFacts.GroupsLastWins | dysweep/utils.py:341-379 | Group overlays apply after the ordinary keys, in sorted key order, each to the result so far. So when every group sets `k` to a plain value, `k` ends with the value from the group whose key sorts last. Other overlay keys get their value, and every other key keeps the target's. |
| MergeFacts.GroupOrderExample | dysweep/utils.py:341-379 | `{x: 0}` with `{sweep_group_b: {x: 1}, sweep_group_a: {x: 2}}` gives `{x: 1}`. |
| MergeFacts.NestedFailureTagged | dysweep/utils.py:391-403 | With annotation on, an exception raised below key `k` reaches the top-level caller as the failing recursion raised it. It is tagged with a path that starts at `k`. |
| MergeFacts.ShapeMismatchTagged | dysweep/utils.py:300-302 | `{a: []}` with `{a: [1]}` raises the length mismatch tagged with the path `["a"]`, where it was raised. |
| MergeFacts.ListStepTop | dysweep/utils.py:384-389 | A list result at the top has passed the reserved-key check. |
| MergeFacts.TopLevelNoLeak | dysweep/utils.py:384-389 | A merged configuration returned at the top holds no reserved key anywhere. |
| MergeFacts.ReservedKeyRaises | dysweep/utils.py:384-389 | An overlay that writes a reserved key into a dict makes the top-level call raise a leak error. |
| Trees.SetTwice | dysweep/utils.py:345-346 | Setting a missing key to None and then to its value is setting it once. |
| Merger.GroupKeysAppend | dysweep/utils.py:342-343 | Collecting group keys entry by entry gives the group keys of the whole overlay. |
| Merger.GroupKeysPrefix | dysweep/utils.py:342-343 | The group keys of the first `j + 1` entries. |
| Merger.Merger.constructor | dysweep/utils.py:24 | The flag starts cleared. |
| Merger.Merger.Upsert | dysweep/utils.py:202-212 | The call computes `UpsertConfig`, with annotation on exactly while the flag is clear. The flag is set exactly when an exception was tagged. |
| Merger.Merger.UpsertAt | dysweep/utils.py:202-405 | One call with its handler computes `Upserted`. The flag is set exactly when an exception was tagged. |
| Merger.Merger.ListTarget | dysweep/utils.py:214-323 | The list-target branch computes `ListStep`. |
| Merger.Merger.RunOps | dysweep/utils.py:216-273 | The operations loop edits the list as `ApplyOps` says. |
| Merger.Merger.RunOp | dysweep/utils.py:222-269 | One operation: the edited list, from which the rest of the loop agrees with `ApplyOps`, or the exception that ends it. |
| Merger.Merger.RunIndexed | dysweep/utils.py:275-298 | The loop over a dict of positions computes `MergeIndexed`. So each position named by an entry gets that entry's value, merged or computed, and the other positions are unchanged (`MergeFacts.MergeIndexedPlain`). |
| Merger.Merger.RunIndexedEntry | dysweep/utils.py:276-298 | One entry: the edited list, from which the rest of the loop agrees with `MergeIndexed`, or the exception that ends it. What one entry changes is stated by `MergeFacts.MergeIndexedValue`. |
| Merger.Merger.RunList | dysweep/utils.py:303-323 | The loop over a list overlay computes `MergeList`. So each element is merged into the target element at the same position (`MergeFacts.MergeListAt`). |
| Merger.Merger.DictTarget | dysweep/utils.py:325-383 | The dict-target branch computes `DictStep`. |
| Merger.Merger.RunKeys | dysweep/utils.py:341-366 | The loop over the overlay's keys computes `MergeKeys` and collects exactly the group keys. |
| Merger.Merger.RunKey | dysweep/utils.py:345-366 | One ordinary key. |
| Merger.Merger.RunGroups | dysweep/utils.py:374-379 | The group overlays apply in the given order, each to the result so far, as `ApplyGroups` says. The dict merge passes them in sorted key order, so the group that sorts last wins (`MergeFacts.GroupsLastWins`). |
| Merger.Merger.RunUpserts | dysweep/utils.py:380-383 | The `upsert` entries apply in order, each to the result so far. |
| Merger.Merger.IsListPretender | dysweep/utils.py:328-331 | The flag loop ends true exactly when every key starts with `__IDX__`. |
| Merger.Merger.ListFromPretender | dysweep/utils.py:333-335 | Filling `true_args` computes `PretenderItems`, with one slot per key. |
| Trees.Set | dysweep/utils.py:346 | `d[k] = v`:<br>• `k` now holds `v` and other keys are unchanged;<br>• an existing key keeps its place and a new key goes last;<br>• keys stay distinct. |
| Trees.Remove | dysweep/utils.py:340 | `d.pop(k)` removes `k` and leaves other keys and their values unchanged. |
| Trees.Lookup | dysweep/utils.py:345 | `d[k]` is found exactly when `k in d`. |

## Left out

- **`dy.eval`.** The expression interpreter of the `dypy` library is a parameter, `Evaluator`, mapping an expression and an argument to a result or to nothing. What expressions mean is not modelled. Python calls `dy.eval(expr)` before it reads `args[i]` (lines 297-298); the model finds the position first. The two orders differ only in which error is raised when the expression fails to evaluate and the index is also out of range, because `Evaluator` performs both the evaluation and the call.
- **Exception texts.**
  - Message strings, `json.dumps` of the overlay and `str(current_path)` are not modelled.
  - An error carries its kind and, when tagged, the configuration path.
  - Python's distinct exception classes are grouped into the kinds of `Trees.Kind`. TypeError, ValueError, an unbound local and most AttributeErrors become `TypeMismatch`. The AttributeError of `.group(1)` after a failed `dy_eval` search (lines 296, 322, 366 and 369) becomes `NoExpression`.
- **Aliasing and mutation in place.** Trees are values, so some Python behaviours cannot occur:
  - a partially mutated `args` after an exception;
  - `root_args` being a shallow copy that later writes can reach;
  - the overlay popping `upsert` for good (line 340), and popping its list operations (line 217), which line 273 puts back at the end of the dict only when the operations loop finishes; when the loop raises, they stay popped;
  - `standardize_sweep_config` handing out the module's own dicts (line 416), and `destandardize_sweep_config` installing the caller's dicts as the module's (lines 455-457). In Python a mapping handed out earlier keeps collecting names from later calls, so it is shared state, not a snapshot. Example: standardize `{x: {a: unit}}` and hand out `m1`, then standardize `{y: {a: unit}}`, then destandardize `{a: 1}` with `m1`. Python puts `a` under `y`, because the name `a` now leads to `y`'s key; the model hands out a copy and puts it under `x`;
  - `add_where_needed` storing subtrees of `to_add` in its result (line 439), so the result shares them with the remainder.

  One aliasing effect is kept because it changes results. An insert with an index alone inserts the overlay itself, whose operations line 273 has put back (`MergeFacts.InsertOverlayStep`). The inserted element then holds the reserved key `sweep_list_operations`, so the top-level call raises a leak error unless a later operation removes that element (`MergeFacts.IndexOnlyInsertLeaks`).
- **Compression.RenameFrom:** a `sweep_identifier` that is not a string (an int, say) raises `TypeMismatch`. Python would key the compressed config by it. Keys are strings throughout this model.
- **Python's numeric equality.** `1 == 1.0 == True` as dict keys and alias lookups are not modelled: trees compare structurally.
- **`int()` forms.** Surrounding whitespace and `_` digit separators are not accepted when a key is read back as a position. Only an optional sign and ASCII digits are.
- **Numeric formatting.** Floats are `real` values, and how they print is not modelled.
- **Duplicate keys.** Dicts are assumed to have distinct keys wherever a property needs it, as every Python dict does.
- **RoundTrip.RoundTrip:** proved for trees of dicts whose keys the separator cannot cut (`PathCodec.Clean`). Any list outside a unit's payload takes the tree out of the theorem, even a plain list of ints. A unit inside a list cannot round-trip in the source at all. Unflattening builds dicts keyed `__IDX__<i>` where the remainder holds a list, and `add_where_needed` then raises (lines 442-445).
- **Flattener.FlattenTreeSpec:** stated for trees of dicts only. `Flattener.FlattenListSpec` covers a list whose elements are scalars, units or trees of dicts. A list nested inside a dict, or a list inside a list, is covered by neither. The loops themselves are modelled for every tree.
- **Pipeline.StandardizeRoundTrip:** proved under three conditions:
  - the key mapping starts empty;
  - no unit declares `sweep_identifier` or `sweep_alias`;
  - no two flat keys receive the same compressed name, which the source does not check.

  Those three cases are covered separately by `CompressionTheorems` and `CompressionFacts`.
- **CompressionTheorems.CompressDecompress:** proved only when no two keys received the same compressed name. With a collision the source silently loses a value. The lemma's extra length condition states the absence of a collision.
- **Copies.** The shallow `.copy()` and `copy.deepcopy` calls have no observable effect on values and are not modelled separately.
- **The rest of the package.** The sweep driver that calls these utilities is not part of this model.

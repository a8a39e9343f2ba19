# Bedrock → Java block translation, modelled in Dafny

This project models the block translation core of a Minecraft structure
converter written in Go, and proves properties of that model.

**The translation table** (`ToJavaConvertor`) is kept per Bedrock base block name. Each group holds:

- a sparse table indexed by 16-bit legacy values;
- an insertion-ordered list of (property set, Java block) anchors;
- a quick-match index from canonical state key to Java block.

Inserts follow fixed conflict and overwrite rules. Lookups are either precise or best-effort:

- the best-effort legacy lookup falls back from the slot to the anchors;
- the best-effort state lookup scores every anchor and keeps the first best one.

**Around the table sit:**

- the four-line text form of translation records (`JavaConvertRecord`): writing, reading, and loading into the table under strict or lenient conflict handling;
- the Java block value (`JavaBlockString`): its typed properties and display string;
- the two-pass record generator: precise matches first, then the postponed entries with a best-effort match;
- the block-string front door of the blocks package: splitting `name[state]`, routing `name value` to a legacy search, and the fixed answers every lookup wrapper gives for a block it cannot find.

**Command-line helpers:**

- container extraction from block-entity NBT;
- the exchange sorts of the format list and the world-structure list;
- parsing of `@[x1,y1,z1]~[x2,y2,z2]` selections;
- the command and extension recognisers;
- the scans of the optional `convert` and `mapart` arguments.

**Form of the model:**

- Table groups and the convertor are classes whose fields the methods update. Each method is proved against a pure function on a `GroupState` value (`GroupAddLegacy`, `StateInsert`, `PreciseLegacy`, `BestLegacy`, `PreciseState`, `FuzzyStateResult`). The convertor also keeps a ghost map from base name to group content.
- Loops in the source are methods with invariants: record reading, argument scans, item extraction, the sorts, token filtering and the best-match scan.
- Everything else is functions and lemmas.
- A Go `panic` is an error result (`Failure`, `Fail` or a `panic` out-parameter).
- A nil pointer is `None`.

**Code not shown is passed in as function values:**

- the search-side property parser, canonical key, property count and comparison (`Describe.PropsLib`);
- the base-name mapping (`PropsLib.baseName`);
- the input rewriting and NEMC queries of the generator (`TranslateToJava.NemcQueries`);
- the runtime-ID palette and NEMC convertor of the blocks package (`BlockIO.Runtime`).

The files:

- `wrappers.dfy`, `ints.dfy`, `text.dfy`, `nbt.dfy`: Option/Result, Go's fixed-width integers, the `strings`/`strconv` functions used, and NBT values.
- `describe.dfy`: property sets and `JavaBlockString`.
- `to_java.dfy`: the table.
- `to_java_record.dfy`: records.
- `translate_to_java.dfy`: the generator.
- `io.dfy`: the block-string front door.
- `parse.dfy`: containers.
- `cli_sort.dfy`, `cli_selection.dfy`, `cli_args.dfy`: the `main.go` helpers.

## Model

| member | source | states |
|---|---|---|
| ToJava.LegacyInsert | modules/blocks/convertor/to_java.go:110-128 | The table grows to `v+1` slots when `v` is past its end; new slots are unset. The insert reports present exactly when slot `v` exists, is set and `overwrite` is off, and then the table is unchanged. Otherwise slot `v` holds the target. Every other slot keeps its old content. |
| ToJava.GroupAddLegacy | modules/blocks/convertor/to_java.go:110-128 | A legacy insert never touches the anchor list or the quick-match index. |
| ToJava.PreciseLegacy | modules/blocks/convertor/to_java.go:130-140 | Found exactly when `v` is inside the table and its slot is set; then the slot's block, otherwise the group's air block. |
| ToJava.BestLegacy | modules/blocks/convertor/to_java.go:142-155 | Tries four answers in order and takes the first that applies: the set slot; the anchor at position `v`; the first anchor; else air with not-found. Found exactly when the slot is set or some anchor exists. |
| ToJava.InsertThenPreciseLegacy | modules/blocks/convertor/to_java.go:110-140 | After an insert that reports not-present, a precise lookup of `v` returns the target. A present report leaves the group unchanged with its earlier block at `v`. Lookups of every other value are unaffected, and the table never shrinks. |
| ToJava.PreciseLegacyAsWritten | modules/blocks/convertor/to_java.go:130-140 | The lookup with the uint16 guard as written, when it does not panic, agrees with `PreciseLegacy`. |
| ToJava.AsWrittenPanicsAtMaxLegacyValue | modules/blocks/convertor/to_java.go:131-132 | As written, legacy value 65535 passes the bounds test and indexes out of range on every table the code can build; below 65535 the written test is correct. |
| ToJava.LegacyInsertAsWritten | modules/blocks/convertor/to_java.go:110-128 | The insert with the uint16 guard as written, when it does not panic, gives what `LegacyInsert` gives. |
| ToJava.AsWrittenInsertPanicsAtMaxLegacyValue | modules/blocks/convertor/to_java.go:111-112 | As written, inserting legacy value 65535 panics on every table the code can build, so the table never exceeds 65535 slots. Below 65535 the insert is `LegacyInsert`. |
| ToJava.BestLegacyAsWritten | modules/blocks/convertor/to_java.go:142-155 | The best-effort lookup with both uint16 guards as written, when it does not panic, agrees with `BestLegacy`. |
| ToJava.AsWrittenFuzzyPanicsAtMaxLegacyValue | modules/blocks/convertor/to_java.go:143-144 | As written, the best-effort lookup of legacy value 65535 panics on every table the code can build, whatever the anchors. Below 65535 it is `BestLegacy`. |
| ToJava.LastWithKey | modules/blocks/convertor/to_java.go:175-179 | The position of the last anchor filed under a key, or -1 exactly when no anchor carries it. |
| ToJava.QuickMatchIndexAgrees | modules/blocks/convertor/to_java.go:175-179 | A key is in the quick-match index exactly when some anchor carries it, and it maps to the block of the last such anchor. |
| ToJava.StateInsert | modules/blocks/convertor/to_java.go:157-181 | The key is `"{}"` for a nil state, else the canonical key. The insert reports present exactly when the key is indexed and either the indexed block displays the same as the target or `overwrite` is off. Then nothing changes. Otherwise the anchor is appended and the key is indexed to the target. The legacy table is untouched, and the index stays consistent with the anchors. |
| ToJava.PreciseState | modules/blocks/convertor/to_java.go:183-189 | Found exactly when a block is returned. Over a consistent index: found exactly when an anchor carries the query's key, and the block is the last such anchor's. |
| ToJava.InsertThenPreciseState | modules/blocks/convertor/to_java.go:157-189 | After a state insert that reports not-present, the precise lookup of the same state returns the target. |
| ToJava.BetterAsymmetric | modules/blocks/convertor/to_java.go:207 | The replacement rule of the best-match scan is never true both ways. |
| ToJava.BestAnchorUnique | modules/blocks/convertor/to_java.go:205-212 | At most one anchor beats all earlier ones and is beaten by no later one, and no anchor beats it: the best anchor is the first best. |
| ToJava.FuzzyStateResultUnique | modules/blocks/convertor/to_java.go:191-214 | The best-match result (block, score, matched) is determined by the group and the query. |
| ToJava.ToJavaBaseNames.constructor | modules/blocks/convertor/to_java.go:47-57 | A new group is empty and keeps the convertor's air and unknown blocks. |
| ToJava.ToJavaBaseNames.AddAnchorByLegacyValue | modules/blocks/convertor/to_java.go:110-128 | The grow-then-store loop leaves the group as `GroupAddLegacy` says and reports its present flag; the error is always nil. |
| ToJava.ToJavaBaseNames.PreciseMatchByLegacyValue | modules/blocks/convertor/to_java.go:130-140 | Answers as `PreciseLegacy` on the group's content. |
| ToJava.ToJavaBaseNames.FuzzySearchByLegacyValue | modules/blocks/convertor/to_java.go:142-155 | Answers as `BestLegacy` on the group's content. |
| ToJava.ToJavaBaseNames.AddAnchorByState | modules/blocks/convertor/to_java.go:157-181 | Leaves the group as `StateInsert` says and keeps the index consistent with the anchors; the error is always nil. |
| ToJava.ToJavaBaseNames.PreciseMatchByState | modules/blocks/convertor/to_java.go:183-189 | Answers as `PreciseState` on the group's content. |
| ToJava.ToJavaBaseNames.FuzzySearchByState | modules/blocks/convertor/to_java.go:191-214 | The first case that applies decides the result. An exact key hit gives the indexed block, `Same` equal to the property count (0 for nil) and matched. No anchors gives air, a zero score and not matched. Otherwise: the first anchor with the greatest `Same`, ties broken by the smaller uint8 penalty sum, with matched. |
| ToJava.ToJavaConvertor.constructor | modules/blocks/convertor/to_java.go:29-41 | A nil air or unknown block becomes `air` with an empty state; no group exists yet. |
| ToJava.ToJavaConvertor.EnsureBaseNameGroup | modules/blocks/convertor/to_java.go:43-60 | Returns the existing group for a name, or creates exactly one fresh empty group and files it under the name; other groups are untouched. |
| ToJava.ToJavaConvertor.AddAnchorByLegacyValue | modules/blocks/convertor/to_java.go:67-70 | Only the group of the name's base name changes, created empty if missing, and it changes as `GroupAddLegacy` says. |
| ToJava.ToJavaConvertor.PreciseMatchByLegacyValue | modules/blocks/convertor/to_java.go:72-78 | No group: the convertor's air block, not found. Otherwise `PreciseLegacy` on the group. |
| ToJava.ToJavaConvertor.TryBestSearchByLegacyValue | modules/blocks/convertor/to_java.go:80-86 | No group: air, not found. Otherwise `BestLegacy` on the group. |
| ToJava.ToJavaConvertor.AddAnchorByState | modules/blocks/convertor/to_java.go:88-91 | Only the base name's group changes, created empty if missing, and it changes as `StateInsert` says. |
| ToJava.ToJavaConvertor.PreciseMatchByState | modules/blocks/convertor/to_java.go:93-99 | No group: air, not found. Otherwise `PreciseState` on the group. |
| ToJava.ToJavaConvertor.TryBestSearchByState | modules/blocks/convertor/to_java.go:101-107 | No group: air, a zero score, not matched, and no group is created. Otherwise the group's best-match result. |
| Describe.ToProps | modules/blocks/describe/java_block.go:19-37 | Keeps the count, order and names of the search properties. A uint8 becomes a boolean (true when non-zero), an int32 stays an int32, and a string stays a string. |
| Describe.NewJavaBlockString | modules/blocks/describe/java_block.go:12-44 | The name and SNBT are kept unchanged. The properties are empty on a parse error or a nil parse, else the typed conversion of the parsed ones. |
| Describe.JavaBlockString.ToString | modules/blocks/describe/java_block.go:62-67 | The bare name when the SNBT is `""` or `"{}"`. Otherwise `name[snbt]` with every `"` removed, the name's included, so the result holds no quote. |
| JavaRecord.JavaConvertRecord.GetLegacyValue | modules/blocks/convertor/to_java_record.go:23-29 | Succeeds exactly when the second field is a 64-bit decimal that `strconv.Atoi` accepts (a sign and leading zeros included). The value is then that number modulo 2^16, else `(0, false)`. |
| JavaRecord.LegacyValueOfDecimal | modules/blocks/convertor/to_java_record.go:23-29 | Any 64-bit decimal, negative or above 65535 included, is taken as that value truncated to uint16. |
| JavaRecord.StateIsNotLegacyValue | modules/blocks/convertor/to_java_record.go:23-29 | An empty field or one starting with `{` or `[` is never a legacy value. |
| JavaRecord.ToStringLines | modules/blocks/convertor/to_java_record.go:19-21 | A record's text is its four fields, each followed by a newline. |
| JavaRecord.ReadGroup | modules/blocks/convertor/to_java_record.go:35-47 | One group of four lines gives its trimmed record, or nothing when the trimmed name is empty. |
| JavaRecord.ReadLines | modules/blocks/convertor/to_java_record.go:34-48 | The step-4 loop collects the records of consecutive groups of four lines in order. A trailing group of fewer than four lines is ignored. |
| JavaRecord.ReadJavaRecordsFromString | modules/blocks/convertor/to_java_record.go:31-50 | The records of the text's newline-separated lines; the error is always nil. |
| JavaRecord.ReadOneRecord | modules/blocks/convertor/to_java_record.go:19-48 | A well-formed record's text in front of any text is read back first. |
| JavaRecord.ReadSerialized | modules/blocks/convertor/to_java_record.go:19-48 | Reading the concatenated texts of well-formed records gives the same records in the same order. Well-formed: a non-empty name, and fields that are trimmed and single-line. |
| JavaRecord.RecordsOfWellFormed | modules/blocks/convertor/to_java_record.go:34-48 | Every record read from newline-free lines is well formed. |
| JavaRecord.ReadRecordsWellFormed | modules/blocks/convertor/to_java_record.go:31-50 | Every record read from any text is well formed, so reading is a left inverse of writing on what it returns. |
| JavaRecord.LoadLegacyAnchor | modules/blocks/convertor/to_java_record.go:55-60 | Inserts into the base name's group as `GroupAddLegacy` says. A present report in strict mode panics, naming the record's own name (not its base name), the value and the target. |
| JavaRecord.LoadStateAnchor | modules/blocks/convertor/to_java_record.go:66-70 | Inserts as `StateInsert` says. A present report in strict mode panics, naming the record's own name (not its base name), the canonical key and the target. |
| JavaRecord.LoadJavaConvertRecord | modules/blocks/convertor/to_java_record.go:52-72 | A legacy value goes to the legacy insert. Otherwise the state is parsed: a parse error panics with nothing changed, and a parsed state goes to the state insert. The target is built from the Java name and SNBT. Only the one group changes. In lenient mode a conflict is ignored. |
| TranslateToJava.TryAddJavaConvert | modules/blocks/gen_map_neo/step2_add_standard_mc_converts/translate_to_java.go:63-107 | Panics exactly when the input state does not parse. It reports not-matched exactly when `mustMatch` is off and there is no precise NEMC match. `ok` is exactly not not-matched, and an air output gives no record. A record carries the base name, the canonical input key, the output name, and the output state with `""`/`"{}"` blanked. A record exists exactly when the output is not air and the block is found: precisely, or best-effort under `mustMatch`. |
| TranslateToJava.MustMatchKnownBlockGivesRecord | modules/blocks/gen_map_neo/step2_add_standard_mc_converts/translate_to_java.go:74-106 | With `mustMatch`, a parsed input that the NEMC table finds, precisely or best-effort, with a non-air output always yields a record. |
| TranslateToJava.GenBedrockToJavaTranslateRecords | modules/blocks/gen_map_neo/step2_add_standard_mc_converts/translate_to_java.go:10-61 | The two loops compute exactly the two-pass `Generate`: records, translated, ignored and conflicted, or its panic. |
| TranslateToJava.PassStopsAtPanic | modules/blocks/gen_map_neo/step2_add_standard_mc_converts/translate_to_java.go:20-39 | A panic on an entry ends the pass; later entries do not matter. |
| TranslateToJava.PassEffect | modules/blocks/gen_map_neo/step2_add_standard_mc_converts/translate_to_java.go:20-55 | A pass appends its records in input order and, in pass one only, its not-matched entries in input order. It never counts a conflict. Every entry is counted once, as translated, ignored or postponed. |
| TranslateToJava.PassSucceedsIff | modules/blocks/gen_map_neo/step2_add_standard_mc_converts/translate_to_java.go:69-72 | A pass completes exactly when every entry's rewritten input state parses. |
| TranslateToJava.PostponedFromInput | modules/blocks/gen_map_neo/step2_add_standard_mc_converts/translate_to_java.go:24-27 | Every postponed entry is one of the inputs. |
| TranslateToJava.GenerateResult | modules/blocks/gen_map_neo/step2_add_standard_mc_converts/translate_to_java.go:10-55 | translated + ignored equals the number of inputs, conflicted is 0, and there is one record per translated entry. The records are pass one's followed by pass two's on the postponed entries. |
| TranslateToJava.GenerateSucceedsIff | modules/blocks/gen_map_neo/step2_add_standard_mc_converts/translate_to_java.go:20-55 | Generation panics exactly when some input state does not parse, so the second pass never panics. |
| BlockIO.StateSegmentShortest | modules/blocks/io.go:114-122 | Two state readings of the same text, the first no longer than the second, are equal. |
| BlockIO.StateSegmentUnique | modules/blocks/io.go:114-122 | The state text after the first bracket is determined by the text. |
| BlockIO.BlockStringPartsSpec | modules/blocks/io.go:111-122 | After `{` becomes `[`, the name is the text before the first `[` and holds neither bracket. The state is the text up to the next `[` with one closing `]` or `}` dropped, or empty when there is no bracket. |
| BlockIO.BlockStringPartsRoundTrip | modules/blocks/io.go:111-122 | `name[state]` splits back into `name` and `state` when neither holds an opening bracket. |
| BlockIO.BlockStringPartsBare | modules/blocks/io.go:111-122 | A bare name splits into itself and an empty state. |
| BlockIO.ConvertStringToBlockNameAndPropsForSearch | modules/blocks/io.go:111-129 | Returns the split name and the parsed state, or a nil property set when the state does not parse. |
| BlockIO.NonEmpty | modules/blocks/io.go:71-77 | The kept tokens are non-empty and taken from the input. |
| BlockIO.NonEmptyKeepsAll | modules/blocks/io.go:71-77 | Dropping empty tokens keeps every non-empty one, in order. |
| BlockIO.WordsOfJoin | modules/blocks/io.go:69-77 | Words joined by single spaces come back unchanged. |
| BlockIO.LegacyQuery | modules/blocks/io.go:68-84 | A legacy query exactly when there are two non-empty space-separated tokens and the second is a 64-bit decimal. Its name is the first token and its value the second, truncated to uint16. |
| BlockIO.LegacyQueryOf | modules/blocks/io.go:68-83 | `name value` is always read as that name and the value truncated to uint16. |
| BlockIO.BlockStrToRuntimeID | modules/blocks/io.go:67-89 | Trims the input. A legacy query goes to the NEMC legacy search; anything else goes to the state search on the split name and parsed state. |
| BlockIO.RuntimeIDToState | modules/blocks/io.go:20-26 | An unknown runtime ID gives `"air"`, nil, not found; a known one gives the block's short name and state NBT. |
| BlockIO.RuntimeIDToBlockNameWithStateStr | modules/blocks/io.go:29-35 | Unknown: `"air []"`, not found; known: the block's Bedrock string. |
| BlockIO.RuntimeIDToBlockNameAndStateStr | modules/blocks/io.go:37-43 | Unknown: `"air"`, `"[]"`, not found; known: short name and state string. |
| BlockIO.BlockNameAndStateToRuntimeID | modules/blocks/io.go:45-54 | An unconvertible property map gives the air runtime ID, not found. Otherwise the NEMC state search. |
| BlockIO.BlockNameAndStateStrToRuntimeID | modules/blocks/io.go:56-65 | An unparsable state gives the air runtime ID, not found. Otherwise the NEMC state search. |
| BlockIO.RuntimeIDToJavaBlockStr | modules/blocks/io.go:132-142 | An unknown runtime ID, or no Java match, gives `"minecraft:air"`, not found. Otherwise the matched block's display string. |
| BlockIO.RuntimeIDToJavaBlockNameAndState | modules/blocks/io.go:145-155 | Unknown or unmatched: `"air"`, nil, not found. Otherwise the Java name and its properties as NBT. |
| BlockIO.BedrockBlockStrToJavaBlockStr | modules/blocks/io.go:158-165 | Splits the block string and searches the Java table. No match gives `"minecraft:air"`, not found. |
| BlockIO.BedrockBlockNameAndStateToJavaBlock | modules/blocks/io.go:168-178 | An unconvertible property map, or no match, gives `"air"`, nil, not found. Otherwise the Java name and properties. |
| BlockIO.RuntimeIDToJavaBlockNameAndStateStr | modules/blocks/io.go:181-191 | Unknown or unmatched: `"air"`, `"[]"`, not found. Otherwise the Java name and SNBT. |
| ContainerParse.KeywordTests | parse.go:171-180 | A block is a container exactly when its name contains one of the nine keywords, tested as the source tests them. |
| ContainerParse.KeywordMakesContainer | parse.go:171-184 | Any name containing a keyword is a container. |
| ContainerParse.BlastFurnaceImpliesFurnace | parse.go:178-180 | The `blast_furnace` test is subsumed by the `furnace` test. |
| ContainerParse.EnchantmentsOf | parse.go:251-266 | At most one enchantment per list entry. |
| ContainerParse.ItemsOf | parse.go:215-272 | At most one item per list entry, and every kept item has a non-empty name. |
| ContainerParse.ItemsOfAppend | parse.go:215-272 | Items are read entry by entry: the items of a concatenation are the items of each part, in order. |
| ContainerParse.ItemsFromEntries | parse.go:215-219 | Every item comes from a compound entry of the list; other entries are skipped. |
| ContainerParse.SingleCompoundIsOneItem | parse.go:209-210 | A single compound under `Items` is read as a one-element list. |
| ContainerParse.EmptyNameDropsItem | parse.go:224-271 | An item whose `Name` is the empty string is dropped even when it has an `id`. |
| ContainerParse.ParseEnchantments | parse.go:250-267 | The loop gives one enchantment per compound entry, in order. The `id` is read when it is a string, and `lvl` from an int16 or an int, else 0. |
| ContainerParse.ParseItem | parse.go:221-267 | The name is `Name` if a string, else `id` if a string, else empty. `Count`/`Slot` come from a byte or an int, else 0. `CustomName` is read if a string, and enchantments only from a list. |
| ContainerParse.ParseItems | parse.go:215-272 | The loop keeps the items of the compound entries that have a non-empty name, in order. |
| ContainerParse.ParseContainer | parse.go:169-275 | Nil exactly when the name contains no keyword. Otherwise the given name and x/y/z, `CustomName` only from a string, and the items of `Items`. A missing or non-list, non-compound `Items` gives no items; a single compound is a one-element list. |
| StringSort.LessIrreflexive | main.go:809 | No string is below itself in Go's string order. |
| StringSort.LessTransitive | main.go:809 | Go's string order is transitive. |
| StringSort.LessTotal | main.go:809 | Any two strings are equal or ordered. |
| StringSort.LessAsymmetric | main.go:809 | Never `a < b` and `b < a`. |
| StringSort.LessEqAntisymmetric | main.go:809 | `a <= b` and `b <= a` imply `a == b`. |
| StringSort.LessThenLessEq | main.go:809 | `a < b <= c` implies `a <= c`. |
| StringSort.SortedUnique | main.go:1066-1072 | Two ascending lists with the same elements are equal: the sorted result does not depend on input order. |
| StringSort.ExchangeSort | main.go:807-813 | The in-place nested-loop exchange sort leaves the array ascending and a permutation of its input. |
| StringSort.GetSupportedFormats | main.go:1060-1075 | The registered format names, ascending, as a permutation of the registry. |
| StringSort.LowerCaseSuffixTrimmed | main.go:798-804 | A file `stem.mcstructure` is listed as `stem`. |
| StringSort.UpperCaseSuffixKept | main.go:798-804 | A file `stem.MCSTRUCTURE` is listed, with its suffix kept. |
| StringSort.DirectoriesSkipped | main.go:799 | A directory is never listed. |
| StringSort.ListMCWorldStructures | main.go:785-816 | The listed names are the structure files' names, ascending, as a permutation. |
| Selection.MinInt32 | main.go:1579-1584 | The smaller argument. |
| Selection.MaxInt32 | main.go:1586-1591 | The larger argument. |
| Selection.DigitsEndIsRun | main.go:38 | `\d+` takes the whole run of digits and stops at a non-digit. |
| Selection.NumberEndIsToken | main.go:38 | What is read is a `-?\d+` token. |
| Selection.FieldsAreNumbers | main.go:38 | Every captured field is a `-?\d+` token. |
| Selection.MatchIsNumbers | main.go:38 | A match captures six `-?\d+` tokens. |
| Selection.FirstMatchAt | main.go:1551 | The leftmost position where the pattern matches, or none when it matches nowhere. |
| Selection.Corners | main.go:1574-1576 | The start is no greater than the end in each coordinate, and per axis the two are the two given values. |
| Selection.ParseSelectionBounds | main.go:1550-1577 | `ok` exactly when the pattern is found and all six numbers fit in int32. Then the least and greatest corners of the two written ones; otherwise zero positions. |
| Selection.FieldsOfInterleave | main.go:38 | Written numbers, each followed by its separator, are read back as the same tokens. |
| Selection.MatchOfSelectionText | main.go:38 | The pattern matches a written selection at its start, capturing its six numbers. |
| Selection.ParseInt32OfDecimal | main.go:1556-1562 | A written int32 parses back to itself. |
| Selection.BoundsOfTokens | main.go:1564-1576 | Six parsed int32 captures give the box they span. |
| Selection.SelectionRoundTrip | main.go:1550-1577 | Writing `@[x1,y1,z1]~[x2,y2,z2]` and parsing it gives `ok` with the least and greatest corners. |
| CommandLine.Listed | main.go:52-57 | The range loop finds a string exactly when it is in the list. |
| CommandLine.IsCommand | main.go:41-58 | True exactly for the listed command words and aliases. |
| CommandLine.IsStructureFile | main.go:194-208 | True exactly for the seventeen listed structure extensions. |
| CommandLine.IsImageFile | main.go:211-219 | True exactly for the six listed image extensions. |
| CommandLine.ExtensionsStartWithDot | main.go:194-219 | Documents the extension lists: every accepted extension is a dot followed by at least one character. |
| CommandLine.ExtensionsDisjoint | main.go:194-219 | Documents the extension lists: no extension is both a structure format and an image. |
| CommandLine.CommandIsNotExtension | main.go:41-57 | Documents the command and extension lists: no command word is accepted as a file extension. |
| CommandLine.ScanConvertArgs | main.go:423-431 | `--fast` anywhere after the target format sets fast mode. The output path is the first later argument that is neither `--fast` nor empty, or empty when there is none. |
| CommandLine.ScanMapartArgs | main.go:456-468 | The options are a suffix of the arguments after the world path. They start at the first `--` argument, or at the first argument after the output path was set. Before them no argument starts with `--` and all are empty except the output path, which is the last one read. |

## Left out

- Locking: the `sync.RWMutex` of each group, and the fast path that reads without it, are not modelled. Every operation is sequential.
- Code not shown is passed in as function values, with no properties assumed beyond their types (one exception is listed below):
  - the search-side property sets (parsing, canonical key, property count, comparison, conversion to NBT);
  - `BlockNameForSearch(...).BaseName()`;
  - `AlterInOutSnbtBlock`;
  - the NEMC convertor and the runtime-ID palette (`MC_CURRENT`, `DefaultAnyToNemcConvertor`).
- Pointer identity is not modelled. Java blocks are values, so the target identity test of `addAnchorByState` becomes equality of their display strings, which reference equality implies.
- A nil Java block passed as an insert target is not modelled: targets are always values, and a nil slot is an unset one.
- `getBaseNameGroup` is inlined into the lookups.
- The `ToJavaConvertor` content is mirrored in a ghost map from base name to group content. Its invariant ties every group object to that map.
- The group lookups that take a nil state use the canonical key of nil, as the source does. The insert uses `"{}"` for nil. Whether the two agree depends on the property library, which is not part of this model.
- `ComparedOutput` is taken to hold uint8 counts, as the assignment of `uint8(NumProps())` to `Same` implies. The penalty sum is computed modulo 256.
- The reassignment of `inBlockState` to `"{}"` in `TryAddJavaConvert` is not modelled: the value is never read afterwards.
- Output is not modelled:
  - the printing of the three counters at the end of generation (the counters are returned instead);
  - the `fmt.Println` of parse errors in the blocks package.
- `RuntimeIDToBlock` and `LegacyBlockToRuntimeID` are direct calls into the palette and the NEMC convertor, and are left out.
- `JavaBlockStrToRuntimeID` is an alias of `BlockStrToRuntimeID` and has no member of its own.
- The schematic tables and their lookups (`SchematicToRuntimeID`, `GetSchematicMapping`, `RuntimeIDToSchematic`) are not part of this model.
- `ToLowerAscii`: `strings.ToLower` is modelled on ASCII letters only. A non-ASCII letter in a structure file name is not lowered.
- `GetSupportedFormats`: the registry's map iteration order is an input, since Go's map order is unspecified.
- `ListMCWorldStructures`: the directory entries are an input. The missing-directory and read-error returns of `os.Stat`/`os.ReadDir` are not modelled.
- `ScanConvertArgs`, `ScanMapartArgs`: the `len(os.Args) < 4` usage exit is their precondition. The dispatch, the conversions they call and the other commands are I/O and are left out.
- Interactive menus, file, directory, archive and world I/O, map-art generation, encryption, report drawing in `parse.go` and `quota.go` are I/O or use floating point, and are not modelled.
- The Go `int` fields of containers and items are unbounded integers.
- `Selection.FindSubmatch`: its contract states only that six fields are captured. Their shape and the leftmost-match rule are stated by `MatchIsNumbers` and `FirstMatchAt`.
- BlockIO.ConvertStringToBlockNameAndPropsForSearch: when `PropsForSearchFromStr` reports an error, the Go code returns whatever property set the parser returned with it. The model returns nil there, assuming the parser, which is not part of this model, returns nil with its errors.

## Findings

| source | as written | input that shows it | evidently intended | confidence | as-written member | corrected member |
|---|---|---|---|---|---|---|
| modules/blocks/convertor/to_java.go:131 | `int(legacyValue+1) <= len(...)` adds 1 in uint16 before converting. The same test guards lines 111, 123, 143 and 148. | legacyValue 65535 on a group with at most 65535 slots: 65535+1 wraps to 0, the test passes, and `legacyValuesMapping[65535]` indexes out of range (a panic). | `int(legacyValue)+1 <= len(...)`: 65535 is then out of range, the lookup reports not found, and an insert grows the table. | not executed | ToJava.AsWrittenPanicsAtMaxLegacyValue | ToJava.InsertThenPreciseLegacy |
| modules/blocks/convertor/to_java.go:111 | `addAnchorByLegacyValue` tests `int(legacyValue+1) <= len(...)` with the addition in uint16. | Inserting legacy value 65535 into a group with at most 65535 slots: the test passes on 0, and `legacyValuesMapping[65535]` indexes out of range (a panic). | The table grows to 65536 slots and slot 65535 holds the target. | not executed | ToJava.AsWrittenInsertPanicsAtMaxLegacyValue | ToJava.InsertThenPreciseLegacy |
| modules/blocks/convertor/to_java.go:143 | `fuzzySearchByLegacyValue` tests `int(legacyValue+1) <= len(...)` with the addition in uint16, for the slot and for the anchors (line 148). | Best-effort lookup of legacy value 65535 in a group with at most 65535 slots: the first test passes on 0, and `legacyValuesMapping[65535]` indexes out of range (a panic). | Falls back to the anchor at 65535, then the first anchor, then air. | not executed | ToJava.AsWrittenFuzzyPanicsAtMaxLegacyValue | ToJava.BestLegacy |

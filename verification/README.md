# utaformatix-ts: the format adaptation and track-splitting layer in Dafny

This project models the layer of utaformatix-ts that sits between callers and the
conversion engine. That layer is the only part with logic of its own:

- **Dialect translators** (`translate.ts`). `removeBreaths` drops the UTAU breath notes, whose lyric ends in `R`. `replaceVowelConnections` rewrites lyric characters with `String.prototype.replace` and a global regular-expression class.
- **Parse dispatch** (`base.ts`, `typescript/mod.ts`). Raw bytes are wrapped as files named `data.<ext>`, or `data_<i>.<ext>` for the multi-file UST parser. `parseAny` picks a parser from the lower-cased text after the last `.` of a file name through the 13-entry `parseFunctions` table. It throws `No file extension` or `Unsupported file extension: <ext>`.
- **Archive track-splitter**. `createUnzip` (in `base.ts`) and `createMultiGenerate` (in `typescript/mod.ts`) read an integer track key from each archive member's name, stably sort the members by key, and return their payloads. The two variants read the key differently.
- **Lyric option default**. `convertJapaneseLyrics` converts vowel connections unless the caller passes `false` explicitly.
- **The `Project` facade** (`project.ts`). It covers the copy in `toUfDataObject`, the getters, the `"auto"` lyric-type resolution, construction through the parsers, and export through the generators.

The conversion engine (`core.js` / `built.mjs`) is foreign code. It appears only as function-typed parameters: a parse engine, a single-file and an archive generator, a lyric analyzer and a lyric converter. An archive is given already decompressed, as a sequence of `(name, bytes)` members. Values are immutable, so `structuredClone` is the identity.

The files:

- `results.dfy`: `Option` and `Result`.
- `canonical.dfy`: the canonical project data (`UfData`).
- `jsstring.dfy`: the ECMAScript string built-ins the layer uses: `endsWith`, `indexOf`, `replace` with a string pattern, `split`, `pop` of a split, ASCII `toLowerCase`, `parseInt` with and without a radix, and the UTF-8 encoding a `File` applies to text.
- `translate.dfy`: the two translators.
- `stablesort.dfy`: a stable sort on `(key, value)` pairs and its characterisation.
- `archive.dfy`: the splitter shared by both variants.
- `parsers.dfy`: the parser enumeration and the extension table.
- `base.dfy`: the lower-level library.
- `tsmod.dfy`: the older TypeScript entry point.
- `project.dfy`: the facade.

## Model

| member | source | states |
|---|---|---|
| Translate.RemoveBreaths | translate.ts:12-17 | name and pitch kept; no remaining lyric ends in `R`; the result is a subsequence of the notes (same notes, same relative order) |
| Translate.WithoutBreaths | translate.ts:15 | the filter never lengthens the notes and keeps no note whose lyric ends in `R` |
| JsString.EndsWith | translate.ts:15 | a string ends with a suffix only when the suffix fits in it, and every string ends with the empty suffix |
| JsString.EndsWithPointwise | translate.ts:15 | `endsWith` holds exactly when the suffix fits and matches the string's tail character by character |
| JsString.EndsWithOneChar | translate.ts:15 | `endsWith("R")` holds exactly when the lyric is non-empty and its last character is `R`; the empty lyric is kept |
| Translate.WithoutBreathsCounts | translate.ts:15 | each note occurs in the result as often as in the input unless it is a breath, in which case it does not occur: the filter keeps exactly the non-breath notes |
| Translate.RemoveBreathsKeepsCountIff | translate.ts:15 | the note count is unchanged if and only if no lyric ends in `R` (otherwise it strictly shrinks) |
| Translate.RemoveBreathsIdempotent | translate.ts:15 | removing breaths twice equals removing them once |
| Translate.RemoveBreathsFourNotes | translate.test.ts:10-14 | a four-note track with one `R` note keeps the other three, in order |
| Translate.ReplaceVowelConnections | translate.ts:25-33 | track name and pitch kept, note count kept, every note equal to the original except for its lyric, and each lyric is the global class replacement of the original |
| Translate.Substitution | translate.ts:30 | the replacement text of one match: a template without `$` is inserted literally, and `$&` inserts the matched character |
| Translate.ReplaceAll | translate.ts:30 | `replace` with a global one-character class leaves a string with no class character unchanged, whatever the replacement, and leaves every string unchanged with the replacement `$&` |
| Translate.ReplaceAllPointwise | translate.ts:30 | with a one-character replacement the lyric keeps its length, and position by position a class character becomes the replacement while any other character stays |
| Translate.ReplaceAllIsLiteral | translate.ts:30 | a replacement text without `$` is inserted literally for every class character (agrees with an independent character-by-character definition) |
| Translate.ReplaceFromWithMatch | translate.ts:30 | the replacement `$&` puts every match back, so the lyric is unchanged (the `$` patterns of `replace` are honoured) |
| Translate.ReplaceVowelConnectionsDefault | translate.ts:25-30 | with the default `ー` every lyric keeps its length and each character of U+002B..U+30FC becomes `ー` |
| Translate.ReplaceVowelConnectionsIdempotent | translate.ts:25-30 | with any one-character replacement, the default included, applying twice equals applying once |
| Translate.ReplaceVowelConnectionsNoMatch | translate.ts:30 | a track whose lyrics hold no character of the range comes back unchanged |
| Translate.VowelConnectionMarksInRange | translate.ts:20-30 | `+`, `-` and `ー` all lie in the class, so all three are replaced |
| Translate.RangeClassRewritesKana | translate.ts:30 | the class as written turns the lyrics `あ` and `a` into `ー`, while the marks-only class keeps them |
| Translate.ReplaceVowelConnectionMarks | translate.ts:20-24 | the marks-only replacement keeps every field except lyrics, and rewrites each lyric with the three-mark class |
| Translate.ReplaceVowelConnectionMarksOnlyMarks | translate.ts:20-24 | with a one-character replacement exactly `+`, `-` and `ー` are replaced; everything else is kept |
| JsString.RemoveFirst | base.ts:61 | `replace(pat, "")` removes the first occurrence of `pat` wherever it is, and leaves the name alone when there is none |
| JsString.IndexOf | base.ts:61 | the position found is an occurrence and no earlier position is one; no position is an occurrence when none is found |
| JsString.RemoveFirstOfPrefix | base.ts:61 | a pattern at the start of the name is the occurrence removed |
| JsString.Split | base.ts:61 | `split` gives at least one token and no token holds the separator |
| JsString.JoinSplit | base.ts:61 | joining the tokens with the separator gives back the split string |
| JsString.SplitJoin | base.ts:61 | splitting a join of separator-free parts gives back the parts |
| JsString.LastToken | base.ts:178 | the last token is a separator-free suffix that is the whole string or is preceded by the separator |
| JsString.LastTokenIsLastOfSplit | base.ts:178 | the last token is what `split(".").pop()` returns |
| JsString.ToLowerCaseIdempotent | base.ts:178 | lower-casing is idempotent and gives the empty string only for the empty string |
| JsString.ToLowerCase | base.ts:178 | lower-casing keeps the length and maps each character on its own: `A`-`Z` to `a`-`z`, everything else unchanged |
| JsString.ParseInt | base.ts:60-63 | a negative result needs a `-` as the first character after the white space; with radix 10 a string that starts with a decimal digit always gives a non-negative number |
| JsString.ParseIntNeedsSignOrDigit | base.ts:60-63 | `NaN` unless the first character after the leading white space is a sign or a decimal digit |
| JsString.ParseIntOfNatToString | base.ts:60-63 | `parseInt` with radix 10, and without a radix, reads back the decimal rendering of any natural number |
| JsString.NatToStringInjective | base.ts:32 | distinct indices render as distinct decimal strings |
| Parsers.ParserExtension | base.ts:80-156 | each parse function's own extension is lower-case, has no dot, and is made of letters and digits |
| Parsers.ParseFunctionsCount | base.ts:160-174 | the table has exactly 13 entries |
| Parsers.ParserFor | base.ts:160-174 | an extension is mapped if and only if it is one of the 13 keys; `xml` and `musicxml` both give MusicXML; `mid` gives Standard MIDI; the Vocaloid MIDI parser is never chosen; apart from `xml`, the chosen parser's own extension is the one looked up |
| Parsers.ParseFunctionsRouteBack | base.ts:160-174 | every parser except Vocaloid MIDI is what its own extension dispatches to |
| Base.SingleParseFile | base.ts:14-24 | the file handed to a single-file parser carries the input's bytes, and a given file is passed unchanged |
| Base.MultiParseFiles | base.ts:26-37 | one file per argument, in argument order, the i-th wrapping the i-th argument |
| Base.MultiParseOfOne | base.ts:31-33 | one raw argument becomes the single file `data_0.<ext>`; one given file is passed unchanged |
| Base.MultiParseNamesDistinct | base.ts:31-33 | raw arguments get pairwise distinct names |
| Base.Parse | base.ts:14-37 | one call of a parse function hands the engine exactly one file: a given file unchanged, raw bytes as `data_0.ust` for the UST parser and as `data.<ext>` for every other parser |
| Base.ParseUst | base.ts:122-126 | a single argument is the same as the one-argument UST parse, and arguments that are all files reach the engine unchanged, in order |
| Base.ParseAny | base.ts:177-184 | `No file extension` exactly when the name is empty or ends in `.`; `Unsupported file extension` exactly when the extension is non-empty and not a table key, carrying that extension; otherwise the file's bytes go to the table's parser and engine errors pass through unchanged |
| Base.Extension | base.ts:178 | the extension is lower-case and dot-free, empty exactly when the name is empty or ends in `.`, and the whole name lower-cased when the name has no dot |
| Base.ExtensionOfDottedName | base.ts:178 | the extension of `prefix.ext` is `ext` lower-cased for every prefix and every dot-free `ext` (`song.MusicXML` dispatches as `musicxml`) |
| Base.ExtensionOfUpperUst | base.ts:178 | one instance of the folding: the extension of `prefix.UST` is `ust` |
| Base.ParseAnyOfUstName | base.ts:177-184 | a file with extension `ust` reaches the UST parser as the single file `data_0.ust` |
| Base.ParseAnyOfWrappedFile | base.ts:177-184 | re-dispatching the `data.<ext>` file a single-file parser builds reaches that same parser, for all parsers except Vocaloid MIDI and UST |
| Base.TrackKeyOfTrackFileName | base.ts:59-63 | for `{project}_{i}_{track}.{ext}` the key is `i`, for every project and track name |
| Base.TrackKeyOfPlainName | base.ts:60-63 | a member name without `_` is read whole with `parseInt(…, 10)`, whatever the project is called |
| Base.TrackKey | base.ts:59-63 | the key `createUnzip` reads from a member name; an empty name has no key (`NaN`). Its other facts are `Base.TrackKeyOfTrackFileName` and `Base.TrackKeyOfPlainName`, stated apart so that proofs unfolding the key do not carry them |
| Base.SplitTracks | base.ts:49-71 | one payload per member, and the payloads are a permutation of the members' payloads |
| Base.SplitTracksOrdered | base.ts:68-70 | payloads come out by non-decreasing key, and members with equal keys keep enumeration order |
| Base.SplitTracksInTrackOrder | base.ts:55-70 | when members are named after a permutation of track indices 0..n-1, output i is the payload of track i, whatever the enumeration order |
| Base.TenTracksComeOutInOrder | base.test.ts:47-68 | ten tracks listed in reverse come out with note numbers 60, 62, 64, 65, 67, 69, 71, 72, 74, 76 |
| Base.GenerateSplit | base.ts:240-248 | an engine error passes through; otherwise the output is the track split of the engine's archive against the project's name, a permutation of the members' payloads |
| Base.ConvertVowelConnections | base.ts:263 | the flag is false exactly when the options are present and say `false` explicitly |
| Base.ConvertJapaneseLyrics | base.ts:257-273 | the converter gets the data and both lyric types unchanged, and converts vowel connections unless the option is an explicit `false` |
| Archive.SplitByKey | base.ts:55-70 | sorting by key keeps one payload per member and permutes the payloads |
| Archive.SplitByKeyOrdered | base.ts:68-70 | the sorted pairs are ordered by key and, key by key, in enumeration order |
| Archive.SplitByKeyInIndexOrder | base.ts:55-70 | keys forming a permutation of 0..n-1 place the member with key i at position i |
| Archive.SplitByKeyOfPair | base.ts:68-70 | two members come out in listed order when the first key is not larger, swapped otherwise |
| StableSort.SortValues | base.ts:68 | the sorted values are a permutation of the input values |
| StableSort.Sort | base.ts:68 | the sort keeps the length, permutes the pairs, and orders them by key |
| StableSort.SortIsStable | base.ts:68 | for every key, the sorted pairs with that key are the input pairs with that key, in input order |
| StableSort.SortCharacterized | base.ts:68 | any key-ordered sequence with the same pairs per key, in the same order, equals the sort: stability fixes the result uniquely |
| TsMod.ParseFile | typescript/mod.ts:11-22 | raw bytes become a file with those bytes whose extension is the parser's own, the UST parser included (`data.ust`) |
| TsMod.Parse | typescript/mod.ts:11-22 | every parser but the UST one is handed exactly the file the lower-level single-file parse builds; the UST parser gets `data.ust` |
| TsMod.ParseAny | typescript/mod.ts:132-139 | the same error conditions, messages and table as `Base.ParseAny`; a known extension hands the bytes to that parser |
| TsMod.ParseAnyRejectsAlike | typescript/mod.ts:132-139 | both entry points reject exactly the same files with exactly the same error, whatever their engines |
| TsMod.TrackKey | typescript/mod.ts:48 | a name without `_` has no second token and gives no key |
| TsMod.TrackKeyOfTrackFileName | typescript/mod.ts:48 | for a project name without `_` the second token is the track index, the same key the lower-level reading gives |
| TsMod.SplitTracks | typescript/mod.ts:38-56 | one payload per member, a permutation of the members' payloads |
| TsMod.SplitTracksOrdered | typescript/mod.ts:53-55 | payloads come out by non-decreasing key, stably |
| TsMod.SplitTracksInTrackOrder | typescript/mod.ts:44-55 | for a project name without `_` and members named after a permutation of 0..n-1, output i is track i's payload |
| TsMod.GenerateSplit | typescript/mod.ts:179-187 | an engine error passes through; otherwise the output is this entry point's track split of the engine's archive, a permutation of the members' payloads |
| TsMod.GenerateSplitInTrackOrder | typescript/mod.ts:38-56 | for a project name without `_` and members named after a permutation of 0..n-1, generated output i is track i's payload |
| TsMod.SecondTokenOfSubProject | typescript/mod.ts:48 | in a project named `<head>_<sub>`, the key of every track file is read from `sub`, not from the track index |
| TsMod.SubProjectMisordersTracks | typescript/mod.ts:48 | for such a project, two tracks listed as track 1 then track 0 stay in that order under this reading and are put in track order by the lower-level one |
| TsMod.UnderscoreProjectNameMisordersTracks | typescript/mod.ts:48 | a project named `<head>_1` gives both tracks key 1, so the split returns track 1's payload first |
| TsMod.SplitTracksCorrected | typescript/mod.ts:44-55 | the corrected split keeps one payload per member and permutes the payloads |
| TsMod.SplitTracksCorrectedInTrackOrder | typescript/mod.ts:44-55 | the corrected split restores track order whatever the project name |
| ProjectFacade.ToUfDataObject | project.ts:18-20 | the copy wraps back into an equal project |
| ProjectFacade.GettersReassemble | project.ts:53-75 | the five getters together give back the project part of the data |
| ProjectFacade.ConvertJapaneseLyrics | project.ts:36-48 | an explicit source type is forwarded unchanged; `auto` forwards the analyzer's verdict; target type and vowel-connection choice are forwarded; the result is a new project |
| ProjectFacade.AutoIsDetectedType | project.ts:41-46 | `auto` is the same as passing the detected type explicitly |
| ProjectFacade.VowelConnectionsDefaultOn | base.ts:263 | no options, options without the field, and `true` all convert the same way |
| ProjectFacade.From | project.ts:79-197 | a single-file `fromX` succeeds exactly when the engine does on `data.<ext>`, with the engine's data or error |
| ProjectFacade.FromUst | project.ts:151-157 | `fromUst(data, params)` hands the engine exactly two files: `data_0.ust` with the bytes of one raw input (a given file passes unchanged), or with the text of an array input; and `data_1.ust` with the UTF-8 of `undefined` or `[object Object]` |
| ProjectFacade.RestList | project.ts:156 | the rest list of `parseUst` always has two values: the input (an array stays one value) and the options, `undefined` when omitted |
| ProjectFacade.RestFile | base.ts:31-33 | a value of the rest list that is an input becomes the file a multi-file parse makes of it; any other value becomes `data_<i>.ust` holding the UTF-8 of its string |
| JsString.Utf8 | base.ts:32 | the bytes a `File` stores for a string: one to four per character |
| JsString.Utf8OfAscii | base.ts:32 | an ASCII string is stored byte for byte |
| ProjectFacade.FromUstOfBytesSendsTwoFiles | project.ts:156 | `fromUst(bytes)` hands the engine `data_0.ust` with the bytes and `data_1.ust` with the text `undefined`, where the corrected call hands it `data_0.ust` alone |
| ProjectFacade.FromUstOfArrayMergesInputs | project.ts:156 | `fromUst([[1, 2], [3]])` hands the engine one file `data_0.ust` holding the text `1,2,3`: the array is not spread |
| ProjectFacade.FromUstCorrected | project.ts:151-157 | with the inputs spread, the engine gets one file per input, in order, each with its input's bytes, and one input is the one-argument UST parse |
| ProjectFacade.FromAny | project.ts:199-205 | `fromAny` succeeds, fails and reports errors exactly as `Base.ParseAny` does |
| ProjectFacade.FromAnyOfDotlessName | project.ts:199-205 | a dot-free name is rejected with the lower-cased name in the message, unless that name is itself a table key |
| ProjectFacade.FromAnyOfUstFile | project.ts:199-205 | `X.ust` and `X.UST` both parse as the single UST file `data_0.ust` |
| ProjectFacade.ToFile | project.ts:209-267 | `toX()` is the generator applied to the project's data |
| ProjectFacade.ToTracks | project.ts:269-283 | `toUst()` / `toMusicXml()` pass engine errors through; otherwise they give the track split of the engine's archive against the project name: one payload per member, a permutation of the payloads |
| ProjectFacade.ToTracksInTrackOrder | project.ts:269-283 | members named after a permutation of track indices come out in track order, for every project name |

## Left out

- The conversion engine (`core.js`, `built.mjs`) is left out: every codec, `projectToUfData`/`ufDataToProject`, `ufdataGenerate`/`ufdataParse`, and the lyric analyzer and converter. These are foreign code and appear only as uninterpreted function parameters.
- JSZip decompression, `File`/`Blob`/`arrayBuffer`, `TextEncoder`/`TextDecoder`, JSON round trips, `async`/`Promise` and the exception classes are runtime plumbing. An archive is given already decoded, a thrown error is the `Err` case, and engine exceptions are one `EngineError` enumeration.
- The `params` argument of `project.ts` is never read as parse options by any parser. The single-file parsers and `parseAny` declare one parameter, so JavaScript drops the extra argument. `parseUst` gathers it into its rest list, where it becomes a second file (`ProjectFacade.FromUst`). The fields of the options object are not modelled. The empty import params of `typescript/mod.ts` are constant and not an argument either.
- `Base.SplitTracks` requires every member name to give an integer key (`AllTrackKeyed`). A `NaN` key makes the comparator inconsistent, and the order JavaScript then produces is unspecified.
- `Parsers.ParserFor`: lookups of prototype keys such as `constructor` on the `parseFunctions` object are not modelled. The table is a finite map.
- `JsString.ParseInt`: digits are read as an exact integer. The loss of precision above 2^53 is not modelled.
- `JsString.ToLowerCase` maps only `A`-`Z`. Non-ASCII case mapping changes only the text of the unsupported-extension message, never which parser is chosen.
- `project.ts` also calls `parseTssln`, `parseUfData`, `generateTssln`, `generateUfData`, `ParseParams` and `GenerateParams`. this version of `base.ts` defines none of them, so `fromTssln`, `fromUfData`, `toTssln` and `toUfData` are not part of this model.
- `ProjectFacade.ConvertJapaneseLyrics` and `ProjectFacade.ToFile`: immutability of the receiver and the fresh copy per `toX` hold by construction, because values are immutable. They are not separate contracts.
- The generate functions of both entry points other than the archive ones are pass-throughs to the engine (`Base.Generate`).
- Build scripts, code generation, packaging shims, `mod.ts` (re-exports only) and the test harness are outside the layer.

## Findings

| source | as written | input that shows it | evidently intended | confidence | as-written member | corrected member |
|---|---|---|---|---|---|---|
| translate.ts:30 | the class `[+-ー]` is a range from U+002B to U+30FC, so it also matches digits, Latin letters, hiragana and most katakana | a note with lyric `あ` (or `a`) becomes `ー` | replace only the three characters written in the class, `+`, `-` and `ー`, i.e. `[+\-ー]` (the doc comment names no characters; the literal list is the reading that matches the "vowel connection" name) | medium, not executed | Translate.RangeClassRewritesKana | Translate.ReplaceVowelConnectionMarksOnlyMarks |
| typescript/mod.ts:48 | the key is token 1 of the name split on `_`, which is part of the project name when that name contains `_` | project `a_1`, archive listing `a_1_1_B.ust` before `a_1_0_A.ust`: both keys are 1 and the output is track 1, track 0 | strip the project name first, as `base.ts` lines 59-63 do, so the key is the track index | high, not executed | TsMod.UnderscoreProjectNameMisordersTracks | TsMod.SplitTracksCorrectedInTrackOrder |
| project.ts:156 | `base.parseUst(data, params)` passes the input and the options as two arguments of a rest parameter (base.ts:30), so the options become a second file and an array input is not spread | `fromUst(bytes)` sends `data_0.ust` and a second file `data_1.ust` holding `undefined`; `fromUst([a, b])` sends one file holding the text of the array | spread the inputs, as `base.parseUst(...(Array.isArray(data) ? data : [data]))`, one file per input | medium, not executed (`project.ts` may target a `parseUst` signature that this version of `base.ts` lacks) | ProjectFacade.FromUstOfBytesSendsTwoFiles | ProjectFacade.FromUstCorrected |

Each row models the code as written, with the corrected behaviour proved next to it. Outside the findings, everything follows `base.ts`, `typescript/mod.ts`, `translate.ts` and `project.ts`. With any one-character replacement the range class is still idempotent (`Translate.ReplaceVowelConnectionsIdempotent`). The reason is that every character the first pass writes is either the replacement or a character the class does not match.

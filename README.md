# Bulk perfume import: a Dafny model

This project models the core of the admin component for bulk perfume import (`src/components/BulkPerfumeScraping.js`).

An operator adds one row per brand and uploads a text or JSON file of product-page links into each row. A brand label is derived from the file name. On submit, every file is turned into a list of Fragrantica product links. The list is deduplicated when the file is split into lines, but not when it is a JSON array. The request `{ brands: [{ brandName, perfumeLinks }] }` is posted. The component then polls the job status every two seconds until the job reports `completed` or `failed`, or until the operator cancels. The model covers the component's state and handlers; its rendering and the items under "Left out" are not modelled.

The model has these modules:

- `Wrappers`: the `Option` type.
- `Text`: the string primitives the component relies on, working on ASCII:
  - `indexOf`/`includes`, `split` on a string, `join`;
  - `trim`;
  - `split(/\s+/)`.
- `BrandName`: `extractBrandName`.
  - The pure specification is `BrandNameOf`.
  - The method `ExtractBrandName` keeps the source's suffix loop with its `break`.
- `LinkParser`: `parseFileContent` once the file has been read.
  - `ParsedLinks` is the specification of the value the promise resolves with.
  - The method `ParseFileContent` keeps the reassignment of `urls` and `lines` through the if-chains.
  - The outcome of `JSON.parse` is an input (`JsonOutcome`).
- `BrandEntries`: the rows and the list operations.
  - The list operations are `addBrandItem`, `removeBrandItem`, `updateBrandItem`, `handleFileUpload` and `validateForm`.
  - Each one rebuilds the list with `map`, `filter` or spread, so each is a function on sequences.
  - The invariant they keep is "at least one row, ids unique".
- `RequestBuilder`: the loop of `handleSubmit` that builds the request body, written as a method with a loop invariant.
- `ImportJob`: the component's state and the events that change it.
  - The events are cancel, the row edits, submit, the POST reply, an interval tick, and a status reply that arrives after its interval was cleared.
  - The stage text under the progress bar is part of this module.
  - `JobState` and `Step` give the effect of each handler on the state.
  - The class `BulkScraping` holds the same state in fields, and its handler methods update those fields in place. Each method is proved to produce `Step` of the old state.

### Behaviour worth knowing

Each point below is how the code behaves, and each is proved as a lemma.

- **The JSON branch keeps repeated links.** The JSON branch only filters by prefix. A JSON array that repeats a link therefore returns it twice (`LinkParser.JsonKeepsRepeats`). The line-splitting fallback does deduplicate (`LinkParser.LineLinksShape`).
- **Ids can be handed out again.** A new id is the largest remaining id plus one. Removing the row with the largest id and then adding a row gives out that id again (`BrandEntries.IdReusedAfterRemovingLast`).
- **A late status reply is applied.** A status reply that settles after a cancel still updates the state, and a `completed` reply then stores its results (`ImportJob.LateReplyAfterCancelApplied`).
- **Cancel keeps the status message.** Cancel does not reset `statusMessage` (`ImportJob.CancelResets`).
- **Submit keeps the status message.** `handleSubmit` resets loading, progress and results but not `statusMessage`. After a finished job, a resubmission therefore shows the previous job's server message, not the stage text, until a successful status reply replaces it (`ImportJob.SubmitKeepsStatusMessage`).
- **A rejected POST keeps `loading` set.** When the POST answers with no `success` flag, nothing changes: `loading` stays set and polling goes on exactly as before. On a first submit there is no job id, so nothing is polled and the cancel button stays visible (`ImportJob.RejectedAckKeepsLoading`).
- **Resubmitting polls the old job.** A new submit does not clear the previous job id, so a tick that comes before the new job's acknowledgement polls the previous job (`ImportJob.ResubmitPollsPreviousJob`). If that reply says `completed`, it clears `loading` and stores the previous job's results. The new job's acknowledgement then records the new id but does not turn polling back on, so the new job is never polled (`ImportJob.ResubmitEndsOnPreviousJob`). That outcome needs the tick to come first: when the acknowledgement arrives before the first tick, the new id is set while `loading` is still on, and the first tick polls the new job (`ImportJob.ResubmitAckFirstPollsNewJob`).
- **A non-string JSON element discards the JSON result.** A JSON array with a non-string element makes `startsWith` throw inside the inner `try`. The whole JSON result is then discarded in favour of line splitting (`LinkParser.JsonFallsThrough`).

## Model

| member | source | states |
|---|---|---|
| Text.IsSpace | src/components/BulkPerfumeScraping.js:123-126 | the characters `\s` matches and `trim` removes, restricted to ASCII; `Text.Trim`, `Text.TrimIsSlice`, `Text.SplitWs` and `Text.JoinSplitWs` are stated through it |
| Text.Lower | src/components/BulkPerfumeScraping.js:55 | `toLowerCase` of one ASCII character: `A`-`Z` to `a`-`z`, every other character unchanged; used by `BrandName.LastCharDiffers` and `BrandName.StripSuffixIgnoresCase` |
| Text.Upper | src/components/BulkPerfumeScraping.js:66 | `toUpperCase` of one ASCII character: `a`-`z` to `A`-`Z`, every other character unchanged; used by `BrandName.TitleWordAt` and `BrandName.TitleCaseAt` |
| Text.LowerStr | src/components/BulkPerfumeScraping.js:55-66 | `toLowerCase` of a string, character by character with the length kept; stated through `BrandName.StripSuffixIgnoresCase` and `BrandName.TitleWordAt` |
| Text.StartsWith | src/components/BulkPerfumeScraping.js:104-108 | `startsWith(p)`: `p` is a prefix; the JSON bracket test and the product filter are stated through it in `LinkParser.JsonOnlyWhenBracketed` and `LinkParser.ParsedLinksAreProductLinks` |
| Text.EndsWith | src/components/BulkPerfumeScraping.js:55 | `endsWith(p)`: `p` is a suffix; stated through `BrandName.MatchFrom`, `BrandName.LastCharDiffers` and, for the `]` test at line 104, `LinkParser.JsonOnlyWhenBracketed` |
| Text.IndexOf | src/components/BulkPerfumeScraping.js:116-121 | `includes` and the search inside `split`: a hit is an occurrence of the delimiter, and no occurrence comes before it |
| Text.Split | src/components/BulkPerfumeScraping.js:117-121 | `split` on a string delimiter always yields at least one piece |
| Text.Join | src/components/BulkPerfumeScraping.js:67 | `join(d)`: the pieces with `d` between consecutive ones; stated by `Text.JoinSplit` and `Text.JoinSplitWs` |
| Text.Contains | src/components/BulkPerfumeScraping.js:116-120 | `includes(d)`: some occurrence of `d` exists, through `Text.IndexOf`; its use in the delimiter chain is stated by `LinkParser.DelimiterPriority` |
| Text.JoinSplit | src/components/BulkPerfumeScraping.js:117-121 | joining the pieces of `split(d)` with `d` gives back the content |
| Text.SplitPiecesAvoidDelimiter | src/components/BulkPerfumeScraping.js:117-121 | no piece of `split(d)` contains `d` |
| Text.Trim | src/components/BulkPerfumeScraping.js:126 | a trimmed line neither starts nor ends with whitespace |
| Text.TrimIsSlice | src/components/BulkPerfumeScraping.js:126 | `trim` returns a slice of the line and cuts off only whitespace on either side |
| Text.SplitWs | src/components/BulkPerfumeScraping.js:123 | `split(/\s+/)` always yields at least one piece, and no piece holds a whitespace character |
| Text.JoinSplitWs | src/components/BulkPerfumeScraping.js:123 | joining the pieces of `split(/\s+/)` with single spaces gives the content with every whitespace run collapsed to one space: only whitespace is lost |
| BrandName.LastIndexOf | src/components/BulkPerfumeScraping.js:44 | `lastIndexOf('.')` is -1 or the position of a `.` with no `.` after it |
| BrandName.Suffixes | src/components/BulkPerfumeScraping.js:48-51 | the eight suffixes in the source's order, `-perfumes` first; `BrandName.PerfumesWinsOverPerfume` and `BrandName.OneSuffixOnly` depend on that order |
| BrandName.StripExtension | src/components/BulkPerfumeScraping.js:44-45 | the name is cut at its last `.` only when that `.` is not the first character; otherwise it is kept whole |
| BrandName.StripExtensionAt | src/components/BulkPerfumeScraping.js:44-45 | a `.` after the first character with no later `.` is where the extension is cut |
| BrandName.MatchFrom | src/components/BulkPerfumeScraping.js:54-58 | the suffix scan finds the first suffix, in list order, that the name ends with, ignoring case |
| BrandName.EndsWithIgnoringCase | src/components/BulkPerfumeScraping.js:55 | `toLowerCase().endsWith(suffix.toLowerCase())`; stated by `BrandName.MatchFrom`, `BrandName.LastCharDiffers` and `BrandName.StripSuffixIgnoresCase` |
| BrandName.StripSuffix | src/components/BulkPerfumeScraping.js:47-59 | exactly the first matching suffix is removed; a name matching none is unchanged |
| BrandName.HyphensToSpaces | src/components/BulkPerfumeScraping.js:62 | `replace(/-/g, ' ')`: every hyphen becomes a space and every other character stays; its effect on the label is stated by `BrandName.BrandNameShape` |
| BrandName.TitleWord | src/components/BulkPerfumeScraping.js:66 | one word with its first character upper-cased and the rest lower-cased; stated by `BrandName.TitleWordAt` |
| BrandName.TitleWords | src/components/BulkPerfumeScraping.js:66 | the `.map` of `TitleWord` over the words, one result per word in order; stated through `BrandName.TitleCaseUnfold` and `BrandName.TitleCaseAt` |
| BrandName.TitleCase | src/components/BulkPerfumeScraping.js:65-67 | `split(' ')`, title-case each word, `join(' ')`; stated by `BrandName.TitleCaseUnfold`, `BrandName.TitleCaseAt` and `BrandName.TitleCaseIsTitleCased` |
| BrandName.BrandNameOf | src/components/BulkPerfumeScraping.js:40-70 | the label for a file name: `''` for an empty name, otherwise the stripped, de-hyphenated, title-cased name; the method `BrandName.ExtractBrandName` is proved to compute it and `BrandName.BrandNameShape` states its shape |
| BrandName.ExtractBrandName | src/components/BulkPerfumeScraping.js:40-70 | the loop with `break` computes `BrandNameOf`: extension, first suffix, hyphens, title case, and `''` for an empty name |
| BrandName.TitleWordAt | src/components/BulkPerfumeScraping.js:66 | a word keeps its length, its first character is upper-cased and the rest lower-cased |
| BrandName.TitleCaseUnfold | src/components/BulkPerfumeScraping.js:65-67 | `split(' ')`/`map`/`join(' ')` title-cases the first word and the rest separately around the first space |
| BrandName.TitleCaseAt | src/components/BulkPerfumeScraping.js:65-67 | title-casing keeps the length and changes each character only to the case required by its position: upper after a space or at the start, lower elsewhere |
| BrandName.TitleCaseIsTitleCased | src/components/BulkPerfumeScraping.js:65-67 | the output is title-cased in its own right |
| BrandName.BrandNameShape | src/components/BulkPerfumeScraping.js:40-70 | the label has the stripped name's length and no hyphen, differs from the stripped name only in case and in hyphens becoming spaces, and is title-cased |
| BrandName.StripSuffixIgnoresCase | src/components/BulkPerfumeScraping.js:55 | suffix matching is case-insensitive, so stripping commutes with lower-casing |
| BrandName.PerfumesWinsOverPerfume | src/components/BulkPerfumeScraping.js:48-58 | `-perfumes` is tried before `-perfume`, so it is removed whole |
| BrandName.LastCharDiffers | src/components/BulkPerfumeScraping.js:55 | a name whose last character differs from the suffix's, ignoring case, does not end with that suffix |
| BrandName.OneSuffixOnly | src/components/BulkPerfumeScraping.js:54-58 | the loop breaks after one removal: `dior-links-list` becomes `dior-links` |
| BrandName.AcquaDiParma | src/components/BulkPerfumeScraping.js:40-70 | `Acqua-di-Parma-perfumes.txt` gives `Acqua Di Parma` |
| BrandName.Chanel | src/components/BulkPerfumeScraping.js:40-70 | `chanel.json` gives `Chanel` |
| BrandName.EmptyName | src/components/BulkPerfumeScraping.js:41 | an empty file name gives `''` |
| LinkParser.ProductLinks | src/components/BulkPerfumeScraping.js:127 | the prefix filter keeps exactly the product links and never lengthens the list |
| LinkParser.ProductPrefix | src/components/BulkPerfumeScraping.js:108 | the literal `https://www.fragrantica.com/perfume/` tested in both branches (also line 127); `LinkParser.ParsedLinksAreProductLinks` states that every returned link carries it |
| LinkParser.IsProductLink | src/components/BulkPerfumeScraping.js:127 | `startsWith('https://www.fragrantica.com/perfume/')`, the filter of both branches (also line 108); stated by `LinkParser.ProductLinks` and `LinkParser.ParsedLinksAreProductLinks` |
| LinkParser.ProductLinksCounts | src/components/BulkPerfumeScraping.js:108 | the filter keeps every occurrence of each product link and no occurrence of anything else |
| LinkParser.ProductLinksAppend | src/components/BulkPerfumeScraping.js:108 | the filter works element by element: filtering a concatenation is concatenating the filtered parts, so order is kept |
| LinkParser.Dedup | src/components/BulkPerfumeScraping.js:128 | the `indexOf` filter keeps the same set of links with no repetition |
| LinkParser.FirstIndex | src/components/BulkPerfumeScraping.js:128 | `indexOf`: the first position holding the link |
| LinkParser.DedupKeepsFirstOccurrenceOrder | src/components/BulkPerfumeScraping.js:128 | the kept links are in the order of their first occurrences |
| LinkParser.AllStrings | src/components/BulkPerfumeScraping.js:108 | every element of the parsed array is a string, so `url.startsWith` does not throw; `LinkParser.JsonFallsThrough` states what happens otherwise |
| LinkParser.Texts | src/components/BulkPerfumeScraping.js:108 | the strings of an all-string array, in order; stated through `LinkParser.JsonArrayReturnedAsIs` and `LinkParser.JsonKeepsEveryOccurrence` |
| LinkParser.JsonLinks | src/components/BulkPerfumeScraping.js:103-113 | `urls` after the `try`: the prefix-filtered array for bracketed content parsed as an array of strings, empty otherwise; stated by `LinkParser.TryJsonArray`, `LinkParser.JsonOnlyWhenBracketed` and `LinkParser.JsonFallsThrough` |
| LinkParser.LooksLikeJsonArray | src/components/BulkPerfumeScraping.js:104 | the trimmed content starts with `[` and ends with `]`; stated by `LinkParser.JsonOnlyWhenBracketed` |
| LinkParser.DelimiterOf | src/components/BulkPerfumeScraping.js:116-124 | which delimiter the if-chain picks; stated by `LinkParser.DelimiterPriority` |
| LinkParser.Lines | src/components/BulkPerfumeScraping.js:115-124 | `lines` after the if-chain: the content split on the chosen delimiter; stated by `LinkParser.DelimiterPriority`, `LinkParser.PieceIsInfix` and `LinkParser.PiecesKeepAbsence` |
| LinkParser.LineLinks | src/components/BulkPerfumeScraping.js:125-128 | the fallback: trimmed lines, product links only, first occurrences only; stated by `LinkParser.LineLinksShape` |
| LinkParser.TrimAll | src/components/BulkPerfumeScraping.js:126 | `map(line => line.trim())`, one trimmed line per line in order; each element is stated by `Text.Trim` and `Text.TrimIsSlice`, and `LinkParser.LineLinksComeFromLines` uses it |
| LinkParser.ParsedLinks | src/components/BulkPerfumeScraping.js:101-130 | the value `parseFileContent` resolves with: the JSON links when there are any, the fallback otherwise; stated by `LinkParser.ParseFileContent` and `LinkParser.ParsedLinksAreProductLinks` |
| LinkParser.ParseFileContent | src/components/BulkPerfumeScraping.js:101-130 | the method resolves with `ParsedLinks`, and every link it returns is a product link |
| LinkParser.TryJsonArray | src/components/BulkPerfumeScraping.js:103-113 | `urls` is the prefix-filtered array only for bracketed content that parses as an array of strings, and empty otherwise |
| LinkParser.SplitLines | src/components/BulkPerfumeScraping.js:115-124 | the delimiter if-chain yields the lines of the first delimiter style present |
| LinkParser.ParsedLinksAreProductLinks | src/components/BulkPerfumeScraping.js:104-130 | whichever branch produced it, every link carries the product prefix and so is not empty |
| LinkParser.LineLinksShape | src/components/BulkPerfumeScraping.js:125-128 | the fallback returns each product link among the trimmed lines exactly once, in first-seen order |
| LinkParser.LineLinksComeFromLines | src/components/BulkPerfumeScraping.js:125-126 | every fallback link is the trim of one of the split lines |
| LinkParser.DelimiterPriority | src/components/BulkPerfumeScraping.js:116-124 | a real newline beats `\n` written out, which beats `/n`, which beats whitespace runs; splitting on one of the three string delimiters loses nothing and no line keeps it; splitting on whitespace runs loses only whitespace, each run collapsing to one space |
| LinkParser.PiecesKeepAbsence | src/components/BulkPerfumeScraping.js:116-121 | a line cannot contain what the content lacks, such as a newline when none was found |
| LinkParser.PieceIsInfix | src/components/BulkPerfumeScraping.js:117-121 | every line is a substring of the content |
| LinkParser.JsonOnlyWhenBracketed | src/components/BulkPerfumeScraping.js:104 | content that is not bracketed after trimming goes straight to line splitting |
| LinkParser.JsonArrayReturnedAsIs | src/components/BulkPerfumeScraping.js:104-114 | a parsed array of strings with a product link is returned filtered, in order, and not deduplicated |
| LinkParser.JsonFallsThrough | src/components/BulkPerfumeScraping.js:104-114 | a throwing parse, a non-array, a non-string element or no product link falls through to line splitting |
| LinkParser.JsonKeepsRepeats | src/components/BulkPerfumeScraping.js:104-114 | a JSON array that repeats a product link returns it twice |
| LinkParser.JsonKeepsEveryOccurrence | src/components/BulkPerfumeScraping.js:104-114 | the JSON branch returns every occurrence of every product link of the array, in order, piece by piece |
| LinkParser.LinesOfThree | src/components/BulkPerfumeScraping.js:116-117 | three whitespace-free newline-separated lines split back into those lines |
| LinkParser.RepeatedAndForeignLinks | src/components/BulkPerfumeScraping.js:114-130 | a newline file repeating a product link and adding a foreign link yields the product link once |
| BrandEntries.MaxId | src/components/BulkPerfumeScraping.js:29 | `Math.max` of the ids: an id of some row and at least every id |
| BrandEntries.InitialEntries | src/components/BulkPerfumeScraping.js:16 | one row with id 1, no file and an empty brand name, also restored by cancel at line 24; stated by `BrandEntries.InitialWellFormed` and `ImportJob.CancelResets` |
| BrandEntries.AddItem | src/components/BulkPerfumeScraping.js:28-31 | one empty row is appended after the unchanged rows, with an id above every existing id; unique ids stay unique |
| BrandEntries.AddKeepsWellFormed | src/components/BulkPerfumeScraping.js:28-31 | adding keeps the list non-empty with unique ids |
| BrandEntries.WithoutId | src/components/BulkPerfumeScraping.js:35 | the filter keeps exactly the rows with another id, never lengthens the list, and keeps ids unique |
| BrandEntries.WithoutIdAt | src/components/BulkPerfumeScraping.js:35 | with unique ids, filtering out row k's id removes row k and keeps the others in order |
| BrandEntries.WithoutAbsentId | src/components/BulkPerfumeScraping.js:35 | filtering an id no row has changes nothing |
| BrandEntries.RemoveItem | src/components/BulkPerfumeScraping.js:33-37 | a list of one row is left alone; otherwise exactly the rows with another id are kept |
| BrandEntries.RemoveDropsOneRow | src/components/BulkPerfumeScraping.js:33-37 | removing an existing row from two or more drops that row only, keeping order |
| BrandEntries.RemoveAbsentIsNoOp | src/components/BulkPerfumeScraping.js:33-37 | removing an id no row has is a no-op |
| BrandEntries.RemoveKeepsWellFormed | src/components/BulkPerfumeScraping.js:33-37 | the list never becomes empty, loses at most one row, and ids stay unique |
| BrandEntries.RemoveNeedsUniqueIds | src/components/BulkPerfumeScraping.js:33-37 | the length guard alone does not keep the list non-empty: two rows that share an id are both filtered out |
| BrandEntries.UpdateItem | src/components/BulkPerfumeScraping.js:72-76 | rows with the id get the edit; every other row and every id is unchanged |
| BrandEntries.ApplyEdit | src/components/BulkPerfumeScraping.js:74 | `{ ...item, [field]: value }` for the two modelled fields: only the named field changes; stated by `BrandEntries.UpdateItem` and `BrandEntries.UpdateChangesOneRow` |
| BrandEntries.UpdateChangesOneRow | src/components/BulkPerfumeScraping.js:72-76 | with unique ids an update changes only that one row |
| BrandEntries.UpdateKeepsWellFormed | src/components/BulkPerfumeScraping.js:72-76 | updates keep the list non-empty with unique ids |
| BrandEntries.UpdateAbsentIsNoOp | src/components/BulkPerfumeScraping.js:72-76 | an update naming no row is a no-op |
| BrandEntries.FileUpload | src/components/BulkPerfumeScraping.js:78-84 | the row with the id gets the file and the brand name derived from its file name; other rows are unchanged |
| BrandEntries.UploadChangesOneRow | src/components/BulkPerfumeScraping.js:78-84 | with unique ids an upload sets file and derived name of that one row |
| BrandEntries.UploadKeepsWellFormed | src/components/BulkPerfumeScraping.js:78-84 | uploads keep the list non-empty with unique ids |
| BrandEntries.UploadCompletesForm | src/components/BulkPerfumeScraping.js:78-94 | uploading to the only row without a file makes the form valid |
| BrandEntries.Validate | src/components/BulkPerfumeScraping.js:86-94 | the form is valid exactly when every row has a file |
| BrandEntries.InitialWellFormed | src/components/BulkPerfumeScraping.js:16 | the initial single row with id 1 is well-formed and does not validate |
| BrandEntries.IdReusedAfterRemovingLast | src/components/BulkPerfumeScraping.js:28-37 | removing the row holding the largest id and adding a row reuses that id |
| RequestBuilder.BuildRequest | src/components/BulkPerfumeScraping.js:149-156 | a body is built exactly when every file can be read, with one `{ brandName, perfumeLinks }` per row, in row order |
| RequestBuilder.PayloadFor | src/components/BulkPerfumeScraping.js:151-155 | the element pushed for one row: its brand name and the links its file parses to; `RequestBuilder.BuildRequest` and `RequestBuilder.PushPayload` state how the body is made of these |
| RequestBuilder.PushPayload | src/components/BulkPerfumeScraping.js:152-155 | each push extends the body by the element for the next row |
| RequestBuilder.PayloadLinksAreProductLinks | src/components/BulkPerfumeScraping.js:149-156 | every link sent is a product link |
| RequestBuilder.EditedNameIsSent | src/components/BulkPerfumeScraping.js:150-155 | a brand name edited on a row is the name sent for that row |
| RequestBuilder.UploadedFileIsSent | src/components/BulkPerfumeScraping.js:150-155 | after an upload, the row sends the derived name and the links parsed from that file |
| RequestBuilder.ReadableIsValid | src/components/BulkPerfumeScraping.js:86-94 | a list whose files can all be read passes validation |
| ImportJob.StepKeepsWellFormed | src/components/BulkPerfumeScraping.js:19-84 | every handler keeps the row list non-empty with unique ids |
| ImportJob.Initial | src/components/BulkPerfumeScraping.js:11-16 | the initial hook values: not loading, progress 0, no job, no results, no message, the initial row; `ImportJob.BulkScraping.constructor` is proved to start from it |
| ImportJob.Step | src/components/BulkPerfumeScraping.js:19-204 | the effect of each event on the component state; its properties are the `ImportJob` lemmas below |
| ImportJob.Cancelled | src/components/BulkPerfumeScraping.js:19-26 | the state after `handleCancel`; stated by `ImportJob.CancelResets` |
| ImportJob.SubmitStarted | src/components/BulkPerfumeScraping.js:140-172 | `handleSubmit` up to the POST; stated by `ImportJob.InvalidFormNotSubmitted` and `ImportJob.SubmitStartsLoading` |
| ImportJob.Acknowledged | src/components/BulkPerfumeScraping.js:162-172 | the effect of the POST's outcome; stated by `ImportJob.AckStartsPolling`, `ImportJob.RejectedAckKeepsLoading` and `ImportJob.FailedPostStopsLoading` |
| ImportJob.PollApplied | src/components/BulkPerfumeScraping.js:181-198 | the effect of one settled status request; stated by `ImportJob.TerminalReplyStops` and `ImportJob.OtherReplyKeepsPolling` |
| ImportJob.IsTerminal | src/components/BulkPerfumeScraping.js:186-191 | a successful reply whose status is `completed` or `failed`; stated through `ImportJob.TerminalReplyStops` and `ImportJob.TerminalReplyEndsPolling` |
| ImportJob.OrZero | src/components/BulkPerfumeScraping.js:183 | `progress || 0`: the reported progress, or 0 when absent; stated through `ImportJob.TerminalReplyStops` and `ImportJob.LateReplyAfterCancelApplied` |
| ImportJob.OrEmpty | src/components/BulkPerfumeScraping.js:184 | `message || ''`: the reported message, or `''` when absent; its effect on the status text is stated by `ImportJob.StatusLineOf` |
| ImportJob.Ticked | src/components/BulkPerfumeScraping.js:176-181 | one interval tick, which makes a request only while polling is enabled; stated by `ImportJob.TickPollsOnlyWhenEnabled` |
| ImportJob.HasJob | src/components/BulkPerfumeScraping.js:178 | `jobId` is truthy: set and not the empty string; every polling lemma is stated through it |
| ImportJob.PollingEnabled | src/components/BulkPerfumeScraping.js:178 | the `if (jobId && loading)` gate of the polling effect; stated by `ImportJob.TickPollsOnlyWhenEnabled`, `ImportJob.AckStartsPolling` and `ImportJob.RejectedAckKeepsLoading` |
| ImportJob.PolledJobs | src/components/BulkPerfumeScraping.js:176-181 | the job ids whose status is requested over a run of events; stated by `ImportJob.IdleStaysQuiet`, `ImportJob.TerminalReplyEndsPolling`, `ImportJob.CancelEndsPolling` and `ImportJob.RunningTwiceThenCompleted` |
| ImportJob.Run | src/components/BulkPerfumeScraping.js:19-204 | the state after a sequence of events, one `Step` each; stated by `ImportJob.RunKeepsWellFormed` and `ImportJob.RunningTwiceThenCompleted` |
| ImportJob.RunKeepsWellFormed | src/components/BulkPerfumeScraping.js:19-84 | so does every sequence of events |
| ImportJob.IdleStaysQuiet | src/components/BulkPerfumeScraping.js:176-179 | without a submit, a component that is not loading sends no status request and stays not loading |
| ImportJob.TickPollsOnlyWhenEnabled | src/components/BulkPerfumeScraping.js:178-181 | a tick requests the current job's status exactly when a job id is set and loading is on, and otherwise changes nothing |
| ImportJob.TerminalReplyStops | src/components/BulkPerfumeScraping.js:182-194 | `completed` or `failed` clears loading and records progress; `completed` stores the reply |
| ImportJob.TerminalReplyEndsPolling | src/components/BulkPerfumeScraping.js:176-204 | after a terminal reply no further status request is sent until the next submit |
| ImportJob.OtherReplyKeepsPolling | src/components/BulkPerfumeScraping.js:182-198 | another status, a non-success body or a thrown request keeps polling the same job; the last two change nothing |
| ImportJob.CancelResets | src/components/BulkPerfumeScraping.js:19-26 | cancel clears loading, progress, job id, results and the rows, and keeps the status message |
| ImportJob.SubmitKeepsStatusMessage | src/components/BulkPerfumeScraping.js:140-145 | a submit never resets the status message, so after a finished job a readable resubmission shows the previous server message instead of the stage text |
| ImportJob.CancelEndsPolling | src/components/BulkPerfumeScraping.js:176-204 | after a cancel no status request is sent until the next submit |
| ImportJob.AckStartsPolling | src/components/BulkPerfumeScraping.js:162-166 | a successful POST stores the job id and sets progress to 10, which enables polling |
| ImportJob.RejectedAckKeepsLoading | src/components/BulkPerfumeScraping.js:162-166 | a POST answered without success changes nothing: loading stays on, polling stays enabled exactly when a job id was already set, and on a first submit nothing is polled |
| ImportJob.FailedPostStopsLoading | src/components/BulkPerfumeScraping.js:167-172 | a thrown POST clears loading and keeps the job id |
| ImportJob.InvalidFormNotSubmitted | src/components/BulkPerfumeScraping.js:141 | a row without a file stops the submit before any state change |
| ImportJob.SubmitStartsLoading | src/components/BulkPerfumeScraping.js:141-145 | a complete, readable form sets loading, resets progress, clears results and keeps the job id |
| ImportJob.RunningTwiceThenCompleted | src/components/BulkPerfumeScraping.js:176-204 | two `running` replies then `completed` make three requests for the job, then none, and leave its results stored |
| ImportJob.ResubmitPollsPreviousJob | src/components/BulkPerfumeScraping.js:140-181 | a resubmission after a finished job enables polling of the previous job id at once, so a tick before the new acknowledgement polls the previous job |
| ImportJob.ResubmitAckFirstPollsNewJob | src/components/BulkPerfumeScraping.js:140-181 | when the new job's acknowledgement comes before the first tick, that tick polls the new job and not the previous one |
| ImportJob.ResubmitEndsOnPreviousJob | src/components/BulkPerfumeScraping.js:140-195 | when the previous job's `completed` reply comes first, it clears loading and stores the old results, and the new job's acknowledgement sets its id without turning polling back on |
| ImportJob.LateReplyAfterCancelApplied | src/components/BulkPerfumeScraping.js:180-195 | a `completed` reply that settles after a cancel still stores its results and progress |
| ImportJob.StatusLineOf | src/components/BulkPerfumeScraping.js:279-287 | the status text is shown exactly while loading; it is the server's message when one is set, and otherwise the stage text for the current progress |
| ImportJob.StageFor | src/components/BulkPerfumeScraping.js:284-286 | the stage for a progress value; stated by `ImportJob.StageThresholds` and `ImportJob.StageMonotone` |
| ImportJob.StageMonotone | src/components/BulkPerfumeScraping.js:284-286 | the stage text never moves backwards as progress grows |
| ImportJob.StageThresholds | src/components/BulkPerfumeScraping.js:284-286 | below 30, from 30 below 60, and from 60 select the three stage texts, in both directions |
| ImportJob.AckShowsFirstStage | src/components/BulkPerfumeScraping.js:164 | with no message, the acknowledged progress of 10 shows the first stage |
| ImportJob.BulkScraping.constructor | src/components/BulkPerfumeScraping.js:11-16 | the fields start as the initial hook values, with one empty row |
| ImportJob.BulkScraping.HandleCancel | src/components/BulkPerfumeScraping.js:19-26 | the fields become the cancelled state and the row invariant holds |
| ImportJob.BulkScraping.AddBrandItem | src/components/BulkPerfumeScraping.js:28-31 | `brandItems` becomes `AddItem` of the old rows and nothing else changes |
| ImportJob.BulkScraping.RemoveBrandItem | src/components/BulkPerfumeScraping.js:33-37 | `brandItems` becomes `RemoveItem` of the old rows and nothing else changes |
| ImportJob.BulkScraping.UpdateBrandItem | src/components/BulkPerfumeScraping.js:72-76 | `brandItems` becomes `UpdateItem` of the old rows and nothing else changes |
| ImportJob.BulkScraping.HandleFileUpload | src/components/BulkPerfumeScraping.js:78-84 | `brandItems` becomes `FileUpload` of the old rows and nothing else changes |
| ImportJob.BulkScraping.HandleSubmit | src/components/BulkPerfumeScraping.js:140-156 | the state moves as `SubmitStarted`, and a request body is returned exactly when every file was read: the body for the old rows |
| ImportJob.BulkScraping.ReceiveAck | src/components/BulkPerfumeScraping.js:158-172 | the fields move as `Acknowledged` for the POST outcome |
| ImportJob.BulkScraping.ApplyPollReply | src/components/BulkPerfumeScraping.js:181-195 | the fields move as `PollApplied` for the status reply |
| ImportJob.BulkScraping.Tick | src/components/BulkPerfumeScraping.js:176-204 | a tick polls, and returns, the old job id exactly when polling was enabled, and the fields move as `Ticked` |
| ImportJob.BulkScraping.ReceiveLateReply | src/components/BulkPerfumeScraping.js:180-195 | a reply arriving after its interval was cleared is applied like any other |
| ImportJob.BulkScraping.CurrentStatusLine | src/components/BulkPerfumeScraping.js:279-287 | the text under the progress bar is `StatusLineOf` of the fields, present exactly while loading |

## Left out

- Rendering: the JSX, the `disabled` flags on the controls while loading, the results alert and the progress bar widget. Disabled controls are UI state, so the model lets any event happen at any time.
- Toasts (`message.success`/`message.error`), `console` logging and `form.resetFields()`. None of these changes the modelled state.
- The `onSuccess` callback (`src/components/BulkPerfumeScraping.js:190`). The page that uses the component passes one that refreshes the recent perfumes and navigates to `/perfumes` (`src/pages/ScrapePerfume.js:73-76`), which unmounts the component; the model keeps the component running after a `completed` reply. The callback is also a new function on every render of that page, and since it is a dependency of the polling effect (`src/components/BulkPerfumeScraping.js:204`), each such render clears the interval and starts a new one; the model has one interval whose life follows `jobId` and `loading` only.
- `FileReader`: a read is its outcome, the `text` field of `UploadedFile`, with `None` for a failed read.
- `JSON.parse` is not modelled. Its outcome is an input: it threw, it gave a non-array, or it gave an array of elements that are strings or other values.
- `axios` and the network: the POST and each status request are represented by their outcomes.
- `setInterval` and timing: a tick is one status request and its reply, taken atomically. A reply that settles after the interval was cleared is a separate `LateReply` event. Overlapping requests from consecutive ticks are not modelled.
- Asynchrony inside `handleSubmit`: the file reads and the building of the body happen in one step. A cancel, or any other event, in the middle of the reads is not modelled. The POST's outcome is a separate event (`Ack`), and an `Ack` is not restricted to follow a submit.
- Unicode is out of scope:
  - case mapping is ASCII only (`Lower`, `Upper`), and no character changes length when its case changes;
  - whitespace for `trim` and `\s` is ASCII space, tab, line feed, vertical tab, form feed and carriage return.
- `BrandEntries.AddItem`: requires a non-empty list. `Math.max` of no ids is `-Infinity`, which the model cannot represent. Every reachable list is non-empty (`ImportJob.RunKeepsWellFormed`).
- `BrandEntries.UpdateItem`: only the `file` and `brandName` fields are modelled as `field` values. The rendered component never calls `updateBrandItem`.
- The JavaScript truthiness of a file: a row's `file` is either absent or a file object.
- The shape of the results (`totalProcessed`, `summary`): a stored reply is kept whole as a `StatusBody`.

# Batch file-extension utilities, modelled in Dafny

This project models the logic of four parts of a small Next.js utility app:

- **The file-extension changer page** (`file-extension-changer/page.tsx`).
  - Picking a folder scans its files into records. Each name is cut at its last dot; a name without a dot, or whose last dot is its first character, has no extension.
  - The user plans which records get the new extension. Only an exact, case-sensitive match of the old extension counts.
  - The page switches from preview mode to ready mode.
  - In ready mode it posts the matching records to the rename endpoint and folds the results back into the records.
  - It offers three rename scripts for download: batch, shell and PowerShell.
  - Reset returns the page to its initial state.
  - The page state is the class `ExtensionChanger.Page`. Its fields are reassigned by methods, and the pure parts are functions: the name split, the plan, the merge and the script templates.
- **The rename simulation endpoint** (`api/rename-files/route.ts`, `POST`).
  - It validates the three body parameters.
  - It walks the submitted records in order. Every record whose `oldExtension` matches gets a simulated successful rename. The new name is `name.replace(".old", ".new")`, which replaces the *first* occurrence.
  - A record that makes the loop body throw adds one error, and the loop goes on.
  - A record that throws again in the catch block (a `null` record, or a matching record whose name cannot be rendered as text) ends the request with status 500.
  - It reports a summary of the counts.
  - `RenameApi.Post` is the loop, proved against the function `RenameApi.PostSpec`.
- **The separator-joined formatter** (`app/page.tsx`).
  - `processValue` cuts the text into non-empty lines, optionally maps or slices them, and joins them with a separator.
  - The page's buttons are built on it: quote, drop first, one per line, strip quotes and clear.
- **The eBay image link converter** (`ebay-image-converter/page.tsx`).
  - Every non-blank line is converted on its own.
  - A line with an `<img src="….webp"` tag becomes the bare address ending in `.jpg`.
  - Any other line has every `.webp` rewritten to `.jpg`.

The JavaScript string operations these rely on are written out in module `JsString`:

- `split` on one character
- `join`
- `filter(v => !!v)`
- `indexOf`
- `lastIndexOf`
- `replace` with a string pattern. This covers the first occurrence only and the `$$`, `$&`, `` $` `` and `$'` patterns of the replacement.
- the emptiness test of `trim()`

Strings are `seq<char>`.

Files:

- `wrappers.dfy`: `Option`
- `js_string.dfy`: the string primitives
- `rename_api.dfy`: the endpoint
- `rename_scripts.dfy`: the script templates and downloads
- `extension_changer.dfy`: the page state and its handlers
- `formatter.dfy`: the formatter
- `ebay_converter.dfy`: the converter

Facts about the code that shape the model:

- The page plans for one old extension and one new extension.
- Scanned extensions keep their case.
- The endpoint replaces the first occurrence of `.old` in the name, so `a.jpg.jpg` becomes `a.png.jpg` (`RenameApi.NewNameReplacesFirstOccurrence`).

## Model

| member | source | states |
|---|---|---|
| JsString.IndexOfIsLeftmost | apps/utils/app/api/rename-files/route.ts:24 | `indexOf`, used by `replace` to find its match: the result is -1 exactly when the pattern does not occur; otherwise the pattern occurs at the result and nowhere before it |
| JsString.ExpandReplacement | apps/utils/app/api/rename-files/route.ts:24 | the replacement text of `replace`; a replacement without `$` is inserted as it is |
| JsString.ReplaceFirstWithoutMatch | apps/utils/app/api/rename-files/route.ts:24 | `replace` with a string pattern leaves a name without the pattern unchanged |
| JsString.ReplaceFirstReplacesLeftmost | apps/utils/app/api/rename-files/route.ts:24 | `replace` with a string pattern replaces only the leftmost occurrence, by the replacement text when that has no `$` |
| JsString.LastIndexOf | apps/utils/app/file-extension-changer/page.tsx:51 | `lastIndexOf(".")`: -1 exactly when there is no dot; otherwise a dot stands there and none after it |
| JsString.Split | apps/utils/app/page.tsx:26 | `split("\n")` gives at least one piece, and no piece holds the separator |
| JsString.DropEmpty | apps/utils/app/page.tsx:26 | `filter(v => !!v)` keeps exactly the non-empty strings: none of the kept ones is empty, each comes from the input, and every non-empty input is kept |
| JsString.DropEmptyOfOne | apps/utils/app/page.tsx:26 | the filter keeps one string exactly when it is non-empty |
| JsString.DropEmptyAppend | apps/utils/app/page.tsx:26 | filtering a concatenation is filtering each part, in order; with `DropEmptyOfOne` this fixes the result for every list |
| JsString.JoinWithNothing | apps/utils/app/page.tsx:33 | `join("")` writes the pieces one after the other |
| JsString.JoinSplit | apps/utils/app/page.tsx:26 | joining the pieces of a split with the same separator gives back the text |
| JsString.SplitJoin | apps/utils/app/page.tsx:33 | splitting a join whose pieces are free of the separator gives back the pieces |
| JsString.ConcatSplit | apps/utils/app/page.tsx:26 | the pieces of a split, written together, are the text without its separators |
| RenameApi.Post | apps/utils/app/api/rename-files/route.ts:5-57 | the handler's result is `PostSpec(body)`: 500 for a body that is not valid JSON or is JSON `null`, and for a record that throws past the per-file catch (a `null` record, or a matching one whose name cannot be rendered); 400 with "缺少必要参数" exactly when a parameter is missing or empty or `files` is not an array; otherwise 200 with the results, the errors, their counts and the notice |
| RenameApi.ResultsOfAppend | apps/utils/app/api/rename-files/route.ts:21-36 | the results of consecutive runs of records are concatenated, so input order is kept |
| RenameApi.ErrorsOfAppend | apps/utils/app/api/rename-files/route.ts:21-36 | the errors of consecutive runs of records are concatenated |
| RenameApi.ResultsAreMatchingRecords | apps/utils/app/api/rename-files/route.ts:23-31 | every result has `success`, `oldName` equal to the name of a record whose `oldExtension` matches, and `newName` equal to that name with `.old` replaced |
| RenameApi.MatchingRecordsHaveResults | apps/utils/app/api/rename-files/route.ts:23-31 | every matching record with a string name has its result: `{oldName: name, newName: name.replace(".old", ".new"), success: true}` |
| RenameApi.FailingRecordAddsNoResult | apps/utils/app/api/rename-files/route.ts:22-35 | a matching record whose name has no `replace` adds no result, and the records after it are still processed |
| RenameApi.FailingRecordAddsOneError | apps/utils/app/api/rename-files/route.ts:33-35 | such a record adds exactly one error, in its place |
| RenameApi.NoErrorsForStringNames | apps/utils/app/api/rename-files/route.ts:21-36 | when every record is an object with a string name, the error list is empty and the request does not fail |
| RenameApi.ThrowingRecordAborts | apps/utils/app/api/rename-files/route.ts:21-55 | a `null` record, or a matching record whose name cannot be rendered into the error text, makes the whole request fail with 500 and "服务器内部错误", whatever the other records are |
| RenameApi.CountsBounded | apps/utils/app/api/rename-files/route.ts:21-36 | results plus errors never outnumber the records |
| RenameApi.SummaryCounts | apps/utils/app/api/rename-files/route.ts:42-46 | `total` is the number of records, `successful` and `failed` are the list lengths, and successful + failed <= total |
| RenameApi.BadRequestOnlyForMissingParameters | apps/utils/app/api/rename-files/route.ts:9-14 | the status is 400 exactly when the body is valid JSON other than `null` and lacks a required parameter (`files` not an array, or an extension missing or empty), and a 400 always carries "缺少必要参数" |
| RenameApi.RejectsMissingParameters | apps/utils/app/api/rename-files/route.ts:9-14 | an absent or empty extension, or `files` that is not an array, is answered with status 400 and the error message, and no results |
| RenameApi.NewNameReplacesExtension | apps/utils/app/api/rename-files/route.ts:24 | for `name = base + "." + old + rest`, where old has no dot, new has no `$` and base does not contain `.old`, the new name is `base + "." + new + rest`: the `.old` right after the base is replaced and what follows it is kept |
| RenameApi.NewNameReplacesFirstOccurrence | apps/utils/app/api/rename-files/route.ts:24 | of two `.old` in a row only the first is replaced: `base.old.old` becomes `base.new.old`, so "a.jpg.jpg" with jpg → png becomes "a.png.jpg" |
| RenameApi.NewNameStraddlesWhenExtensionHasDot | apps/utils/app/api/rename-files/route.ts:24 | an old extension with a dot can be matched inside the base: with old `e.e`, the name `c.e.e.e` (base `c.e`) becomes `c.new.e`, so "x.a.a.a" with a.a → b becomes "x.b.a" |
| RenameScripts.FillDeterminesExtensions | apps/utils/app/file-extension-changer/page.tsx:142-221 | a template filled with two extensions determines both, when the text after the first hole starts with a character the old extension lacks |
| RenameScripts.BatchScriptDeterminesExtensions | apps/utils/app/file-extension-changer/page.tsx:142-162 | the batch text depends on the two extensions and determines them (single-line old extension) |
| RenameScripts.ShellScriptDeterminesExtensions | apps/utils/app/file-extension-changer/page.tsx:165-185 | the shell text depends on the two extensions and determines them (quote-free old extension) |
| RenameScripts.PowerShellScriptDeterminesExtensions | apps/utils/app/file-extension-changer/page.tsx:188-221 | the PowerShell text depends on the two extensions and determines them (quote-free old extension) |
| RenameScripts.ShellScriptStartsWithHash | apps/utils/app/file-extension-changer/page.tsx:165 | the shell script starts with `#` |
| RenameScripts.PowerShellScriptStartsWithHash | apps/utils/app/file-extension-changer/page.tsx:188 | the PowerShell script starts with `#` |
| RenameScripts.OnlyBatchDownloadHasByteOrderMark | apps/utils/app/file-extension-changer/page.tsx:224-250 | three files are saved, in order `rename_files.bat` ("text/plain;charset=utf-8"), `rename_files.sh` ("text/plain"), `rename_files.ps1` ("text/plain;charset=utf-8"); exactly the `.bat` file starts with U+FEFF, followed by the batch text; the `.sh` and `.ps1` files are their script texts |
| RenameScripts.MarkOnlyOnBatch | apps/utils/app/file-extension-changer/page.tsx:224-250 | for script texts that start with `#`, the three downloads carry their names and MIME types, only the `.bat` download starts with U+FEFF, and each holds its script |
| ExtensionChanger.SplitNameParts | apps/utils/app/file-extension-changer/page.tsx:51-53 | the extension never holds a dot; when a dot stands after index 0, base + "." + ext is the name; otherwise the base is the whole name and the extension is "" |
| ExtensionChanger.ScanFiles | apps/utils/app/file-extension-changer/page.tsx:47-61 | one record per picked file, in order: its name, its relative path, its extension, and a new extension equal to the old one |
| ExtensionChanger.FolderNameIsFirstSegment | apps/utils/app/file-extension-changer/page.tsx:43 | the folder name is the part of the path before its first `/` (all of it when there is none) |
| ExtensionChanger.PlanOverridesEarlierPlan | apps/utils/app/file-extension-changer/page.tsx:72-75 | re-planning replaces any earlier plan: planning twice is planning once with the second pair of extensions |
| ExtensionChanger.PlanIdempotent | apps/utils/app/file-extension-changer/page.tsx:72-75 | planning is idempotent |
| ExtensionChanger.PlanShownAsChanged | apps/utils/app/file-extension-changer/page.tsx:72-75 | a plan keeps length, order, name, path and old extension; a matching record gets the new extension and any other keeps its old one as new; a record is shown as changing exactly when it matched and new differs from old |
| ExtensionChanger.FindResult | apps/utils/app/file-extension-changer/page.tsx:116 | `results.find(r => r.oldName === name)`: `None` exactly when no result has the name; otherwise the first result with that name |
| ExtensionChanger.MergeChangesOnlyRenamedRecords | apps/utils/app/file-extension-changer/page.tsx:113-126 | the merge keeps the length; given the first result under a record's name, the record takes that result's new name and the new extension twice exactly when it matched and that result succeeded, and otherwise stays as it was; a record no result names stays as it was |
| ExtensionChanger.SentEntriesOfOne | apps/utils/app/file-extension-changer/page.tsx:100-104 | one record is sent exactly when its extension matches, as `{name, oldExtension}` |
| ExtensionChanger.SentEntriesAppend | apps/utils/app/file-extension-changer/page.tsx:100-104 | records are sent in list order: the entries of a concatenation are those of each part, one after the other; with `SentEntriesOfOne` this fixes the body for every list |
| ExtensionChanger.SentEntriesMatch | apps/utils/app/file-extension-changer/page.tsx:100-104 | every posted record matches and has a string name, and every matching record is posted |
| ExtensionChanger.MergeOfSimulatedRenames | apps/utils/app/file-extension-changer/page.tsx:97-127 | posting the matching records and merging the endpoint's answer gives a success with no errors and renames exactly the matching records to the endpoint's new name with the new extension |
| ExtensionChanger.Page.constructor | apps/utils/app/file-extension-changer/page.tsx:32-37 | the initial state: empty folder, extensions and list, in preview mode |
| ExtensionChanger.Page.HandleFolderSelect | apps/utils/app/file-extension-changer/page.tsx:40-64 | an empty pick changes nothing; otherwise the folder is the first segment of the first path and the list is the scan of the picked files |
| ExtensionChanger.Page.SetOldExtension | apps/utils/app/file-extension-changer/page.tsx:326 | only the old extension changes |
| ExtensionChanger.Page.SetNewExtension | apps/utils/app/file-extension-changer/page.tsx:337 | only the new extension changes |
| ExtensionChanger.Page.UpdateFileExtensions | apps/utils/app/file-extension-changer/page.tsx:66-78 | nothing changes while either extension is empty; otherwise the list becomes its plan and nothing else changes |
| ExtensionChanger.Page.ProcessFiles | apps/utils/app/file-extension-changer/page.tsx:80-138 | nothing changes with no files; in preview mode only preview mode is left; in ready mode only a successful reply is merged into the list |
| ExtensionChanger.Page.DownloadScript | apps/utils/app/file-extension-changer/page.tsx:140-257 | the three downloads for the current extensions, with their names and MIME types, only the batch file marked with U+FEFF |
| ExtensionChanger.Page.ResetFiles | apps/utils/app/file-extension-changer/page.tsx:259-268 | the list, folder and extensions are emptied and the page is back in preview mode |
| ExtensionChanger.ProcessTwice | apps/utils/app/file-extension-changer/page.tsx:80-127 | from either mode, processing twice with the endpoint's real answer leaves ready mode with every matching record renamed and the others untouched |
| Formatter.Items | apps/utils/app/page.tsx:26 | the items are non-empty, hold no line break, and consist of input characters |
| Formatter.ItemsKeepEverythingButLineBreaks | apps/utils/app/page.tsx:26 | the items written together are the input without its line breaks: `\r` and blanks stay, and order is kept |
| Formatter.ItemsOfJoinedLines | apps/utils/app/page.tsx:26 | lines without line breaks, joined with line breaks, come back as exactly their non-empty lines, in order |
| Formatter.OnInputShowsItems | apps/utils/app/page.tsx:36-40 | typing stores the input and keeps the separator; the output is "" without items, and otherwise splits on a one-character separator the input lacks into exactly the items |
| Formatter.InitialSeparatesWithCommas | apps/utils/app/page.tsx:17-40 | the page opens with both texts empty, and the first typing shows the items joined by commas; without a comma in the input that output splits back into the items |
| Formatter.SetSeparatorAppliesFromNextAction | apps/utils/app/page.tsx:123 | editing the separator changes neither text; the next typing joins the items with the new separator, and an emptied field joins with nothing, so the output is the input without its line breaks |
| Formatter.EmptyInputGivesEmptyOutput | apps/utils/app/page.tsx:21-34 | input made only of line breaks, the empty input among them, has no items, and every operation then gives "" |
| Formatter.ProcessValueSplitsBack | apps/utils/app/page.tsx:33 | with a one-character separator (`sp` when given, else the page separator) that no item holds, the output splits back into exactly the items |
| Formatter.MapAppliesToEachItem | apps/utils/app/page.tsx:27-29 | mapping keeps the item count and applies `fn` to each item in order; an emptied item keeps its segment |
| Formatter.SliceDropsLeadingItems | apps/utils/app/page.tsx:30-32 | slicing from `start` keeps the items from that position on, or gives "" when there are not more |
| Formatter.QuoteOptionsWrapEachItem | apps/utils/app/page.tsx:43-64 | the quote options change only the output, whose segments are `'item'` and `"item"` |
| Formatter.DropFirstKeepsTheRest | apps/utils/app/page.tsx:65-70 | at most one item gives ""; otherwise the output splits into all items but the first |
| Formatter.OnePerLinePutsItemsOnLines | apps/utils/app/page.tsx:71-78 | each item is on its own line, and every line but the last ends in the separator |
| Formatter.StripQuotesRemovesAllQuotes | apps/utils/app/page.tsx:85 | no `'` or `"` survives, and every other character does |
| Formatter.StripQuotesKeepsQuoteFree | apps/utils/app/page.tsx:85 | a quote-free item is unchanged |
| Formatter.StripQuotesIdempotent | apps/utils/app/page.tsx:85 | stripping twice is stripping once |
| Formatter.StripQuotesUndoesQuoting | apps/utils/app/page.tsx:43-89 | stripping undoes either quoting of a quote-free item |
| Formatter.StripQuotesOptionStripsEachItem | apps/utils/app/page.tsx:79-89 | the strip option's segments are the items without quotes, one per item |
| Formatter.StripQuotesOfOnlyQuotes | apps/utils/app/page.tsx:85 | an item made only of quotes is emptied |
| Formatter.StripQuotesKeepsEmptiedItems | apps/utils/app/page.tsx:26-89 | an item made only of quotes is not dropped: the strip option keeps one segment per item, and that item's segment is empty, in its place |
| Formatter.ClearEmptiesBothTexts | apps/utils/app/page.tsx:97-103 | clear empties both texts and keeps the separator; every option then gives "" |
| EbayConverter.ReplaceWebpLeavesNoWebp | apps/utils/app/ebay-image-converter/page.tsx:22 | no `.webp` is left after the global replace |
| EbayConverter.ReplaceWebpKeepsLineWithoutWebp | apps/utils/app/ebay-image-converter/page.tsx:22 | a line without `.webp` passes through unchanged |
| EbayConverter.ReplaceWebpIdempotent | apps/utils/app/ebay-image-converter/page.tsx:22 | the replace branch is idempotent |
| EbayConverter.ReplaceWebpAroundOccurrence | apps/utils/app/ebay-image-converter/page.tsx:22 | each `.webp` becomes `.jpg` where it stands, and the text on either side is rewritten on its own |
| EbayConverter.QuoteFreeRun | apps/utils/app/ebay-image-converter/page.tsx:16 | `[^"]*` at a position: the longest quote-free run, ended by a quote or by the end of the line |
| EbayConverter.MatchAt | apps/utils/app/ebay-image-converter/page.tsx:16 | a capture at a position is non-empty, quote-free and made of the line's characters |
| EbayConverter.MatchAtIsThePattern | apps/utils/app/ebay-image-converter/page.tsx:16 | the matcher captures `g` at `i` exactly when `<img src="` + g + `.webp"` occurs at `i` with `g` non-empty and quote-free |
| EbayConverter.MatchFrom | apps/utils/app/ebay-image-converter/page.tsx:16 | the leftmost match: `None` exactly when no later position matches; otherwise the capture at the first position that matches |
| EbayConverter.MatchImg | apps/utils/app/ebay-image-converter/page.tsx:16-19 | a match has a non-empty, quote-free group and implies the line contains `<img src="` |
| EbayConverter.ImgPrefixContainsImgTag | apps/utils/app/ebay-image-converter/page.tsx:15-16 | a line the pattern can match passes the `includes("<img src=")` test |
| EbayConverter.ConvertLineCases | apps/utils/app/ebay-image-converter/page.tsx:13-23 | a matching line becomes group + ".jpg", which has no quote and ends in ".jpg"; any other line gets the global replace and keeps no `.webp` |
| EbayConverter.KeepNonBlank | apps/utils/app/ebay-image-converter/page.tsx:12 | `filter(url => url.trim())` keeps exactly the non-blank lines, untrimmed |
| EbayConverter.KeepNonBlankOfOne | apps/utils/app/ebay-image-converter/page.tsx:12 | the filter keeps one line exactly when it is not blank |
| EbayConverter.KeepNonBlankAppend | apps/utils/app/ebay-image-converter/page.tsx:12 | filtering a concatenation is filtering each part, in order; with `KeepNonBlankOfOne` this fixes the result for every list |
| EbayConverter.BlankInputLeavesOutput | apps/utils/app/ebay-image-converter/page.tsx:10 | blank input leaves both text areas as they were |
| EbayConverter.ConvertUrlsLines | apps/utils/app/ebay-image-converter/page.tsx:9-25 | for non-blank input, the output has one line per kept line, in order, each converted; there is at least one |
| EbayConverter.TypedInputWaitsForConvert | apps/utils/app/ebay-image-converter/page.tsx:9-59 | typing stores the input and leaves the output as it was; converting then gives the converted kept lines, or, for blank input, still the earlier output |
| EbayConverter.ClearAllEmptiesBoth | apps/utils/app/ebay-image-converter/page.tsx:27-30 | clear empties both areas, and converting then changes nothing |

## Left out

- Rendering, styling, icons and the `message` pop-ups of all three pages are presentation only.
- The browser download plumbing (Blob, object URLs, the anchor click) is DOM input and output. `Page.DownloadScript` keeps the file names, MIME types and texts.
- The `fetch` round trip, `await`, the `isProcessing` flag and the surrounding try/catch in `processFiles` are network and asynchrony. `Page.ProcessFiles` takes the decoded reply as a parameter (`None` when the request or the decoding threw), and `ProcessTwice` feeds it the endpoint model's answer.
- The endpoint's `GET` handler reads the file system under `Promise.all`. It is not part of this model.
- The copy buttons (`navigator.clipboard`) are foreign browser calls.
- The eBay page's example loader fills the input with a fixed sample text. It is UI sample data.
- Running the generated scripts (`ren`, `mv`, `Rename-Item` and wildcard expansion) happens in external shells. Only the script texts are modelled.
- Request bodies whose `oldExtension` or `newExtension` is a truthy non-string JSON value are not modelled. `Request` holds each extension as a string or as absent.
- RenameApi.Post: the per-file error text is reduced to the rendered file name (`FileError`). The wording of the message and of the caught exception is not kept.
- The scan's `nameWithoutExt` is computed by the page and never used, so only the extension of `SplitName` feeds the records.
- `event.target.files` being `null` is treated like an empty pick.
- RenameScripts.BatchScriptDeterminesExtensions, ShellScriptDeterminesExtensions and PowerShellScriptDeterminesExtensions assume the old extension holds no line break or quote. Without that, two pairs could give the same text.
- RenameApi.NewNameReplacesExtension assumes the old extension has no dot and the new one no `$`. `NewNameStraddlesWhenExtensionHasDot` shows why the dot matters. `ExpandReplacement` models what `$` does.
- Formatter.OnInputShowsItems, InitialSeparatesWithCommas, SetSeparatorAppliesFromNextAction, StripQuotesKeepsEmptiedItems, ProcessValueSplitsBack, MapAppliesToEachItem, SliceDropsLeadingItems, QuoteOptionsWrapEachItem, DropFirstKeepsTheRest and StripQuotesOptionStripsEachItem describe the output by splitting it on a one-character separator that the items lack. With a longer separator, or one that occurs in the text, the output is still the join computed by `ProcessValue`, but it cannot be split back uniquely.
- Formatter.OnePerLinePutsItemsOnLines assumes the separator holds no line break.
- RenameApi.NameValue: a record name is a string, a value a template literal renders (kept as its rendering), or an object it cannot render. Which objects cannot be rendered (those whose `toString` and `valueOf` give no primitive) is not computed from the JSON.
- The formatter models a `processValue` `op` whose `type` is neither "map" nor "slice" as `NoOp`. A slice start other than a natural number is not used by the page.

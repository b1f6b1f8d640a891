# CourseWeaver core in Dafny

CourseWeaver turns raw course notes into a Markdown study guide. A generator produces the
guide, the app previews it, and the app commits it to a GitHub repository. This project
models the two parts of the app that hold its logic.

- **The Markdown preview** (`components/MarkdownPreview.tsx`).
  - The content is split on `'\n'`, and each line is classified on its own, first match
    winning:
    - `### `, `## ` and `# ` give headings;
    - a `^\s*[-*] ` prefix gives a one-item list;
    - a blank line gives a break;
    - anything else gives a paragraph.
  - Every payload goes through `createMarkup`, five global `replace` calls in order:
    - two escapes, `<` and `>`;
    - three non-greedy delimiter substitutions, `**` to `strong`, `*` to `em`, and a
      backquote to `code`.
  - Each regular-expression pass is a left-to-right scanning function. `FindClose` is the lazy
    `(.*?)`: it finds the nearest closing delimiter and stops at a line terminator, because the
    regex `.` does not match one.
- **The action handlers of `App.tsx`**: `handleGenerateContent`, `saveToGitHub` and
  `handleSaveConfig`.
  - They are methods of a class `App.Controller` whose fields are the component's nine state
    variables.
  - Whatever happens outside the component arrives as a method parameter:
    - the outcome of the generator call;
    - the outcome of the GitHub read and of the write;
    - the base64 encoder.
  - The requests issued and the status banners shown are the methods' results.
  - The pure parts of `saveToGitHub` are functions: path stripping, the contents URL, the
    commit message and the commit body with its optional `sha`.

Modules, one per file:

- `Types` (`types.dfy`): the records of `types.ts`.
- `JsString` (`js_string.dfy`): the JavaScript builtins the code relies on:
  - the white-space set shared by `\s` and `trim()`;
  - the line terminators that `.` refuses;
  - `split` on one character, and `trim`.
- `InlineMarkup` (`inline_markup.dfy`): `createMarkup`.
- `MarkdownPreview` (`markdown_preview.dfy`): the line classifier and the renderer.
- `App` (`app.dfy`): the handlers and their helpers.

Main results:

- **Classification is a partition.** Each block kind holds exactly when its own test holds,
  so the first-match order never hides a line (`MarkdownPreview.LineKinds`).
- **Angle brackets come only from inserted tags.** The final markup decomposes into inserted
  `strong`/`em`/`code` tags and characters other than `<` and `>`
  (`InlineMarkup.MarkupAngleBracketsAreTags`).
- **At most one delimiter survives a pass.** On a payload without line terminators, each
  delimiter pass leaves at most one delimiter of its kind: any two that remain overlap
  (`InlineMarkup.PassLeavesOneUnpaired`).
- **Each handler's effect on the component state is stated.**
  - Which guard refuses, and that a refused call sends no request.
  - The exact GET and PUT that are sent.
  - The banner sequence, and which fields change and which do not.
  - Console logging and the in-flight value of the busy flags are not part of it (see
    "## Left out").

## Model

| member | source | states |
|---|---|---|
| JsString.Trim | components/MarkdownPreview.tsx:41 | `trim()` yields the empty string exactly when every character is JavaScript white space; otherwise the result begins and ends with a non-space character |
| JsString.TrimRemovesOnlyEnds | components/MarkdownPreview.tsx:41 | the trimmed string is a contiguous slice of the input, and only white space lies before and after it |
| JsString.Split | components/MarkdownPreview.tsx:32 | `split('\n')` yields one more piece than there are separators; no piece contains the separator; joining the pieces with it restores the input |
| JsString.SplitAround | components/MarkdownPreview.tsx:32 | splitting `a + sep + b` yields the pieces of `a` followed by the pieces of `b` |
| JsString.SplitNoSeparator | components/MarkdownPreview.tsx:32 | a string without the separator splits into exactly itself |
| JsString.SplitJoin | components/MarkdownPreview.tsx:32 | `split` inverts `join` when no piece contains the separator |
| InlineMarkup.ReplaceAll | components/MarkdownPreview.tsx:22-23 | a global one-character replace leaves any string without that character unchanged |
| InlineMarkup.ReplaceAllCharacters | components/MarkdownPreview.tsx:22-23 | each output character is either a kept input character other than the replaced one, or a character of the replacement |
| InlineMarkup.Escape | components/MarkdownPreview.tsx:21-23 | after the two escape passes no `<` or `>` is left; every character is a non-bracket input character or one of `&lt;`/`&gt;` |
| InlineMarkup.EscapeIsPerCharacter | components/MarkdownPreview.tsx:21-23 | the two sequential passes equal one simultaneous substitution of `<` by `&lt;` and `>` by `&gt;`, keeping every other character (reference `EscapeEach`) |
| InlineMarkup.FindClose | components/MarkdownPreview.tsx:24-26 | a reported closing position lies at or after the capture start, and the delimiter occurs there |
| InlineMarkup.FindCloseIsNearest | components/MarkdownPreview.tsx:24-26 | the lazy `(.*?)` closes at the nearest position where the delimiter occurs with no line terminator before it; `None` means no such position exists |
| InlineMarkup.ReplaceDelimited | components/MarkdownPreview.tsx:24-26 | one `.replace(/d(.*?)d/g, ...)` pass as a left-to-right scan. It carries no contract of its own; its properties are lemmas: the leftmost delimiter that has a legal partner is paired with the nearest one, the text before it is copied and the pass resumes after the partner (`LeftmostMatch`); without such a delimiter the text is unchanged (`NoMatch`); it closes at the nearest legal partner (`FindCloseIsNearest`); its output characters come from the input or the tags (`PassCharacters`); it keeps every bracket inside an inserted tag (`ReplaceDelimitedKeepsTagSafe`); on one line it leaves at most one unpaired delimiter (`PassLeavesOneUnpaired`); reading its output back, with each of its own tags turned into the delimiter, gives the input again (`ReplaceDelimitedUnwraps`) |
| InlineMarkup.LeftmostMatch | components/MarkdownPreview.tsx:24-26 | when `i` is the leftmost position where the delimiter occurs with a legal closing partner, and `j` is the nearest such partner (no line terminator between), the output is the text before `i`, the opening tag, the text between the delimiters, the closing tag, and the pass applied to what follows the partner |
| InlineMarkup.NoMatch | components/MarkdownPreview.tsx:24-26 | when no delimiter occurrence has a legal closing partner, the pass returns its input unchanged |
| InlineMarkup.EmPairsNearest | components/MarkdownPreview.tsx:25 | `*a*b*` becomes `<em>a</em>b*`: the first `*` pairs with the nearest one and the last stays as it is |
| InlineMarkup.PassCharacters | components/MarkdownPreview.tsx:24-26 | every output character comes from the input or from the opening or closing tag |
| InlineMarkup.ReplaceDelimitedWithoutDelimiter | components/MarkdownPreview.tsx:24-26 | a pass leaves unchanged any text in which its delimiter's first character never appears |
| InlineMarkup.MarkerFreeIsUnchanged | components/MarkdownPreview.tsx:24-26 | text without `*` or a backquote goes through the three delimiter passes unchanged |
| InlineMarkup.PlainTextIsOnlyEscaped | components/MarkdownPreview.tsx:21-26 | for a payload with no `*` and no backquote, `createMarkup` is exactly the per-character escape |
| InlineMarkup.CreateMarkup | components/MarkdownPreview.tsx:20-28 | the chain of five passes, each of the last three pairing as `LeftmostMatch` and `NoMatch` state. Its properties are lemmas: every bracket of the markup belongs to an inserted tag (`MarkupAngleBracketsAreTags`); a payload without `*` or a backquote is only escaped (`PlainTextIsOnlyEscaped`); on one line at most one backquote stays unpaired (`MarkupLeavesOneUnpairedBackquote`); the bold pass over the escaped payload reads back to the escaped payload (`BoldPassUnwraps`) |
| InlineMarkup.ReplaceDelimitedKeepsTagSafe | components/MarkdownPreview.tsx:24-26 | a delimiter pass preserves the property that every `<`/`>` belongs to an inserted `strong`/`em`/`code` tag |
| InlineMarkup.ReplaceDelimitedUnwraps | components/MarkdownPreview.tsx:24-26 | for tag-safe input holding none of the pass's own two tags, turning each `<tag>` and `</tag>` of the output back into the delimiter gives the input: the captured `$1` stays between the tags unchanged and all other text is kept, in order |
| InlineMarkup.BoldPassUnwraps | components/MarkdownPreview.tsx:21-24 | the `**` to `<strong>` pass over the escaped payload loses nothing: turning its `<strong>` and `</strong>` back into `**` gives the escaped payload |
| InlineMarkup.MarkupAngleBracketsAreTags | components/MarkdownPreview.tsx:21-26 | the final markup is a sequence of inserted `strong`/`em`/`code` tags and characters other than `<`/`>`; no bracket from the payload survives |
| InlineMarkup.OutputAgreesBeforeTag | components/MarkdownPreview.tsx:24-26 | up to its first `<`, a pass's output is a copy of the same prefix of its input |
| InlineMarkup.NothingToPair | components/MarkdownPreview.tsx:24-26 | when no delimiter starts after the first `m` positions (with `m` no longer than the delimiter), the pass changes nothing |
| InlineMarkup.PassLeavesOneUnpaired | components/MarkdownPreview.tsx:24-26 | on a payload without line terminators, any two delimiter occurrences left in a pass's output overlap: at most one delimiter stays unpaired |
| InlineMarkup.PassKeepsOneLine | components/MarkdownPreview.tsx:24-26 | a pass adds no line terminator |
| InlineMarkup.MarkupLeavesOneUnpairedBackquote | components/MarkdownPreview.tsx:21-26 | the whole chain on one line leaves at most one unpaired backquote in the final markup |
| InlineMarkup.EmptyBoldPair | components/MarkdownPreview.tsx:24 | empty contents pair: `createMarkup("****")` is `<strong></strong>` |
| InlineMarkup.BoldPassOnFourStars | components/MarkdownPreview.tsx:24 | the bold pass pairs the first two and last two asterisks of `****` around empty contents |
| MarkdownPreview.ListMarker | components/MarkdownPreview.tsx:36-38 | `^\s*[-*] ` matches a line exactly when a prefix of the line has that form; the matched prefix is unique, and it is the part `replace` removes |
| MarkdownPreview.HeadingIsNotListOrBlank | components/MarkdownPreview.tsx:33-41 | the tests are mutually exclusive: `### `, `## ` and `# ` lines pass no later heading test, and heading, list and blank lines are pairwise distinct |
| MarkdownPreview.ClassifyLine | components/MarkdownPreview.tsx:33-42 | the if-chain of one line, first match winning. It carries no contract of its own; `LineKinds` characterises each kind by its own test with its exact payload, and `HeadingIsNotListOrBlank` shows the tests exclusive |
| MarkdownPreview.LineKinds | components/MarkdownPreview.tsx:33-42 | each block kind holds if and only if its own test holds. H3, H2 and H1 carry the markup of `line[4..]`, `line[3..]` and `line[2..]`; a list item carries the line minus its one matched prefix; a paragraph carries the whole untrimmed line; a break is exactly an all-white-space line |
| MarkdownPreview.Map | components/MarkdownPreview.tsx:32 | `map` keeps the length and applies the function at every index |
| MarkdownPreview.RenderLines | components/MarkdownPreview.tsx:32 | the number of blocks is the number of `'\n'` plus one |
| MarkdownPreview.Render | components/MarkdownPreview.tsx:9-43 | the placeholder appears exactly for empty content; any other content yields a non-empty block list with one block per line, namely `RenderLines(content)`, so `RenderJoinedLines` and `RenderedMarkupIsTagSafe` describe what the component shows |
| MarkdownPreview.RenderLinesAround | components/MarkdownPreview.tsx:32 | lines render independently: the blocks of `a + "\n" + b` are those of `a` followed by those of `b` |
| MarkdownPreview.RenderOneLine | components/MarkdownPreview.tsx:32-42 | a line without `'\n'` renders as the single block its classification gives |
| MarkdownPreview.RenderJoinedLines | components/MarkdownPreview.tsx:32-42 | lines joined with `'\n'` render as their classifications, in input order |
| MarkdownPreview.RenderedMarkupIsTagSafe | components/MarkdownPreview.tsx:32-42 | in every non-break block, every angle bracket belongs to an inserted tag |
| MarkdownPreview.NotHeadings | components/MarkdownPreview.tsx:33-42 | `#### x` and `#x` are paragraphs holding the whole line |
| MarkdownPreview.OnePrefixRemoved | components/MarkdownPreview.tsx:36-38 | only one list prefix is removed: `- - x` is an item whose text is `- x` |
| App.ErrorMessage | App.tsx:80 | a thrown `Error` reports its message; any other thrown value reports `An unknown error occurred` |
| App.GenerationFailed | App.tsx:80-81 | a failed generation shows an error banner of `Generation failed: ` followed by the error's message |
| App.RepoPath | App.tsx:102 | the path is the file name, or the file name minus one leading `/` |
| App.RepoPathStripsOneSlash | App.tsx:102 | exactly one leading slash is removed (`//a` gives `/a`); a name without a leading slash is unchanged |
| App.ContentsUrl | App.tsx:103 | the URL is the repos endpoint followed by `owner/repo/contents/path` |
| App.ContentsUrlIsInjective | App.tsx:103 | for owner and repository names without `/`, equal URLs have equal owner, repository and path |
| App.CommitMessage | App.tsx:127 | the message begins with `docs: update ` and ends with ` via CourseWeaver`, and its length is theirs plus the file name's (which `CommitMessageNamesFile` reads back from between them) |
| App.CommitMessageNamesFile | App.tsx:127 | the file name can be read back from the commit message |
| App.ShaAfterRead | App.tsx:105-117 | `sha` stays null unless the read returned ok, in which case it is the response's `sha` field |
| App.BuildBody | App.tsx:121-131 | the body holds the commit message, the encoded content and the branch; `sha` is present exactly when the known sha is non-empty, and then equals it |
| App.BodyShaComesFromRead | App.tsx:105-131 | the PUT updates an existing file exactly when the read was ok with a non-empty sha; a thrown or non-ok read makes the PUT a creation |
| App.RejectionMessage | App.tsx:142-145 | a rejected write reports the server's message, or `Failed to commit to GitHub` when that message is empty or absent; it is never empty |
| App.SaveResult | App.tsx:142-151 | the final banner is a success exactly when the write was ok; otherwise it is an error of `GitHub Save Failed: ` plus the rejection's or the thrown error's message |
| App.EmptyRejectionUsesFallback | App.tsx:144 | an empty server message and an absent one give the same banner, which names the fallback |
| App.Controller.constructor | App.tsx:21-44 | the initial state: empty notes and guide, `chapter_draft.md`, the editor tab, branch `main`, the default system prompt, all flags false, and a blank banner |
| App.Controller.HandleSaveConfig | App.tsx:57-62 | stores the current settings unchanged, shows `Settings saved locally.`, closes the panel, and changes nothing else |
| App.Controller.HandleGenerateContent | App.tsx:64-85 | blank notes: the error banner, no generator call, nothing else changed. Otherwise: one call with the notes and the system prompt; on success the guide is stored and the preview tab shown; on failure the guide and tab keep their old values; `isGenerating` is false on exit |
| App.Controller.RunGeneration | App.tsx:70-84 | one generator call, then the banners `Weaving` and the outcome's banner; the success and failure effects above; `isGenerating` is false on exit |
| App.Controller.SaveToGitHub | App.tsx:87-155 | missing settings are refused first: the panel opens and no request is sent. Blank content is refused next. Otherwise a GET and a PUT go to the contents URL of the stripped path, with the token header; the PUT carries the commit body built from the read; the last banner depends on the write alone; `isSaving` is false on exit; notes, guide, file name, tab and settings are unchanged |
| App.Controller.Commit | App.tsx:98-154 | the GET and the PUT sent after both guards, the banners `Committing` and the write's result, `isSaving` false on exit, and every other field unchanged |

## Left out

- The generator service wrapper (`services/geminiService.ts`) is not part of this model. A
  call that throws, including its throw on a response without text, is the
  `GenerationThrew` outcome.
- `fetch`, the request headers other than `Authorization`, `JSON.stringify` and `.json()` are
  I/O. Their outcomes are the `ReadOutcome` and `WriteOutcome` inputs.
- `localStorage`: the startup load (App.tsx:46-55) is not modelled. `HandleSaveConfig`
  returns the value it would store.
- The content encoding `btoa(unescape(encodeURIComponent(...)))` (App.tsx:119) is the
  function parameter `encode`.
- App.Controller.Commit: treats `encode` as total. It does not model `encodeURIComponent`
  throwing on a lone surrogate, which the source reports as a failed save.
- The timer that clears the settings banner after three seconds (App.tsx:60).
- Asynchrony:
  - Each handler runs as one atomic step.
  - The info banner shown while a call is pending is the first element of the returned
    `statuses`. The raised `isGenerating` or `isSaving` flag during the call is not
    observable: the contracts state only that the flag is false on exit.
  - Interleaving of a generation with a commit, React batching and stale closures are not
    modelled.
  - As in the code, the handlers do not check an in-flight flag themselves; only the
    disabled buttons prevent re-entry.
- The `console.error` logging of a failed generation and of a failed save (App.tsx:79,
  App.tsx:149), and of a bad stored configuration at startup, is output only and is not
  modelled.
- `components/SettingsPanel.tsx`, JSX, styling, and the injection of the markup through
  `dangerouslySetInnerHTML`: the output is strings and blocks, not a DOM tree.
- JavaScript strings are sequences of UTF-16 code units. The model uses Dafny characters
  (Unicode scalar values), so surrogate pairs are not represented.
- Non-string JSON values in the `sha` and `message` fields: the code tests them for
  truthiness. The model takes them as optional strings, and the empty string plays the
  part of every falsy value.
- App.Controller.HandleGenerateContent: the `!x.trim()` guard is stated as "all white
  space", which is equivalent by the contract of `JsString.Trim`. The same holds for
  App.Controller.SaveToGitHub.
- InlineMarkup.PassLeavesOneUnpaired: the bound applies to each pass's own output. Over the
  whole chain it is stated only for the last (backquote) pass, because the later `*` pass
  rewrites the asterisks the bold pass leaves behind.
- InlineMarkup.BoldPassUnwraps: the read-back over the chain is stated for the bold pass
  only. The `*` and backquote passes are covered by `ReplaceDelimitedUnwraps` when their
  input holds none of their own tags. Each pass inserts only its own tags, but the model
  does not prove that the chain's intermediate strings are free of the later passes' tags.

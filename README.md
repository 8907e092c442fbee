# Docs exporter core, modelled in Dafny

`export-docs.py` turns a tree of Markdown/MDX documentation into a single HTML
document (and from it a PDF). Around git, the filesystem, the Markdown
renderer and the headless browser sits a small, deterministic core, which
this project models and proves things about:

- **the document loop** of `process_files`. Each document is read and rewritten:
  - `srcLight`/`srcDark` image attributes get absolute URLs (optional);
  - fenced code blocks with a `filename="…"` attribute get a header.

  Then its front matter is split off, its HTML tags are protected by
  placeholders, it is parsed as YAML, and the tags are restored and escaped.
  A document with a mapping as front matter is numbered by a hierarchical
  counter and gets a table-of-contents line and a page heading. Pages are
  joined with a page-break marker between consecutive documents.
- **the file order** of `get_files_sorted`: a walk's files sorted by a key
  that puts a directory's `index.md`/`index.mdx` first.
- **the version pick** of `find_latest_version`: the greatest `v<d>.<d>.<d>`
  token under numeric ordering.

Modules:

- `Wrappers`: `Option`, `Result`.
- `Text`: the Python string operations used, over `seq<char>`. They are
  `in`, `split`/`join`, `str(int)`, `strip`, `replace`, `title` and
  `html.escape`.
- `Paths`: `os.path.join`, `basename`, `splitext`, and the document depth.
- `Scanner`: leftmost, non-overlapping pattern scanning. It models `re.sub`
  and `re.findall` for a pattern given as a matcher function.
- `Rewrite`: the image-path and code-fence rewrites.
- `Frontmatter`: `parse_frontmatter`, `preprocess_frontmatter` and
  `restore_html_tags`.
- `FileOrder`: `get_files_sorted`.
- `Toc`: the counter, as a class updated in place, and its numbering.
- `Export`: the loop of `process_files`.
- `Versions`: `find_latest_version`.

Each regular expression is written as a matcher over the text. Its
greediness and backtracking are spelled out: the lazy `(.*?)` stops at the
first quote, and `\s*` gives back blanks up to a newline. Python's `re.sub`
is the scanner's output.

The functions for YAML (`yaml.safe_load`), for Markdown
(`markdown.markdown`) and for the page heading template are parameters of
the loop. The file list and file contents are inputs.

## Model

| member | source | states |
|---|---|---|
| Text.Split | export-docs.py:62 | `str.split` gives at least one part, and no part holds the separator |
| Text.JoinSplit | export-docs.py:65-66 | joining the parts of a split with the same separator gives the text back |
| Text.SplitJoin | export-docs.py:203 | splitting a join of separator-free parts gives the parts back |
| Text.NatToString | export-docs.py:138 | `str(n)` is a non-empty digit string starting with `0` only for zero |
| Text.DigitsRoundTrip | export-docs.py:203 | reading back the decimal rendering of `n` gives `n` |
| Text.NatToStringInjective | export-docs.py:203 | different numbers render differently |
| Text.Strip | export-docs.py:63 | `str.strip` leaves no whitespace at either end, and gives the empty text exactly when the text is all whitespace |
| Text.StripPadded | export-docs.py:63 | whitespace around a core that starts and ends in non-whitespace is removed exactly |
| Text.ReplaceAbsent | export-docs.py:151 | `str.replace` leaves text without an occurrence unchanged |
| Text.ReplaceSkip | export-docs.py:151 | `str.replace` copies a prefix in which no occurrence starts |
| Text.ReplaceFront | export-docs.py:151 | `str.replace` replaces an occurrence at the front and resumes after it |
| Text.TitleFromShape | export-docs.py:204 | `str.title`: a letter is upper-case exactly when the character before it is not a letter, and nothing but the case of letters changes |
| Text.TitleFromIdempotent | export-docs.py:204 | title-casing twice is title-casing once |
| Text.HtmlEscape | export-docs.py:152 | `html.escape` leaves no `<`, `>`, `"` or `'` in its result |
| Text.EscapeRoundTrip | export-docs.py:152 | unescaping `html.escape(s)` gives `s` back: the escape loses nothing |
| Text.RunUntil | export-docs.py:32 | the run matched by `[^"]+` (and by `[^>]+` at line 142) is the longest one free of the stop character, and the stop character follows it unless the text ends |
| Paths.Basename | export-docs.py:190 | `os.path.basename` is the suffix after the last `/`, holding no `/` |
| Paths.Stem | export-docs.py:204 | `os.path.splitext(...)[0]` drops the last extension, keeping leading dots |
| Paths.JoinUnderDirectory | export-docs.py:125-127 | `os.path.join(root, name)` of a relative name is the directory prefix followed by the name |
| Paths.CountComponents | export-docs.py:189 | the number of separators is one less than the number of path components |
| Paths.IndexAtDirectoryLevel | export-docs.py:188-192 | an `index.*` document sits one level above its siblings, at its directory's own depth |
| Scanner.PiecesLossless | export-docs.py:27 | scanning a text cuts it into pieces that concatenate back to the text |
| Scanner.Leftmost | export-docs.py:27 | every kept character is a position where the pattern does not match, and every match is what the pattern reports there |
| Scanner.NoMatchUnchanged | export-docs.py:27 | where the pattern matches nowhere, `re.sub` returns the text and `re.findall` returns nothing |
| Scanner.NothingFoundNoMatch | export-docs.py:249 | when `re.findall` finds nothing, the pattern matches at no position |
| Scanner.FoundAtSomePosition | export-docs.py:249 | every found item is what the pattern reports at some position of the text |
| Scanner.WholeMatch | export-docs.py:27 | a text matched whole is replaced by its replacement |
| Rewrite.ImageMatch | export-docs.py:16-24 | a match is `srcLight="` or `srcDark="`, then the shortest newline-free run up to a `"`, and it becomes `src="` + base path + run + path arguments + `"`. Without a match, the attribute is absent or every later quote has a newline before it |
| Rewrite.ImageMatchFound | export-docs.py:16-24 | the first closing quote on the line ends the match (lazy `.*?`) |
| Rewrite.ImagePathsUntouched | export-docs.py:14-27 | text without `srcLight="` or `srcDark="`, plain `src="…"` included, is unchanged |
| Rewrite.ImageAttributeRewritten | export-docs.py:14-27 | `srcLight="p"` or `srcDark="p"` becomes `src="` + base path + p + path arguments + `"` |
| Rewrite.FindFence | export-docs.py:32 | the lazy `(.*?)` ends at a fence opening at or after the start |
| Rewrite.FindFenceFirst | export-docs.py:32 | it is the first such fence |
| Rewrite.PadEnd | export-docs.py:32 | `\s*(switcher)?\n`: when `switcher` and a newline follow all the leading blanks, they are all taken. Otherwise the blanks taken end at the last newline among them, and the match fails exactly when there is none |
| Rewrite.FenceAt | export-docs.py:32 | a match is a well-formed fence followed by the rest of the text. Well-formed means: a word language, blanks, a file name, blanks cut where the greedy `\s*` cuts them, an optional `switcher`, and code free of fences |
| Rewrite.CloseComplete | export-docs.py:32 | blanks, `switcher`, code and closing fence cut as the pattern cuts them are read back as exactly those parts |
| Rewrite.FenceComplete | export-docs.py:32 | every well-formed fence, whatever follows it, is matched as that fence, with that text after it |
| Rewrite.FenceUnique | export-docs.py:32 | a text is the text of at most one well-formed fence and tail, so the captured language, file name and code are determined |
| Rewrite.FenceMatchOf | export-docs.py:34-42 | a matched fence is replaced by the header, then a re-tagged fence around the unchanged code |
| Rewrite.CodeBlocksUntouched | export-docs.py:30-45 | text without `filename="` is unchanged, so fences without a file name are left alone |
| Rewrite.FenceHoldsFilename | export-docs.py:32 | every text the pattern matches holds `filename="` |
| Rewrite.PlainFenceAt | export-docs.py:32 | the usual form, fence + language + blank + `filename="f"` + newline + code + fence, is matched whole |
| Rewrite.PlainFenceRewritten | export-docs.py:30-45 | the usual form becomes `<div class="code-header"><i>f (lang)</i></div>` (or without ` (lang)`), then a newline, the fence with the language, a newline, the code, a newline and the closing fence |
| Rewrite.BlankFirstLineDropped | export-docs.py:32-42 | in the usual form, a blank first line of code is taken by `\s*` and is missing from the rewritten block, which equals the one without it |
| Frontmatter.IndexFrom | export-docs.py:64 | `lines.index('---', 1)`: the first matching line from index 1, or none when there is none |
| Frontmatter.ParseFrontmatter | export-docs.py:61-68 | if the first line, stripped, is not `---`, there is no front matter and the text is unchanged. Otherwise it fails exactly when no later line is exactly `---`. Else the front matter is the lines strictly between the opener and the first closing line, and the content is the lines after it |
| Frontmatter.SplitAround | export-docs.py:62 | splitting at a separator splits both sides independently |
| Frontmatter.ComposeThenParse | export-docs.py:61-68 | an opener, front matter without a `---` line, `---` and content parse back into that front matter and content |
| Frontmatter.TagMatch | export-docs.py:142 | a match of `<[^>]+>` is a tag: `<`, at least one character other than `>`, then `>` |
| Frontmatter.TagMatchComplete | export-docs.py:142 | a tag at the front is matched whole, whatever follows |
| Frontmatter.Placeholder | export-docs.py:138 | `HTML_TAG_<n>` starts with `HTML_TAG_` followed by a non-empty run of digits |
| Frontmatter.TagsAreTags | export-docs.py:136-142 | every recorded tag matches `<[^>]+>` |
| Frontmatter.BindingsFrom | export-docs.py:138-139 | one binding per tag |
| Frontmatter.BindingAt | export-docs.py:138-139 | the k-th recorded tag is stored under `HTML_TAG_k`, in match order |
| Frontmatter.PreprocessFrontmatter | export-docs.py:133-143 | the method returns the front matter with its k-th tag replaced by `HTML_TAG_k`, and the bindings of the tags in order |
| Frontmatter.PiecesAreTags | export-docs.py:142 | the scan for tags cuts the text into kept characters and tags reported as themselves |
| Frontmatter.AllRestored | export-docs.py:150-151 | once every placeholder is replaced by its own tag, the text is the source |
| Frontmatter.KeepPrefix | export-docs.py:150-151 | restored text can only start with a `<`- and `H`-free word where the source does |
| Frontmatter.SkipTag | export-docs.py:151 | replacing a single-digit placeholder passes over a restored tag |
| Frontmatter.SkipPlaceholder | export-docs.py:151 | replacing a single-digit placeholder passes over any other single-digit placeholder |
| Frontmatter.SkipKeep | export-docs.py:151 | replacing a single-digit placeholder passes over a kept character |
| Frontmatter.RestoreStep | export-docs.py:150-151 | replacing placeholder j by the j-th tag restores exactly that one tag |
| Frontmatter.RestoreFrom | export-docs.py:150-151 | replacing the remaining placeholders in insertion order restores every tag |
| Frontmatter.ProtectRoundTrip | export-docs.py:133-154 | with at most ten tags and no literal `HTML_TAG_` in the input, putting the tags back in insertion order gives the front matter exactly |
| Frontmatter.PlaceholderCollision | export-docs.py:138-151 | `HTML_TAG_1` is a prefix of `HTML_TAG_10`, and putting back tag 1 turns `HTML_TAG_10` into that tag followed by `0` |
| Frontmatter.LiteralPlaceholderLost | export-docs.py:136-151 | a tag followed by the literal text `HTML_TAG_0` comes back as the tag twice |
| Frontmatter.ProtectTagThen | export-docs.py:136-142 | a tag followed by text without `<` becomes `HTML_TAG_0` followed by that text, with one recorded tag |
| Frontmatter.RestoreProtected | export-docs.py:133-154 | under the same bounds, a string value restored from the protected front matter is the escaped original |
| Frontmatter.RestoreAll | export-docs.py:146-154 | in a mapping every key stays, every string value gets its tags back and is escaped, and every other value, nested mappings included, stays. A document that is not a mapping is returned unchanged |
| Frontmatter.RestoreHtmlTags | export-docs.py:146-154 | the in-place update computes exactly `RestoreAll` |
| FileOrder.LessIrreflexive | export-docs.py:129 | string order is irreflexive |
| FileOrder.LessTransitive | export-docs.py:129 | string order is transitive |
| FileOrder.LessTotal | export-docs.py:129 | string order is total |
| FileOrder.LessAtDifference | export-docs.py:129 | strings with a common prefix are ordered by their first difference |
| FileOrder.DirEntries | export-docs.py:124-128 | one entry per file of a directory, holding the joined path and the sort key |
| FileOrder.PathsOf | export-docs.py:130 | the result keeps the full path of each entry, in order |
| FileOrder.InsertSorted | export-docs.py:129 | insertion keeps the entries sorted |
| FileOrder.InsertPermutes | export-docs.py:129 | insertion adds exactly the new entry and loses none |
| FileOrder.SortByKeyCorrect | export-docs.py:129 | the sort result is sorted by key and is a permutation of the input |
| FileOrder.InsertWithKey | export-docs.py:129 | insertion puts the new entry after every entry with the same key |
| FileOrder.SortByKeyStable | export-docs.py:129 | `list.sort` is stable: entries with equal keys keep their order |
| FileOrder.SortedPrecedes | export-docs.py:129 | in a sorted list, a smaller key comes first |
| FileOrder.IndexKeyFirst | export-docs.py:126-127 | the `!!!`-prefixed key of `index.md`/`index.mdx` is smaller than any key in its directory whose name starts after `!` |
| FileOrder.GetFilesSorted | export-docs.py:121-130 | the method returns the paths of the walked entries, sorted by key |
| FileOrder.ExportOrder | export-docs.py:121-130 | the order is a sorted permutation of the walked files, and each directory's index file precedes every file below that directory whose relative path starts after `!` |
| Toc.Zeros | export-docs.py:195-196 | the appended slots are zero |
| Toc.AdvanceShape | export-docs.py:195-201 | after a visit at depth d, the counter has more than d slots and slot d is one higher. Slots below d are unchanged, and slots above d are zero |
| Toc.TocCounter.Visit | export-docs.py:195-203 | the in-place update of `numbering` computes `Advance`, and the returned text is the label of slots `0..d` |
| Toc.TocCounter.Grow | export-docs.py:195-196 | the appending loop pads the counter with zero slots until slot d exists, and changes nothing else |
| Toc.TocCounter.Bump | export-docs.py:198-201 | slot d is counted up and every deeper slot is set to zero, in place |
| Toc.TocCounter.constructor | export-docs.py:171 | the counter starts as `[0]` |
| Toc.Render | export-docs.py:203 | `map(str, …)` renders one string per slot |
| Toc.RenderAt | export-docs.py:203 | the k-th string is the decimal rendering of slot k |
| Toc.NoDotInNumber | export-docs.py:203 | a rendered count holds no dot |
| Toc.LabelComponents | export-docs.py:203 | the numbering splits at dots into exactly d+1 components, the counts of slots `0..d` |
| Toc.LabelsDistinct | export-docs.py:203 | different slot prefixes give different numberings |
| Toc.VisitRenumbers | export-docs.py:198-203 | a visit at depth d changes the numbering shown at depth d |
| Toc.Labels | export-docs.py:195-203 | one numbering per visit |
| Toc.WorkedNumbering | export-docs.py:195-203 | depths 0, 1, 1, 0, 1 are numbered `1`, `1.1`, `1.2`, `2`, `2.1` |
| Toc.Counters | export-docs.py:195-201 | one counter state per visit |
| Toc.CountersAt | export-docs.py:195-201 | each counter state advances the previous one |
| Toc.LabelsAt | export-docs.py:203 | the k-th numbering is the label of the k-th counter state |
| Toc.BeforeTransitive | export-docs.py:198-201 | the order of counter states is transitive |
| Toc.AdvanceForward | export-docs.py:198-201 | every visit moves the counter strictly forward |
| Toc.CountersForward | export-docs.py:195-201 | later counter states come after earlier ones |
| Toc.LabelPinsCounter | export-docs.py:200-203 | a numbering determines the whole counter, since deeper slots are zero |
| Toc.LabelsUnique | export-docs.py:173-206 | however documents are nested, no two visits get the same numbering |
| Toc.LabelsSnoc | export-docs.py:195-203 | one more visit adds one numbering, the label of the counter it leaves |
| Export.RelPath | export-docs.py:188 | the relative path of a file below the docs directory is what follows the directory prefix |
| Export.Lookup | export-docs.py:204 | `data.get(key)` is absent exactly when no entry has the key, and present values belong to an entry with the key |
| Export.Numbered | export-docs.py:188-231 | a numbered document advances the counter at its depth and adds one line built from its numbering and title to the table of contents. Its page is the heading template's output followed by the rendered body. It fails exactly when the heading template fails |
| Export.Step | export-docs.py:173-232 | one document adds exactly one page. A document whose front matter is not a mapping leaves the counter and the table of contents as they were. A document whose front matter is a mapping advances the counter at its depth and adds one entry line with that numbering and its title |
| Export.StepMissingClosingLine | export-docs.py:181 | a document whose front matter is never closed fails with its path |
| Export.StepSkipsUnloaded | export-docs.py:183-231 | a document with missing or empty front matter, or front matter that YAML rejects, keeps the counter and the table of contents, and its page is its rendered content |
| Export.StepNumbersMapping | export-docs.py:186-231 | a document whose front matter loads as a mapping is numbered with its restored entries and its rendered content as the body |
| Export.StepRejectsNonMapping | export-docs.py:186-204 | front matter that loads as something other than a mapping ends the export with the document's path |
| Export.Fold | export-docs.py:173-235 | after n documents there are n pages and the counter has at least one slot |
| Export.LoadFrontmatter | export-docs.py:183-187 | empty or missing front matter, or a YAML error, gives no data. Otherwise the data is the parse of the protected text, restored |
| Export.VisitDoc | export-docs.py:174-232 | one pass of the loop fails exactly when `Step` fails, with the same error. Otherwise it updates the counter as `Step` does, and returns the entry line and the page |
| Export.ProcessFiles | export-docs.py:157-235 | the loop, with the counter updated in place, gives exactly `ExportAll`: the table of contents, and the pages joined with a page break between consecutive documents, or the first error |
| Export.FailureSticks | export-docs.py:173-235 | once a document fails, the export fails with that error, whatever follows |
| Export.UnclosedFrontmatterFails | export-docs.py:61-68 | a document that opens front matter without closing it ends the export with its path |
| Export.PlainDocumentUnnumbered | export-docs.py:181-232 | a document without front matter adds no entry and its page is the rendered text |
| Export.JoinWithLength | export-docs.py:234-235 | the joined length is the pages' total plus one marker fewer than there are pages, and the join ends with the last page |
| Export.JoinWithSplit | export-docs.py:234-235 | cut between any two pages, the join is the pages before, one marker, and the pages after: exactly one marker between consecutive pages |
| Export.NumberedDepths | export-docs.py:186-192 | at most one depth per document: those of the documents whose front matter is a mapping, in order |
| Export.NumberedTitles | export-docs.py:204 | one title per numbered document, in order |
| Export.ExportTocNumbered | export-docs.py:173-206 | a successful export's table of contents is one entry line per document whose front matter is a mapping, in order, with that document's depth and title and the label a fresh counter gives it. No two labels are equal |
| Versions.DigitRun | export-docs.py:248 | `\d+` takes the longest run of digits |
| Versions.TokenAt | export-docs.py:248 | a match is `v`, then three dot-separated non-empty digit groups, the last one ending where the digits end |
| Versions.VersionMatchComplete | export-docs.py:248 | `v` and three dotted digit groups at the front are matched |
| Versions.TokenSplits | export-docs.py:248-250 | a token's text splits into its three groups and parses to their decimal values |
| Versions.VersionMatchParses | export-docs.py:248-250 | every captured text is a version text |
| Versions.FoundVersions | export-docs.py:249 | everything `findall` returns is a version text |
| Versions.OlderOrder | export-docs.py:250 | numeric component ordering is a strict total order |
| Versions.LatestOf | export-docs.py:250-251 | none exactly for no tokens. Otherwise one of the tokens, not older than any token |
| Versions.Tokens | export-docs.py:249 | the tokens found are version texts |
| Versions.LatestVersionSpec | export-docs.py:247-251 | the result is none exactly when `v<d>.<d>.<d>` occurs nowhere. Otherwise it is a found token that no found token is newer than |
| Versions.ReleaseRoundTrip | export-docs.py:250 | parsing a written-out release gives it back |
| Versions.LatestOfThree | export-docs.py:250-251 | of three versions, the one newer than both others is picked |
| Versions.NumericNotTextual | export-docs.py:247-251 | among `1.2.0`, `1.10.0` and `1.9.9`, `1.10.0` is picked |

## Left out

- `clone_repo` and `CloneProgress` are not part of this model. They do git operations over the network, with progress bars.
- `is_file_open` is not part of this model. It probes file permissions.
- `generate_pdf` is not part of this model: it renders through a headless browser.
- The `__main__` block is not part of this model. It holds the configuration, the cover page and the `datetime` stamps.
- `preprocess_mdx_content` is not part of this model: nothing calls it.
- Markdown rendering (`markdown.markdown`) is a parameter `render` of the loop, and nothing is assumed about it.
- YAML parsing (`yaml.safe_load` behind `safe_load_frontmatter`) is a parameter `load`. It returns `None` for a YAML error or an empty document. A mapping is a sequence of key/value entries. A value is a string, or any other value as it is shown.
- The page heading template is a parameter: the heading, documentation path, description and related block, through the closing `</br>`. So are the wrapping HTML templates and the `styles.css` read. `process_files` returns its table of contents and joined pages without them.
- Export.HeadingTemplate: a heading template that raises, for instance on a `related` value that is not a mapping, is one `HeadingFailed` error. Which values make it raise is not modelled.
- `os.walk` and file reading are inputs: a sequence of directories, each with its file names in walk order, and a sequence of documents with their contents.
- Export.RelPath: only paths below the docs directory are modelled, which is all a walk of that directory yields. Other paths are not given `..` components.
- Paths use `/` as the separator: `os.sep` on Windows and the `chr(92)` replacement only matter on Windows paths.
- Text.IsSpace, Text.IsCased and Rewrite.IsWordChar: `str.strip` and `\s` are modelled with Python's whitespace set. `\w`, `\d` and `str.title` are modelled on ASCII letters and digits. Unicode letters and digits are not modelled.
- Versions.LatestOf: two different spellings of the same version, such as `1.02.0` and `1.2.0`, come out of `sorted(set(...))` in hash order. The model picks the first of them in the text.
- Frontmatter.ProtectRoundTrip is proved only for at most ten tags and no literal `HTML_TAG_` in the input. Beyond that the source does not round-trip: `PlaceholderCollision` and `LiteralPlaceholderLost` exhibit it.
- Rewrite.PlainFenceRewritten and Rewrite.PlainFenceAt describe the usual fence form: a language, one blank, the file name, a newline and code. Every other form is covered by Rewrite.FenceComplete and Rewrite.FenceUnique, with no closed formula for its rewrite.
- Rewrite.PlainFenceRewritten: code whose first line is blank loses that line, since `\s*` takes it. The source behaves the same way, and Rewrite.BlankFirstLineDropped exhibits it, so the rewrite is stated only for code that does not start with a blank line.
- Python dictionaries: keys are strings, and the first entry with a key is the one `get` returns. `restore_html_tags` updates the dictionary in place. The model returns the updated entries as a new value, so aliasing of the dictionary is not captured.

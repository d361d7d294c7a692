# Google Keep JSON to Markdown, modelled in Dafny

`main.py` converts a Google Keep export: every `.json` file in a directory holds
one note record, and each becomes a Markdown file of the same stem in an output
directory. The document for a note has a fixed order:

- a `# title` heading;
- the note text, with every line feed doubled and every `http://` or `https://`
  URL turned into a Markdown link;
- an optional `## Checkboxes:` section, one `- [x]` or `- [ ]` line per item;
- an optional `**Labels**:` line;
- the pinned and archived flags;
- the creation and last-edit times;
- a `---` separator.

The model has six modules:

- `Wrappers`: `Option` and `Result`.
- `Text`: Python's whitespace class (`str.isspace`, which is what `\s` matches
  in a `str` pattern), `endswith`, `replace('\n', '\n\n')`, `', '.join` and
  `split(', ')`.
- `Links`: `convert_links`. It is the regular-expression substitution
  `https?://[^\s]+` → `[\g<0>](\g<0>)`, written as the leftmost, greedy scan that
  `re.sub` performs. It is also given a declarative reading: the text is cut into
  single copied characters and maximal whitespace-free URLs. The proof shows
  this cut exists, is unique, and that the rewrite renders it.
- `Notes` and `Markdown`: the note record and `json_to_markdown`. Every optional
  key of the record is an `Option`. The timestamp formatter `convert_timestamp`
  is a parameter. An `Err` from it stands for the exception `int()` raises on a
  malformed stamp.
- `Driver`: the loop of `convert_all_keep_json_to_markdown`. It covers:
  - which listed names are converted;
  - the output name (`os.path.splitext` and `os.path.join`, POSIX);
  - the `try` block for one file.

  Reading and decoding a file, writing one, and rendering are parameters. Each
  file's printed message becomes a `Report` value.

The fallback heading is `Sem Título` (main.py:25). It is used only when the
`title` key is absent: `dict.get` returns a stored value as it is, so a present
but empty title gives the heading `# `.

`os.path.splitext` keeps a leading-dot name whole. So `.json` is written to
`.json.md`, the same output file as `.json.json` (`Driver.MarkdownNamesCanCollide`).
Joining the output directory with two different relative names never gives the same
path (`Driver.PathJoinInjective`), so two files share an output path only when
their Markdown names are equal. When they do, the last one written wins
(`Driver.WrittenFiles`).

## Model

| member | source | states |
|---|---|---|
| Links.SchemeLengthIsPrefix | main.py:15 | the scheme part of the pattern accepts exactly `https://` or `http://` |
| Links.RunLength | main.py:15 | `[^\s]+` takes the whole leading run of non-whitespace: every character before the end is non-whitespace and the run stops at whitespace or the end of the text |
| Links.SpaceStartsNoLink | main.py:15 | no match starts at a whitespace character |
| Links.LinkExtends | main.py:15 | whether a match starts depends only on the characters it covers |
| Links.ConvertLinks | main.py:13-17 | the substitution never shortens the text |
| Links.Segment | main.py:15-17 | the cut of a text into copied characters and URLs covers the text exactly |
| Links.SegmentWellFormed | main.py:15-17 | every URL in the cut is maximal (followed by whitespace or the end) and no copied character starts a match |
| Links.SegmentUnique | main.py:15-17 | any cut with those properties is the one the scan makes |
| Links.ConvertLinksRendersSegment | main.py:13-17 | the result is the cut with each URL `u` replaced by `[u](u)` and every other character copied |
| Links.ConvertLinksSpec | main.py:13-17 | for any well-formed cut of the input, the result is that cut rendered |
| Links.ConvertLinksSegmentExists | main.py:13-17 | every text has a well-formed cut, and the result renders it |
| Links.NoLinkIdentity | main.py:13-17 | a text where no position starts a match is returned unchanged |
| Links.LinkLengthens | main.py:13-17 | a text with a match anywhere comes back strictly longer |
| Links.ConvertLinksIdentity | main.py:13-17 | the text comes back unchanged exactly when no position starts a match |
| Links.ConvertLinksWithoutScheme | main.py:13-17 | a text with no `http://` or `https://` anywhere is returned unchanged |
| Links.ConvertLinksWithoutH | main.py:13-17 | a text without the letter `h` is returned unchanged |
| Links.ConvertLinksKeepsSpaces | main.py:15-17 | the whitespace characters of the result are those of the input, in order |
| Links.ConvertLinksSplitsAtSpace | main.py:15-17 | a text cut just before whitespace is rewritten piece by piece: no URL runs across whitespace |
| Links.ConvertLinksWholeUrl | main.py:15-17 | a whitespace-free text that starts with a scheme and one more character becomes a single link |
| Links.ConvertLinksCopiesPrefix | main.py:15-17 | text without the letter `h` is copied ahead of the rewrite of whatever follows it: no match starts inside it, and scanning resumes unchanged after it |
| Links.ConvertLinksAroundUrl | main.py:15-17 | a URL between text without the letter `h` and whitespace-led text without `h` is wrapped, and the surrounding text is copied; the match is not anchored to a word start |
| Links.LinkStartsAtDoubled | main.py:28-29 | doubling line feeds does not change whether a match starts at the front |
| Links.ConvertLinksDoubleNewlines | main.py:28-29 | doubling line feeds and then rewriting links gives the same text as rewriting links and then doubling line feeds |
| Text.DoubleNewlines | main.py:28 | `replace('\n', '\n\n')` adds one character per line feed and doubles the number of line feeds |
| Text.HalveDoubleNewlines | main.py:28 | the line-feed doubling is undone by halving the line feeds, so it loses nothing |
| Text.SplitJoin | main.py:45 | names joined with `", "` split back into the same names when none contains `", "` |
| Markdown.LabelNames | main.py:44 | one name per label, in order, each the label's `name` |
| Markdown.JsonToMarkdown | main.py:21-58 | the document is produced exactly when both timestamps format, and is then the fixed-order document built from the two formatted stamps (a missing stamp is formatted as 0); otherwise the creation stamp's error is reported if it failed, else the edit stamp's |
| Markdown.DocumentTitle | main.py:25 | the document starts with `# ` and the title followed by a blank line; `Sem Título` is used only when the key is absent |
| Markdown.DocumentBody | main.py:28-30 | after the heading comes the text (empty when absent) with line feeds doubled and links rewritten, then a blank line |
| Markdown.DocumentChecklistHeader | main.py:33-35 | the checklist header follows the body exactly when `listContent` is present and non-empty |
| Markdown.ReadItemLines | main.py:36-40 | the checklist lines can be read back: one line per item, in order, with its text (empty when absent) and tick (set only when `isChecked` is true) |
| Markdown.ItemLinesAmbiguous | main.py:36-40 | an unticked item whose text holds a line feed followed by `- [x] ` writes the same lines as two items, the second one ticked |
| Markdown.DocumentChecklistItems | main.py:33-40 | when no item text holds a line feed, right after the header the document holds exactly the items of `listContent`, in order, followed by the labels or flags line |
| Markdown.DocumentLabels | main.py:43-45 | the labels line appears exactly when `labels` is present and non-empty, and then lists the label names in order joined by `", "`, ending with a blank line |
| Markdown.LabelsRoundTrip | main.py:44-45 | the label names can be read back from the labels line when none contains `", "` |
| Markdown.DocumentEnding | main.py:48-56 | every document ends with the pinned and archived lines (`Yes` exactly when the flag is present and true), both dates and the separator |
| Markdown.EmptyNoteMarkdown | main.py:21-58 | a record with no keys renders under `# Sem Título`, with no checklist, no labels, both flags `No` and the formatted zero stamp for both dates |
| Driver.LastIndex | main.py:70 | the index of the last occurrence of a character, or -1 when there is none |
| Driver.PathJoin | main.py:69-70 | the joined path ends with the file name; a relative name goes under the directory: the directory is a prefix of the path and a `/` separates it from the name; an absolute name replaces the directory |
| Driver.PathJoinInjective | main.py:69-70 | two different relative names joined to the same directory give different paths |
| Driver.MarkdownNameOrdinary | main.py:68-70 | a name `stem.json` whose stem has no `/` and is not all dots is selected and written as `stem.md` |
| Driver.MarkdownNameDotStem | main.py:70 | a stem made only of dots keeps `.json`, so `stem.json` is written as `stem.json.md` |
| Driver.MarkdownNamesCanCollide | main.py:68-70 | `.json` and `.json.json` are both selected and both written to `.json.md` |
| Driver.Selected | main.py:67-68 | the selected names are at most the listing and all end in `.json` |
| Driver.SelectedAppend | main.py:67-68 | selecting from a listing split in two gives the selection of the first part followed by that of the second, so listing order is kept |
| Driver.SelectedMembers | main.py:67-68 | a name is selected exactly when it is listed and ends in `.json` (case-sensitive) |
| Driver.ConvertFileReport | main.py:72-90 | a file is converted exactly when it loads as a note, renders and is stored, and then its document goes to the Markdown path; a missing file, undecodable JSON and any other error are told apart as the three `except` clauses do, and each failure names the JSON path |
| Driver.ConvertAllReports | main.py:62-90 | the batch reports once per selected name, in listing order, and each report is that name's own conversion |
| Driver.ConvertKeepExportDocuments | main.py:67-81 | every converted file's report holds the rendered document of the note read from it, with both timestamps formatted; a note whose creation stamp does not format is reported with the formatter's error |
| Driver.ConvertFileIsLocal | main.py:72-90 | one file's outcome depends only on reading its JSON path and writing its Markdown path |
| Driver.ConvertAllIsolatesFiles | main.py:67-90 | a failure on one file does not change the report of any other file |
| Driver.WrittenFiles | main.py:80-81 | a path is written exactly when some file was converted to it, and it holds the document of the last such file |
| Driver.OneGoodOneMalformed | main.py:67-90 | with one good file, one non-JSON file and one non-`.json` name, the run writes exactly one Markdown file and reports the other as a decoding failure |

## Left out

- `convert_timestamp` (main.py:8-9): the local-time conversion and `strftime` are a parameter of `JsonToMarkdown`; only its failure on a malformed stamp is kept, as an `Err`.
- File-system I/O: `os.makedirs`, `os.listdir`, `open` and `json.load`. The listing is a parameter, and reading and decoding together are one `load` parameter. The order of `os.listdir` is whatever that listing gives.
- A failing `os.makedirs` aborts the whole batch; this is not modelled.
- A partial write before a failure is not modelled. `store` either writes the whole document or fails.
- The printed messages become `Report` values. The wording of the messages is not modelled.
- The hard-coded directories and the module-level call (main.py:93-98) are not modelled. They are run-time configuration.
- JSON parsing and JSON values of other types than the typed `Note` allows are not modelled. Some of these still convert in `main.py`: a `null` title renders as `# None`, a numeric title as its digits, and non-boolean `isPinned`, `isArchived` or `isChecked` values are read by Python truthiness. Others fail: a label without `name` raises `KeyError`, and a non-string `textContent` raises `AttributeError`. Those failures land in the generic `except Exception` clause, which `NotANote` stands for.
- Floating-point timestamps are not modelled. A stamp is an integer or a digit string, and its meaning is left to the formatter.
- Surrogate code points and Unicode normalisation are not modelled. Strings are sequences of Dafny `char`.
- Markdown.ReadItemLines: the read-back is stated only for item texts without line feeds. A text with a line feed is still written verbatim, but it spans several lines.
- Markdown.DocumentChecklistItems: the items are read back from the document only when no item text holds a line feed. Item texts are written verbatim, so a text with a line feed can forge further item lines (`Markdown.ItemLinesAmbiguous`), and the document then cannot tell the items apart.
- Markdown.LabelsRoundTrip: the read-back is stated only for names without `", "`. The labels line is written for any names.
- Links.ConvertLinks: its own contract only bounds the length. What the rewrite does is stated by `ConvertLinksRendersSegment`, `ConvertLinksSpec` and `ConvertLinksIdentity`.

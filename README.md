# Synapse lecture text to Colab notebook — a Dafny model

`agente_colab.py` is a command-line agent. It reads the text a lecture
generator ("Synapse") produces. It cuts that text into notebook cells and
builds an nbformat 4 notebook from them. It then uploads the notebook over
the Colab file whose id it takes from a Colab URL.

This project models the three pure steps of that pipeline, plus the two checks
in `main` that stop a run before the upload:

- `wrappers.dfy` (`Wrappers`): `Option` and `Result`.
- `text.dfy` (`Text`):
  - Python's `str.isspace` character set;
  - `str.strip()`;
  - the leftmost search for a literal string;
  - `str.split('\n')`;
  - the `[line + '\n' for line in ...]` comprehension.
- `synapse.dfy` (`Synapse`): `parse_synapse`.
  - The regular expression is written as a hand-made matcher. Its three
    alternatives are tried in order at each position: a bare markdown fence,
    `▶️ … python fence`, `📖 … markdown fence`.
  - `findall` is a left-to-right scan. After a match it resumes at the match
    end; otherwise it moves on by one character.
  - The scan is proved equal to a declarative description: every entry is the
    match at its own start, entries are in text order and do not overlap, and
    no uncovered position starts a match. That description is proved to fix
    the list.
  - The method `ParseSynapse` is the loop of `parse_synapse`. It appends cells for
    each `(md, code, read)` tuple.
- `notebook.dfy` (`Notebook`): `build_notebook` as a datatype for the
  document. The method `BuildNotebook` is the loop of `build_notebook` over the cells.
  Reading the cells back from the document is proved to give back the
  input.
- `notebook_id.dfy` (`NotebookId`): `extract_notebook_id`. It tries the
  patterns `/d/([^/]+)` and `/drive/([^/?#]+)` in order, then falls back to
  the first run of at least 25 id characters, and finally to `''`.
- `agent.dfy` (`Agent`): the pure part of `main`. An empty id is an error
  (exit 1). An empty cell list is an error too. Otherwise the id and the
  document go to the upload.

Two facts about the regular expression shape the matcher:

- The lazy `.*?` parts are modelled exactly. A sentinel alternative uses the
  first opening fence after the sentinel and the first closing `\n` + three
  backticks after that fence. If that first fence has no closing fence
  after it, no later fence has one either, so the alternative fails there.
- The tests `if md:`, `if code:` and `if read:` look at the raw capture,
  before stripping. A capture made only of whitespace therefore still yields
  a cell, with content `""`. Only an empty capture yields no cell.

## Model

| member | source | states |
|---|---|---|
| Synapse.ParseSynapse | agente_colab.py:85-100 | the loop returns the cells of the leftmost-match list, in match order, and their number is #md + 2·#code + #read over the non-empty captures |
| Synapse.TryFencedMarkdown | agente_colab.py:88 | first alternative: a match it reports starts at `p`, is a markdown capture, and lies inside the text |
| Synapse.TryFencedMarkdownIsLazy | agente_colab.py:88 | a match of the first alternative needs a markdown fence at `p`; the capture starts right after that fence and ends at the first closing fence after it. There is no match exactly when the fence is missing or no closing fence follows |
| Synapse.TryDelimited | agente_colab.py:88-89 | `sentinel.*?fence(.*?)` followed by the closing fence: a match it reports starts at `p`, carries the alternative it was asked for, and lies inside the text |
| Synapse.TrySentinel | agente_colab.py:88-89 | second and third alternatives, as the delimited match with `▶️` and the python fence or `📖` and the markdown fence: same guarantee |
| Synapse.TryDelimitedIsLazy | agente_colab.py:88-89 | a delimited match starts with the sentinel, uses the first opening fence after it and the first closing fence after that; the capture lies between the two fences, both excluded |
| Synapse.TrySentinelFailsIff | agente_colab.py:88-89 | a sentinel alternative fails exactly when the sentinel is missing or no opening fence after it is followed by a closing fence |
| Synapse.MatchAt | agente_colab.py:87-90 | a match found at `p` starts at `p` and lies inside the text |
| Synapse.GroupsOf | agente_colab.py:88-92 | the `(md, code, read)` tuple of a match: only the group of the alternative that matched can be non-empty, and the three groups together are the capture |
| Synapse.Scan | agente_colab.py:92 | every match of the scan starts at or after the starting point and lies inside the text |
| Synapse.FindAll | agente_colab.py:92 | `findall` over the whole text: every match lies inside the text |
| Synapse.LeftmostAfterMatch | agente_colab.py:92 | a match at the current position followed by the leftmost matches from its end are the leftmost matches from that position |
| Synapse.LeftmostAfterSkip | agente_colab.py:92 | with no match at the current position, the leftmost matches from the next position are those from the current one |
| Synapse.ScanIsLeftmost | agente_colab.py:87-92 | the scan returns matches at their own start, in text order, without overlap, and no uncovered position starts a match |
| Synapse.DropFirst | agente_colab.py:92 | dropping the first of the leftmost matches leaves the leftmost matches from its end |
| Synapse.LeftmostMatchesUnique | agente_colab.py:87-92 | any match list with those three properties is exactly what the scan returns |
| Synapse.FindAllIsLeftmost | agente_colab.py:87-92 | `findall` returns the leftmost, non-overlapping matches of the whole text, and any list with that description is what it returns |
| Synapse.NoMatchIffNoMatchingPosition | agente_colab.py:92 | `findall` returns nothing exactly when no position of the text starts a match |
| Synapse.CellCounts | agente_colab.py:92-100 | number of cells = #md + 2·#code + #read over the non-empty captures; code cells = 2·#code; markdown cells = #md + #read |
| Synapse.CellsForCounts | agente_colab.py:93-99 | one match gives 0 cells for an empty capture, 2 code cells for a code capture and 1 markdown cell otherwise |
| Synapse.CellsFor | agente_colab.py:93-99 | the cells of one `(md, code, read)` tuple: none exactly when the capture is empty, never more than two |
| Synapse.CellsOfBound | agente_colab.py:92-99 | the loop appends at most two cells per match |
| Synapse.SynapseCells | agente_colab.py:85-100 | what `parse_synapse` returns: at most two cells per `findall` match |
| Synapse.CodeCaptureCells | agente_colab.py:95-97 | a non-empty code capture gives two consecutive cells at its place in the output: the stripped capture as code, then `# Pratique aqui` as code |
| Synapse.MarkdownCaptureCell | agente_colab.py:93-94 | a non-empty markdown or reading capture gives one markdown cell with the stripped capture, at its place in the output |
| Synapse.EmptyCaptureNoCell | agente_colab.py:93-98 | a fence whose body is empty adds no cell |
| Synapse.NoCellsIffEmptyCaptures | agente_colab.py:92-100 | the parser returns no cell exactly when every capture is empty |
| Synapse.CellsInMatchOrder | agente_colab.py:92 | the cells of an earlier prefix of the matches are a prefix of the cells of a later one: cells come out in match order |
| Synapse.CellsOfMatch | agente_colab.py:92-99 | the cells of the k-th match sit right after the cells of the matches before it |
| Text.SkipSpace | agente_colab.py:94 | the index where leading whitespace ends never lies before the start or past the text |
| Text.SkipSpaceSkipsSpace | agente_colab.py:94 | everything skipped is whitespace, and the stop is at a non-whitespace character or the end |
| Text.TrimEnd | agente_colab.py:94 | the end once trailing whitespace is cut stays between the start and the old end |
| Text.TrimEndCutsSpace | agente_colab.py:94 | everything cut is whitespace, and what is left is empty or ends in a non-whitespace character |
| Text.Strip | agente_colab.py:94-99 | `strip()` never lengthens the text; its exact shape is the next row |
| Text.StripIsTrimmedSlice | agente_colab.py:94 | `strip()` is a slice of the text, with only whitespace cut on either side, that neither starts nor ends with whitespace |
| Text.StripEmptyIffAllSpace | agente_colab.py:94 | `strip()` gives `""` exactly when the text is all whitespace |
| Text.StripIdempotent | agente_colab.py:94 | stripping twice is stripping once |
| Text.Find | agente_colab.py:88 | an occurrence it reports lies at or after the starting point and inside the text |
| Text.FindIsLeftmost | agente_colab.py:88 | the literal occurs at the reported position, and nowhere between the starting point and it (nowhere at all when none is reported) |
| Text.Split | agente_colab.py:113 | `split` always returns at least one piece |
| Text.SplitShape | agente_colab.py:113 | `split('\n')` gives one more piece than the text has newlines, and no piece contains one |
| Text.SplitTerminatedConcat | agente_colab.py:113 | appending `\n` to every piece and joining gives the text followed by one newline |
| Text.Terminated | agente_colab.py:113 | the comprehension keeps the number of pieces |
| Notebook.BuildNotebook | agente_colab.py:106-121 | header `nbformat` 4, `nbformat_minor` 0, empty metadata; one entry per cell, in order, each rendering its cell (same kind, empty metadata, source lines of the content, no execution count and no outputs for code); reading the cells back gives the input |
| Notebook.SourceLinesShape | agente_colab.py:113 | a cell's `source` has (newlines in the content) + 1 lines; each ends in `\n`, which is its only newline; together they spell the content plus `\n` |
| Notebook.SourceLines | agente_colab.py:113-118 | the comprehension `[line + '\n' for line in content.split('\n')]` gives one line per newline of the content, plus one |
| Notebook.SourceLinesRoundTrip | agente_colab.py:113 | dropping the final newline of the joined `source` gives the content back |
| Notebook.RendersRoundTrip | agente_colab.py:110-120 | the entry built for a cell gives that cell back |
| Notebook.CellsOfDocument | agente_colab.py:109-121 | one cell is read back per document entry |
| NotebookId.RunEnd | agente_colab.py:72 | the greedy `[class]+` repetition: the longest run of class characters from `i` |
| NotebookId.Search | agente_colab.py:74 | `re.search`: the leftmost position where a pattern matches, and none before it |
| NotebookId.FirstLongRun | agente_colab.py:78-79 | the first fallback match: the leftmost position that starts a run of 25 or more id characters |
| NotebookId.SearchPatterns | agente_colab.py:72-76 | the `for p in patterns` loop: a capture it returns is non-empty and holds no `/` |
| NotebookId.ExtractNotebookId | agente_colab.py:70-79 | `extract_notebook_id`: the id never contains `/`, whichever of the three patterns produced it (precedence and emptiness in the rows below) |
| NotebookId.CaptureShape | agente_colab.py:72-76 | a capture is non-empty and made of characters of its pattern's class |
| NotebookId.SlashDWins | agente_colab.py:72-76 | with a `/d/` match, the id is the capture of the leftmost one: non-empty and without `/` |
| NotebookId.DriveIsSecond | agente_colab.py:72-76 | with no `/d/` match but a `/drive/` match, the id is the capture of the leftmost one: non-empty, without `/`, `?` or `#` |
| NotebookId.LongRunIsLast | agente_colab.py:77-79 | with neither pattern matching, the id is the whole first run of at least 25 id characters |
| NotebookId.EmptyIdIffNoMatch | agente_colab.py:72-79 | the id is `''` exactly when none of the three patterns matches anywhere |
| Agent.Prepare | agente_colab.py:154-170 | fails with "no id" exactly when the id is empty, and with "no blocks" exactly when the id is set but there are no cells; otherwise hands over the id and the notebook `build_notebook` makes of the parser's cells: header 4/0 with empty metadata, one entry per cell in order, each rendering its cell, read back as the parser's cells, never empty |

## Left out

- Authentication, credential files, the token file, the temporary file and
  the Drive upload (`check_credentials`, `authenticate`, `upload_notebook`)
  are I/O and foreign library calls. `Agent.Prepare` starts after the
  credentials have been checked, and its result is what would be uploaded.
- In `main`: argument parsing, reading the text from a file or from standard
  input, and logging. The URL and the text are parameters of `Agent.Prepare`.
  Exiting with status 1 is the `Failure` result.
- `json.dumps(nb, indent=2)`: the text of the JSON document is not modelled.
  The document is the `Notebook.Document` datatype it would render.
  `cell_type` is the constructor of `Notebook.Entry`. The JSON objects the
  builder leaves empty (`metadata`, each item of `outputs`) are
  string-to-string maps.
- The `KeyError` that `build_notebook` would raise for a cell type other than
  `markdown` and `code` cannot happen: `Synapse.CellType` has only those two.
- `Text.IsSpace` spells out the characters for which Python's
  `str.isspace()` holds (the Unicode whitespace of Python 3). It is a
  fixed list, not the Unicode database.
- Nothing else in the repository is modelled:
  - the Tkinter window in `agente_colab_gui_fixed.py`;
  - the PyInstaller build script `criar_executavel.py`;
  - the sample lecture under `Template/`.
- These features are not in `agente_colab.py`, so the model has none of them:
  - cutting the text at the "Mergulhos Adicionais" heading;
  - fallback patterns for bare fences;
  - `<br>` padding between cells;
  - pairing explanation cells with code cells.
- The practice cell's text is `# Pratique aqui`, as in `agente_colab.py:97`.
- Every `source` line ends in `\n`, the last one included. This follows
  `agente_colab.py:113` and `agente_colab.py:118`.

/**
 * The notebook builder (`build_notebook`): the nbformat 4 document structure
 * built from the parser's cells.  The final rendering to JSON text is not
 * modelled; the structure it renders is.
 */
module Notebook {
  import opened Wrappers
  import opened Text
  import opened Synapse

  /** A JSON object whose contents the builder never fills (`{}`). */
  type JsonObject = map<string, string>

  /** One entry of the document's `cells` array. */
  datatype Entry =
    | MarkdownEntry(metadata: JsonObject, source: seq<string>)
    | CodeEntry(metadata: JsonObject, executionCount: Option<nat>, outputs: seq<JsonObject>, source: seq<string>)

  /** The whole document: `{'nbformat': ..., 'nbformat_minor': ..., 'metadata': ..., 'cells': [...]}`. */
  datatype Document = Document(nbformat: nat, nbformatMinor: nat, metadata: JsonObject, cells: seq<Entry>)

  const FormatVersion: nat := 4
  const FormatMinor: nat := 0

  /** `[line + '\n' for line in content.split('\n')]`. */
  function SourceLines(content: string): (lines: seq<string>)
    ensures |lines| == CountChar(content, '\n') + 1
  {
    SplitShape(content, '\n');
    Terminated(Split(content, '\n'), '\n')
  }

  predicate EndsWithNewline(line: string) {
    line != [] && line[|line| - 1] == '\n'
  }

  /**
   * Line accounting of a cell's `source`: one line per newline of the content
   * plus one, every line ending in a newline that is its only newline, and
   * all lines together spelling the content followed by one newline.
   */
  lemma SourceLinesShape(content: string)
    ensures |SourceLines(content)| == CountChar(content, '\n') + 1
    ensures forall i :: 0 <= i < |SourceLines(content)| ==>
              EndsWithNewline(SourceLines(content)[i])
              && '\n' !in SourceLines(content)[i][..|SourceLines(content)[i]| - 1]
    ensures Concat(SourceLines(content)) == content + "\n"
  {
    var parts := Split(content, '\n');
    SplitShape(content, '\n');
    SplitTerminatedConcat(content, '\n');
    forall i | 0 <= i < |parts|
      ensures EndsWithNewline(SourceLines(content)[i])
      ensures '\n' !in SourceLines(content)[i][..|SourceLines(content)[i]| - 1]
    {
      var line := SourceLines(content)[i];
      assert line == parts[i] + "\n";
      assert line[..|line| - 1] == parts[i];
    }
  }

  /** The content a `source` array stands for: its lines joined, without the final newline. */
  function ContentOf(source: seq<string>): string {
    var joined := Concat(source);
    if joined == [] then [] else joined[..|joined| - 1]
  }

  /** Reading a cell back from a document entry. */
  function CellOf(e: Entry): Cell {
    Cell(if e.CodeEntry? then Code else Markdown, ContentOf(e.source))
  }

  /** Reading all cells back from a document. */
  function CellsOfDocument(nb: Document): (cells: seq<Cell>)
    ensures |cells| == |nb.cells|
  {
    seq(|nb.cells|, i requires 0 <= i < |nb.cells| => CellOf(nb.cells[i]))
  }

  /** Dropping the final newline of the joined lines gives the content back. */
  lemma SourceLinesRoundTrip(content: string)
    ensures ContentOf(SourceLines(content)) == content
  {
    SourceLinesShape(content);
    assert (content + "\n")[..|content|] == content;
  }

  /**
   * `e` is the entry the builder makes for cell `c`: empty metadata, the
   * content's lines as `source`, the same kind, and for code no execution
   * count and no outputs.
   */
  predicate Renders(c: Cell, e: Entry) {
    e.metadata == map[]
    && e.source == SourceLines(c.content)
    && (e.CodeEntry? <==> c.cellType == Code)
    && (e.CodeEntry? ==> e.executionCount == None && e.outputs == [])
  }

  /** An entry gives back the cell it was made from. */
  lemma RendersRoundTrip(c: Cell, e: Entry)
    requires Renders(c, e)
    ensures CellOf(e) == c
  {
    SourceLinesRoundTrip(c.content);
  }

  /**
   * `build_notebook`: the fixed header, then one entry per cell in the order
   * of the cells; reading the cells back from the document gives the input.
   */
  method BuildNotebook(cells: seq<Cell>) returns (nb: Document)
    ensures nb.nbformat == FormatVersion && nb.nbformatMinor == FormatMinor && nb.metadata == map[]
    ensures |nb.cells| == |cells|
    ensures forall i :: 0 <= i < |cells| ==> Renders(cells[i], nb.cells[i])
    ensures CellsOfDocument(nb) == cells
  {
    nb := Document(FormatVersion, FormatMinor, map[], []);
    for i := 0 to |cells|
      invariant nb.nbformat == FormatVersion && nb.nbformatMinor == FormatMinor && nb.metadata == map[]
      invariant |nb.cells| == i
      invariant forall k :: 0 <= k < i ==> Renders(cells[k], nb.cells[k])
    {
      var c := cells[i];
      var source := SourceLines(c.content);
      var entry := match c.cellType
        case Markdown => MarkdownEntry(map[], source)
        case Code => CodeEntry(map[], None, [], source);
      nb := nb.(cells := nb.cells + [entry]);
    }
    forall i | 0 <= i < |cells| ensures CellsOfDocument(nb)[i] == cells[i] {
      RendersRoundTrip(cells[i], nb.cells[i]);
    }
  }
}

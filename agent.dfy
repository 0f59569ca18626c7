/**
 * The pure part of the command-line flow (`main`): after the credentials are
 * checked, the id is taken from the URL, the lecture text is parsed and the
 * notebook is built; an empty id or an empty cell list stops the run before
 * anything is uploaded.  Reading the inputs, authenticating and uploading
 * are outside the model.
 */
module Agent {
  import opened Wrappers
  import opened Synapse
  import opened Notebook
  import opened NotebookId

  /** Why `main` exits with status 1 before uploading. */
  datatype PrepareError = NoNotebookId | NoBlocksFound

  /** What `main` hands to the upload: the file id and the document. */
  datatype Upload = Upload(notebookId: string, notebook: Document)

  method Prepare(url: string, text: string) returns (r: Result<Upload, PrepareError>)
    ensures r == Failure(NoNotebookId) <==> ExtractNotebookId(url) == ""
    ensures r == Failure(NoBlocksFound) <==> ExtractNotebookId(url) != "" && SynapseCells(text) == []
    ensures r.Success? ==>
              r.value.notebookId == ExtractNotebookId(url)
              && r.value.notebook.nbformat == FormatVersion
              && r.value.notebook.nbformatMinor == FormatMinor
              && r.value.notebook.metadata == map[]
              && |r.value.notebook.cells| == |SynapseCells(text)|
              && (forall i :: 0 <= i < |SynapseCells(text)| ==> Renders(SynapseCells(text)[i], r.value.notebook.cells[i]))
              && CellsOfDocument(r.value.notebook) == SynapseCells(text)
              && r.value.notebook.cells != []
  {
    var notebookId := ExtractNotebookId(url);
    if notebookId == "" {
      return Failure(NoNotebookId);
    }
    var cells := ParseSynapse(text);
    if cells == [] {
      return Failure(NoBlocksFound);
    }
    var nb := BuildNotebook(cells);
    return Success(Upload(notebookId, nb));
  }
}

/** How the execution handler picks its cells: the first code cell of the notebook holds the
    input text, whatever its language, and the first JavaScript code cell after it holds the
    script. When there is no such script cell the handler does nothing. */
module CellPairing {
  import opened Notebook
  import opened Mime

  /** The cell qualifies: a code cell, and when `script` is set, one in JavaScript. */
  predicate Qualifies(cell: Cell, script: bool) {
    cell.kind == Code && (!script || cell.languageId == "javascript")
  }

  /** The lowest index at or after `from` whose cell qualifies, or `None`. */
  function FirstFrom(cells: seq<Cell>, from: nat, script: bool): (r: Option<nat>)
    requires from <= |cells|
    ensures r.Some? ==> from <= r.value < |cells| && Qualifies(cells[r.value], script)
    ensures forall j | from <= j < |cells| && (r.None? || j < r.value) ::
      !Qualifies(cells[j], script)
    decreases |cells| - from
  {
    if from == |cells| then None
    else if Qualifies(cells[from], script) then Some(from)
    else FirstFrom(cells, from + 1, script)
  }

  /** The index of the input cell: the first code cell. */
  function InputIndex(cells: seq<Cell>): (r: Option<nat>)
    ensures r.Some? ==> r.value < |cells| && cells[r.value].kind == Code
    ensures forall j | 0 <= j < |cells| && (r.None? || j < r.value) :: cells[j].kind != Code
  {
    FirstFrom(cells, 0, false)
  }

  /** The index of the script cell: the first JavaScript code cell after the input cell. */
  function ScriptIndex(cells: seq<Cell>): (r: Option<nat>)
    ensures r.Some? ==> InputIndex(cells).Some? && InputIndex(cells).value < r.value < |cells|
    ensures r.Some? ==> cells[r.value].kind == Code && cells[r.value].languageId == "javascript"
    ensures InputIndex(cells).Some? ==>
      forall j | InputIndex(cells).value < j < |cells| && (r.None? || j < r.value) ::
        !(cells[j].kind == Code && cells[j].languageId == "javascript")
  {
    match InputIndex(cells)
    case None => None
    case Some(i) => FirstFrom(cells, i + 1, true)
  }

  /** The selection loop as the handler runs it, over `notebook.cellAt(i)` for every index:
      the first code cell fills the input text and language and the loop moves on; a later
      JavaScript code cell becomes the script cell and ends the loop. The input defaults to
      the empty text in `plaintext`. */
  method SelectCells(notebook: seq<Cell>)
    returns (inputText: string, inputLanguageId: string, codeCell: Option<nat>)
    ensures codeCell == ScriptIndex(notebook)
    ensures InputIndex(notebook).None? ==> inputText == "" && inputLanguageId == "plaintext"
    ensures InputIndex(notebook).Some? ==>
      inputText == notebook[InputIndex(notebook).value].value &&
      inputLanguageId == notebook[InputIndex(notebook).value].languageId
  {
    inputText := "";
    inputLanguageId := "plaintext";
    var inputFound := false;
    codeCell := None;
    ghost var input: nat := 0;
    for i := 0 to |notebook|
      invariant inputFound ==> input < i && InputIndex(notebook) == Some(input)
      invariant inputFound ==>
        inputText == notebook[input].value && inputLanguageId == notebook[input].languageId
      invariant !inputFound ==>
        inputText == "" && inputLanguageId == "plaintext" &&
        forall j | 0 <= j < i :: !Qualifies(notebook[j], false)
      invariant inputFound ==>
        forall j | input < j < i :: !Qualifies(notebook[j], true)
      invariant codeCell.None?
    {
      var candidate := notebook[i];
      if !inputFound && candidate.kind == Code {
        inputText := candidate.value;
        inputLanguageId := candidate.languageId;
        inputFound := true;
        input := i;
        continue;
      }
      if inputFound && candidate.kind == Code && candidate.languageId == "javascript" {
        codeCell := Some(i);
        ScriptFoundAt(notebook, input, i);
        break;
      }
    }
    if codeCell.None? {
      if inputFound {
        NoScriptAfter(notebook, input);
      }
    }
  }

  /** The first qualifying cell after the input that the loop meets is the script cell. */
  lemma ScriptFoundAt(cells: seq<Cell>, input: nat, s: nat)
    requires InputIndex(cells) == Some(input) && input < s < |cells|
    requires Qualifies(cells[s], true)
    requires forall j | input < j < s :: !Qualifies(cells[j], true)
    ensures ScriptIndex(cells) == Some(s)
  {
    FirstFromUnique(cells, input + 1, true, Some(s));
  }

  /** A loop that met no qualifying cell after the input finds no script cell. */
  lemma NoScriptAfter(cells: seq<Cell>, input: nat)
    requires InputIndex(cells) == Some(input) && input < |cells|
    requires forall j | input < j < |cells| :: !Qualifies(cells[j], true)
    ensures ScriptIndex(cells) == None
  {
    FirstFromUnique(cells, input + 1, true, None);
  }

  /** `FirstFrom` is the one answer that qualifies and has nothing qualifying before it. */
  lemma {:induction false} FirstFromUnique(cells: seq<Cell>, from: nat, script: bool, r: Option<nat>)
    requires from <= |cells|
    requires r.Some? ==> from <= r.value < |cells| && Qualifies(cells[r.value], script)
    requires forall j | from <= j < |cells| && (r.None? || j < r.value) ::
      !Qualifies(cells[j], script)
    ensures FirstFrom(cells, from, script) == r
    decreases |cells| - from
  {
    if from < |cells| && !Qualifies(cells[from], script) {
      FirstFromUnique(cells, from + 1, script, r);
    }
  }

  /** What the handler hands on to run: the script cell's index and text, the input text,
      and the MIME type for the output, from the input cell's language. */
  datatype Run = Run(scriptIndex: nat, code: string, input: string, outputMime: string)

  /** The handler up to the point where it starts an execution. The cells it is asked to run
      play no part: the whole notebook is searched every time. `None` is the early return
      when there is no script cell. */
  method ExecuteHandler(requested: seq<nat>, notebook: seq<Cell>) returns (run: Option<Run>)
    ensures run.None? <==> ScriptIndex(notebook).None?
    ensures run.Some? ==>
      var input := notebook[InputIndex(notebook).value];
      && run.value.scriptIndex == ScriptIndex(notebook).value
      && run.value.code == notebook[run.value.scriptIndex].value
      && run.value.input == input.value
      && run.value.outputMime == MimeType(input.languageId)
  {
    var inputText, inputLanguageId, codeCell := SelectCells(notebook);
    if codeCell.None? {
      return None;
    }
    ScriptAfterInput(notebook);
    var code := notebook[codeCell.value].value;
    run := Some(Run(codeCell.value, code, inputText, MimeType(inputLanguageId)));
  }

  /** A script cell is found only after an input cell: the input is the lowest-index code
      cell, the script a JavaScript code cell at a greater index, and no JavaScript code cell
      lies between them. */
  lemma ScriptAfterInput(cells: seq<Cell>)
    requires ScriptIndex(cells).Some?
    ensures InputIndex(cells).Some?
    ensures InputIndex(cells).value < ScriptIndex(cells).value < |cells|
    ensures cells[InputIndex(cells).value].kind == Code
    ensures forall j | 0 <= j < InputIndex(cells).value :: cells[j].kind != Code
    ensures cells[ScriptIndex(cells).value].kind == Code
    ensures cells[ScriptIndex(cells).value].languageId == "javascript"
    ensures forall j | InputIndex(cells).value < j < ScriptIndex(cells).value ::
      !(cells[j].kind == Code && cells[j].languageId == "javascript")
  {
    var i := InputIndex(cells).value;
    var s := ScriptIndex(cells).value;
    assert Qualifies(cells[s], true);
    forall j | 0 <= j < i ensures cells[j].kind != Code {
      assert !Qualifies(cells[j], false);
    }
    forall j | i < j < s ensures !(cells[j].kind == Code && cells[j].languageId == "javascript") {
      assert !Qualifies(cells[j], true);
    }
  }

  /** There is a script cell exactly when some code cell comes before some JavaScript code
      cell. */
  lemma ScriptFoundIff(cells: seq<Cell>)
    ensures ScriptIndex(cells).Some? <==>
      exists i, j | 0 <= i < j < |cells| :: cells[i].kind == Code && Qualifies(cells[j], true)
  {
    if ScriptIndex(cells).Some? {
      var i := InputIndex(cells).value;
      var s := ScriptIndex(cells).value;
      assert cells[i].kind == Code && Qualifies(cells[s], true);
    }
  }

  /** A JavaScript cell can be the input: with two JavaScript code cells, the first is the
      input and the second the script. */
  lemma JavascriptInput(a: string, b: string)
    ensures var cells := [Cell(Code, a, "javascript"), Cell(Code, b, "javascript")];
      InputIndex(cells) == Some(0) && ScriptIndex(cells) == Some(1)
  {
    var cells := [Cell(Code, a, "javascript"), Cell(Code, b, "javascript")];
    assert FirstFrom(cells, 0, false) == Some(0);
    assert FirstFrom(cells, 1, true) == Some(1);
  }

  /** With a single JavaScript code cell there is no script: that cell is the input. */
  lemma LoneScriptIsInput(b: string)
    ensures ScriptIndex([Cell(Code, b, "javascript")]) == None
  {
    var cells := [Cell(Code, b, "javascript")];
    assert FirstFrom(cells, 0, false) == Some(0);
    assert FirstFrom(cells, 1, true) == None;
  }

  /** The notebook the open command creates (a heading, the input cell, a heading, the
      script `input.toUpperCase()`) pairs its second cell as input with its fourth as
      script. */
  lemma DefaultNotebookPairs(inputText: string, languageId: string)
    ensures var cells := [
        Cell(Markup, "## Input\nYour selected text or file content.", "markdown"),
        Cell(Code, inputText, languageId),
        Cell(Markup, "## Transform\nWrite JS that returns a string from `input`.", "markdown"),
        Cell(Code, "input.toUpperCase()", "javascript")];
      InputIndex(cells) == Some(1) && ScriptIndex(cells) == Some(3)
  {
    var cells := [
      Cell(Markup, "## Input\nYour selected text or file content.", "markdown"),
      Cell(Code, inputText, languageId),
      Cell(Markup, "## Transform\nWrite JS that returns a string from `input`.", "markdown"),
      Cell(Code, "input.toUpperCase()", "javascript")];
    assert !Qualifies(cells[0], false);
    assert FirstFrom(cells, 1, false) == Some(1);
    assert !Qualifies(cells[2], true);
    assert FirstFrom(cells, 3, true) == Some(3);
    assert FirstFrom(cells, 2, true) == Some(3);
  }
}

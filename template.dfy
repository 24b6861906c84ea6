/**
 * Notebook creation from a template (nbkickoff/template.py): every
 * `{{ name }}` placeholder in a cell's source is replaced by the value of
 * `name`, and the result is written to a file that must not exist yet.
 */
module Template {
  import opened Wrappers
  import opened Text
  import opened Dicts

  /** The placeholder of a template variable, `'{{ %s }}' % name`. */
  function Placeholder(name: string): string {
    "{{ " + name + " }}"
  }

  /** A placeholder is `{{ `, the name and ` }}`; distinct names have distinct placeholders. */
  lemma PlaceholderParts(name: string, other: string)
    ensures var r := Placeholder(name);
      |r| == |name| + 6 && r[..3] == "{{ " && r[3..|r| - 3] == name && r[|r| - 3..] == " }}"
    ensures name != other ==> Placeholder(name) != Placeholder(other)
  {
    var r := Placeholder(name);
    assert r[3..|r| - 3] == name;
    if Placeholder(name) == Placeholder(other) {
      assert Placeholder(other)[3..|Placeholder(other)| - 3] == other;
    }
  }

  /**
   * The text `s` after substituting the variables of `vars` in their
   * insertion order: the first variable's placeholders are replaced in
   * `s`, the second's in the result of that, and so on.
   */
  function Substituted(s: string, vars: Dict): string
    decreases |vars|
  {
    if vars == [] then s
    else Substituted(Replace(s, Placeholder(vars[0].0), vars[0].1), vars[1..])
  }

  /** `substitute_template_vars`: a loop over the items that rebinds `s`. */
  method SubstituteTemplateVars(s: string, templateVars: Dict) returns (r: string)
    ensures r == Substituted(s, templateVars)
    ensures templateVars == [] ==> r == s
  {
    r := s;
    var i := 0;
    while i < |templateVars|
      invariant i <= |templateVars|
      invariant DistinctKeys(templateVars[i..])
      invariant Substituted(r, templateVars[i..]) == Substituted(s, templateVars)
    {
      assert templateVars[i..][1..] == templateVars[i + 1..];
      var (name, value) := templateVars[i];
      r := Replace(r, Placeholder(name), value);
      i := i + 1;
    }
  }

  /**
   * Substitution is a left fold: substituting all variables is the same
   * as substituting the first `n` and then the rest in the result.
   */
  lemma {:induction false} SubstitutedSplit(s: string, vars: Dict, n: nat)
    requires n <= |vars|
    ensures DistinctKeys(vars[..n]) && DistinctKeys(vars[n..])
    ensures Substituted(s, vars) == Substituted(Substituted(s, vars[..n]), vars[n..])
    decreases n
  {
    PrefixIsDict(vars, n);
    SuffixIsDict(vars, n);
    if n > 0 {
      var t := Replace(s, Placeholder(vars[0].0), vars[0].1);
      SubstitutedSplit(t, vars[1..], n - 1);
      assert vars[1..][..n - 1] == vars[..n][1..];
      assert vars[1..][n - 1..] == vars[n..];
    }
  }

  /** A text in which no variable's placeholder occurs comes back unchanged. */
  lemma {:induction false} SubstitutedWithoutPlaceholders(s: string, vars: Dict)
    requires forall i :: 0 <= i < |vars| ==> !Contains(s, Placeholder(vars[i].0))
    ensures Substituted(s, vars) == s
    decreases |vars|
  {
    if vars != [] {
      ReplaceNoMatch(s, Placeholder(vars[0].0), vars[0].1);
      forall i | 0 <= i < |vars[1..]|
        ensures !Contains(s, Placeholder(vars[1..][i].0))
      {
        assert vars[1..][i] == vars[i + 1];
      }
      SubstitutedWithoutPlaceholders(s, vars[1..]);
    }
  }

  /** Every placeholder begins with `{{`, so a text without `{{` is left as it is. */
  lemma SubstitutedWithoutBraces(s: string, vars: Dict)
    requires !Contains(s, "{{")
    ensures Substituted(s, vars) == s
  {
    forall i | 0 <= i < |vars|
      ensures !Contains(s, Placeholder(vars[i].0))
    {
      NoPrefixNoMatch(s, "{{", Placeholder(vars[i].0));
    }
    SubstitutedWithoutPlaceholders(s, vars);
  }

  /** With one variable, substitution is one `str.replace` of its placeholder. */
  lemma SubstitutedSingle(s: string, name: string, value: string)
    ensures DistinctKeys([(name, value)])
    ensures Substituted(s, [(name, value)]) == Replace(s, Placeholder(name), value)
  {
  }

  /** With two variables, the second one's placeholders are replaced in the first one's result. */
  lemma SubstitutedPair(s: string, n1: string, v1: string, n2: string, v2: string)
    requires n1 != n2
    ensures DistinctKeys([(n1, v1), (n2, v2)])
    ensures Substituted(s, [(n1, v1), (n2, v2)])
         == Replace(Replace(s, Placeholder(n1), v1), Placeholder(n2), v2)
  {
    var pair := [(n1, v1), (n2, v2)];
    assert pair[1..] == [(n2, v2)];
    assert Keys([(n2, v2)]) == {n2} by {
      assert [(n2, v2)][1..] == [];
    }
    assert DistinctKeys([(n2, v2)]) by {
      assert [(n2, v2)][1..] == [];
    }
    var vars: Dict := pair;
    assert Substituted(s, vars) == Substituted(Replace(s, Placeholder(n1), v1), [(n2, v2)]);
  }

  /** A source in which the placeholder occurs exactly once has just that occurrence replaced. */
  lemma SubstitutedOnce(s: string, before: string, name: string, after: string, value: string, r: string)
    requires s == before + Placeholder(name) + after && r == before + value + after
    requires forall j: nat :: j < |before| ==> !OccursAt(s, Placeholder(name), j)
    requires !Contains(after, Placeholder(name))
    ensures DistinctKeys([(name, value)])
    ensures Substituted(s, [(name, value)]) == r
  {
    SubstitutedSingle(s, name, value);
    ReplaceOnce(s, before, Placeholder(name), after, value, r);
  }

  /** Braces that do not form the placeholder, as in a set literal or an f-string, are kept. */
  lemma BracesBeforePlaceholder()
    ensures Substituted("{x} {{ a }}", [("a", "v")]) == "{x} v"
  {
    var s := "{x} {{ a }}";
    forall j: nat | j < 4
      ensures !OccursAt(s, "{{ a }}", j)
    {
      assert s[j] != '{' || s[j + 1] != '{';
    }
    assert Placeholder("a") == "{{ a }}";
    SubstitutedOnce(s, "{x} ", "a", "", "v", "{x} v");
  }

  /** The module documentation's example. */
  lemma DocstringExample()
    ensures Substituted("some_python_code('{{ my_variable }}')", [("my_variable", "lorem ipsum")])
         == "some_python_code('lorem ipsum')"
  {
    assert Placeholder("my_variable") == "{{ my_variable }}";
    MissingCharNoMatch("')", Placeholder("my_variable"), 0);
    FirstCharNeeded("some_python_code('{{ my_variable }}')", Placeholder("my_variable"), |"some_python_code('"|);
    SubstitutedOnce("some_python_code('{{ my_variable }}')",
      "some_python_code('", "my_variable", "')", "lorem ipsum", "some_python_code('lorem ipsum')");
  }

  /**
   * The order of the variables matters once a value contains placeholder
   * syntax: a placeholder produced by an earlier variable is replaced by a
   * later one, but not the other way round.
   */
  lemma OrderMatters()
    ensures Substituted("{{ a }}", [("a", "{{ b }}"), ("b", "x")]) == "x"
    ensures Substituted("{{ a }}", [("b", "x"), ("a", "{{ b }}")]) == "{{ b }}"
  {
    SubstitutedPair("{{ a }}", "a", "{{ b }}", "b", "x");
    SubstitutedPair("{{ a }}", "b", "x", "a", "{{ b }}");
    MissingCharNoMatch("", Placeholder("a"), 0);
    ReplaceOnce("{{ a }}", "", Placeholder("a"), "", "{{ b }}", "{{ b }}");
    MissingCharNoMatch("", Placeholder("b"), 0);
    ReplaceOnce("{{ b }}", "", Placeholder("b"), "", "x", "x");
    MissingCharNoMatch("{{ a }}", Placeholder("b"), 3);
    ReplaceNoMatch("{{ a }}", Placeholder("b"), "x");
  }

  /**
   * A notebook cell: its `source` text and every other field of the cell
   * (cell type, metadata, outputs, ...), kept as opaque text by field name.
   */
  datatype Cell = Cell(source: string, otherFields: map<string, string>)

  /** A notebook document as stored in a file: its cells in order and its other top-level fields. */
  datatype NotebookDoc = NotebookDoc(cells: seq<Cell>, otherFields: map<string, string>)

  /** A cell whose source has had the variables substituted. */
  function FilledCell(cell: Cell, vars: Dict): Cell {
    cell.(source := Substituted(cell.source, vars))
  }

  /** The document with the variables substituted in every cell's source. */
  function FilledDoc(doc: NotebookDoc, vars: Dict): NotebookDoc {
    doc.(cells := seq(|doc.cells|, i requires 0 <= i < |doc.cells| => FilledCell(doc.cells[i], vars)))
  }

  /** Two cell sequences with the same cells in the same order, up to their sources. */
  predicate SameStructure(a: seq<Cell>, b: seq<Cell>) {
    |a| == |b| && forall i :: 0 <= i < |a| ==> a[i].otherFields == b[i].otherFields
  }

  /**
   * Filling keeps the number and order of the cells and every field other
   * than `source`, and sets each source to its substitution.
   */
  lemma FilledDocStructure(doc: NotebookDoc, vars: Dict)
    ensures SameStructure(FilledDoc(doc, vars).cells, doc.cells)
    ensures FilledDoc(doc, vars).otherFields == doc.otherFields
    ensures forall i :: 0 <= i < |doc.cells| ==>
      FilledDoc(doc, vars).cells[i].source == Substituted(doc.cells[i].source, vars)
  {
  }

  /** A notebook none of whose sources contains `{{` comes out of filling unchanged. */
  lemma FilledDocWithoutBraces(doc: NotebookDoc, vars: Dict)
    requires forall i :: 0 <= i < |doc.cells| ==> !Contains(doc.cells[i].source, "{{")
    ensures FilledDoc(doc, vars) == doc
  {
    forall i | 0 <= i < |doc.cells|
      ensures FilledDoc(doc, vars).cells[i] == doc.cells[i]
    {
      SubstitutedWithoutBraces(doc.cells[i].source, vars);
    }
  }

  /** An in-memory notebook, as `nbformat.read` returns it: its cells can be updated in place. */
  class Notebook {
    const cells: array<Cell>
    const otherFields: map<string, string>

    /** `nbformat.read` of a stored document: a fresh notebook holding its cells. */
    constructor Read(doc: NotebookDoc)
      ensures fresh(cells)
      ensures Doc() == doc
    {
      cells := new Cell[|doc.cells|](i requires 0 <= i < |doc.cells| => doc.cells[i]);
      otherFields := doc.otherFields;
    }

    /** The document `nbformat.write` stores for this notebook. */
    function Doc(): NotebookDoc
      reads this, cells
    {
      NotebookDoc(cells[..], otherFields)
    }
  }

  /** `fill_notebook_template`: substitutes the variables in each cell's source, in place. */
  method FillNotebookTemplate(notebook: Notebook, templateVars: Dict)
    modifies notebook.cells
    ensures notebook.Doc() == FilledDoc(old(notebook.Doc()), templateVars)
  {
    var cells := notebook.cells;
    var i := 0;
    while i < cells.Length
      invariant i <= cells.Length
      invariant forall j :: 0 <= j < i ==> cells[j] == FilledCell(old(cells[j]), templateVars)
      invariant forall j :: i <= j < cells.Length ==> cells[j] == old(cells[j])
    {
      var cell := cells[i];
      var source := SubstituteTemplateVars(cell.source, templateVars);
      cells[i] := cell.(source := source);
      i := i + 1;
    }
  }

  /** A file in the store: a notebook document, or anything else. */
  datatype StoredFile = NotebookFile(doc: NotebookDoc) | OtherFile(content: string)

  /** The exceptions `create_notebook_from_template` lets through. */
  datatype CreateError =
    | FileExistsError(message: string)  // the target already exists
    | FileNotFoundError(path: string)   // the template does not exist
    | NotJsonError(path: string)          // the template is not a notebook

  /** What is written for a template: filled only when variables were given (`if template_vars:`). */
  function Instantiated(doc: NotebookDoc, templateVars: Option<Dict>): (r: NotebookDoc)
    ensures templateVars.Some? ==> r == FilledDoc(doc, templateVars.value)
    ensures templateVars.None? ==> r == doc
    ensures SameStructure(r.cells, doc.cells) && r.otherFields == doc.otherFields
  {
    FilledDocStructure(doc, if templateVars.Some? then templateVars.value else []);
    FilledDocEmpty(doc);
    if templateVars.Some? && templateVars.value != [] then FilledDoc(doc, templateVars.value) else doc
  }

  /** With no variables, or an empty map, the template is written as it is. */
  lemma InstantiatedWithoutVars(doc: NotebookDoc, templateVars: Option<Dict>)
    requires templateVars == None || templateVars == Some([])
    ensures Instantiated(doc, templateVars) == doc
  {
  }

  /** Filling with an empty map would change nothing either, so `if template_vars:` is only a shortcut. */
  lemma FilledDocEmpty(doc: NotebookDoc)
    ensures FilledDoc(doc, []) == doc
  {
  }

  /** The file system, as a map from path to file. */
  class FileStore {
    var files: map<string, StoredFile>

    constructor (files: map<string, StoredFile>)
      ensures this.files == files
    {
      this.files := files;
    }

    /**
     * `create_notebook_from_template`: refuses an existing target, then
     * reads the template, fills it when variables are given and writes it
     * to the target.
     */
    method CreateNotebookFromTemplate(templateFile: string, targetFile: string, templateVars: Option<Dict>)
      returns (result: Outcome<CreateError>)
      modifies this
      ensures targetFile in old(files) ==>
        result == Fail(FileExistsError("Target notebook file '" + targetFile + "' already exists"))
      ensures targetFile !in old(files) && templateFile !in old(files) ==>
        result == Fail(FileNotFoundError(templateFile))
      ensures targetFile !in old(files) && templateFile in old(files) && old(files)[templateFile].OtherFile? ==>
        result == Fail(NotJsonError(templateFile))
      ensures result.Fail? ==> files == old(files)
      ensures result.Pass? <==>
        targetFile !in old(files) && templateFile in old(files) && old(files)[templateFile].NotebookFile?
      ensures result.Pass? ==>
        files == old(files)[targetFile := NotebookFile(Instantiated(old(files)[templateFile].doc, templateVars))]
    {
      if targetFile in files {
        return Fail(FileExistsError("Target notebook file '" + targetFile + "' already exists"));
      }
      if templateFile !in files {
        return Fail(FileNotFoundError(templateFile));
      }
      var template := files[templateFile];
      if template.OtherFile? {
        return Fail(NotJsonError(templateFile));
      }
      var notebook := new Notebook.Read(template.doc);
      if templateVars.Some? && templateVars.value != [] {
        FillNotebookTemplate(notebook, templateVars.value);
      }
      files := files[targetFile := NotebookFile(notebook.Doc())];
      return Pass;
    }
  }

  /**
   * Creating the same target twice: once the first call has written the
   * target, the second fails with `FileExistsError` and what the first
   * one wrote stays as it was.
   */
  method CreateTwice(store: FileStore, templateFile: string, targetFile: string, templateVars: Option<Dict>)
    returns (first: Outcome<CreateError>, second: Outcome<CreateError>)
    modifies store
    ensures first.Pass? ==>
      second.Fail? && second.error.FileExistsError? &&
      templateFile in old(store.files) && old(store.files)[templateFile].NotebookFile? &&
      store.files == old(store.files)[targetFile := NotebookFile(Instantiated(old(store.files)[templateFile].doc, templateVars))]
  {
    first := store.CreateNotebookFromTemplate(templateFile, targetFile, templateVars);
    second := store.CreateNotebookFromTemplate(templateFile, targetFile, templateVars);
  }
}

/** renderTemplates of cmd/revelt/template.go: both loops range over maps, so
    nothing fixes the order of the files or of the keys within a file. */
module TemplateFiles {
  import opened Wrappers
  import opened Templates
  import TemplateOrder

  datatype FileTemplate = FileTemplate(path: string, content: string)

  /** `out` comes of `text` by replacing key by key in some order. */
  ghost predicate CanGive(text: string, vars: map<string, string>, out: string) {
    exists order | IsOrder(order, vars.Keys) :: GivenBy(text, vars, order, out)
  }

  ghost predicate GivenBy(text: string, vars: map<string, string>, order: seq<string>, out: string)
    requires IsOrder(order, vars.Keys)
  {
    out == ReplaceInOrder(text, order, vars)
  }

  method ReplaceKeys(text: string, vars: map<string, string>) returns (out: string)
    ensures CanGive(text, vars, out)
  {
    out := text;
    var rest := vars.Keys;
    ghost var order: seq<string> := [];
    while rest != {}
      invariant rest <= vars.Keys && (forall key :: key in order <==> key in vars && key !in rest)
      invariant forall i, j | 0 <= i < j < |order| :: order[i] != order[j]
      invariant forall key | key in order :: key in vars
      invariant out == ReplaceInOrder(text, order, vars)
      decreases rest
    {
      var key :| key in rest;
      out := ReplaceAll(out, Placeholder(key), vars[key]);
      rest := rest - {key};
      assert (order + [key])[..|order|] == order;
      order := order + [key];
    }
    assert IsOrder(order, vars.Keys) && GivenBy(text, vars, order, out);
  }

  ghost predicate Rendered(
    fs: map<string, string>, pathMap: map<string, string>, vars: map<string, string>, file: string, out: FileTemplate)
  {
    && file in pathMap && file in fs
    && CanGive(pathMap[file], vars, out.path) && CanGive(fs[file], vars, out.content)
  }

  /** Fails exactly when some file is missing, and otherwise gives every file
      once. `files` is the order the map gave them in. */
  method RenderTemplates(fs: map<string, string>, pathMap: map<string, string>, vars: map<string, string>)
    returns (r: Result<seq<FileTemplate>>, ghost files: seq<string>)
    ensures r.Err? <==> exists file :: file in pathMap && file !in fs
    ensures r.Ok? ==> IsOrder(files, pathMap.Keys) && |r.value| == |files|
    ensures r.Ok? ==> forall i | 0 <= i < |files| :: Rendered(fs, pathMap, vars, files[i], r.value[i])
  {
    var result: seq<FileTemplate> := [];
    var rest := pathMap.Keys;
    files := [];
    while rest != {}
      invariant rest <= pathMap.Keys && (forall file :: file in files <==> file in pathMap && file !in rest)
      invariant forall i, j | 0 <= i < j < |files| :: files[i] != files[j]
      invariant forall file | file in pathMap && file !in rest :: file in fs
      invariant |result| == |files|
      invariant forall i | 0 <= i < |files| :: Rendered(fs, pathMap, vars, files[i], result[i])
      decreases rest
    {
      var file :| file in rest;
      var outputPath := ReplaceKeys(pathMap[file], vars);
      if file !in fs {
        return Err("failed to read template " + file), files;
      }
      var content := ReplaceKeys(fs[file], vars);
      result := result + [FileTemplate(outputPath, content)];
      files := files + [file];
      rest := rest - {file};
    }
    r := Ok(result);
  }

  /** What `renderTemplates` gives for a clean text is the one simultaneous
      substitution, for contents and output paths alike. */
  lemma CleanGivesSubstitution(text: string, vars: map<string, string>, out: string)
    requires PlainKeys(vars.Keys) && PlainValues(vars) && Clean(text, vars.Keys)
    requires CanGive(text, vars, out)
    ensures out == Substitute(text, vars)
  {
    var order :| IsOrder(order, vars.Keys) && GivenBy(text, vars, order, out);
    OrderDoesNotMatter(text, order, vars);
    assert Restrict(vars, order) == vars;
  }

  /** A value that holds a placeholder lets the order show. */
  lemma ValueWithPlaceholder()
    ensures var vars := map["A" := "{{B}}", "B" := "x"];
            CanGive("{{A}}", vars, "x") && CanGive("{{A}}", vars, "{{B}}")
  {
    var vars := map["A" := "{{B}}", "B" := "x"];
    assert IsOrder(["A", "B"], vars.Keys) && IsOrder(["B", "A"], vars.Keys);
    TemplateOrder.InOrderOfTwo("{{A}}", "A", "B", vars);
    TemplateOrder.InOrderOfTwo("{{A}}", "B", "A", vars);
    WholeText("A", "{{B}}");
    WholeText("B", "x");
    OtherText();
    assert GivenBy("{{A}}", vars, ["A", "B"], "x");
    assert GivenBy("{{A}}", vars, ["B", "A"], "{{B}}");
  }

  lemma WholeText(key: string, value: string)
    ensures ReplaceAll(Placeholder(key), Placeholder(key), value) == value
  {
    assert Placeholder(key)[|Placeholder(key)|..] == [];
  }

  lemma OtherText()
    ensures ReplaceAll("{{A}}", Placeholder("B"), "x") == "{{A}}"
  {
    assert Placeholder("B") == "{{B}}";
    MatchUnique("{{A}}", "A", "B");
    ReplaceIsSubstitute("{{A}}", "B", "x");
    CopyPlaceholder("A", 0, "", map["B" := "x"]);
    assert Placeholder("A")[0..] + "" == "{{A}}";
    CopyAllEmpty();
  }

  lemma CopyAllEmpty()
    ensures Substitute("", map["B" := "x"]) == ""
  {}
}

/** Recognising template files and value files by name (and, for templates,
    by content). Paths and file contents are given as values; opening and
    reading the file is not part of the model. */
module Classify {
  import opened Strings

  /** The recognised template file names, compared in lower case. */
  const TemplateFilePatterns: seq<string> := ["app.config", "web.config", "appsettings.json"]

  /** `TemplateFileStatus`: NONE, NO_VARIABLES, TEMPLATE. */
  datatype TemplateFileStatus = NotATemplate | NoVariables | Template

  /** Two '%' are needed at least, since one alone cannot delimit a name. */
  function ContainsTemplateVariables(content: string): (b: bool)
    ensures b <==> exists i, j :: 0 <= i < j < |content| && content[i] == '%' && content[j] == '%'
  {
    CountAtLeastTwo(content, '%');
    Count(content, '%') >= 2
  }

  /** `isTemplateFile(filepath)`, with the file's content passed in. */
  function IsTemplateFile(path: string, content: string): (status: TemplateFileStatus)
    ensures status == NotATemplate <==> Lower(BaseName(path)) !in TemplateFilePatterns
    ensures status == Template <==>
              Lower(BaseName(path)) in TemplateFilePatterns &&
              exists i, j :: 0 <= i < j < |content| && content[i] == '%' && content[j] == '%'
  {
    BaseNameOfLower(path);
    if BaseName(Lower(path)) !in TemplateFilePatterns then NotATemplate
    else if ContainsTemplateVariables(content) then Template
    else NoVariables
  }

  /** The loop over the patterns in `isValueFile`. */
  function HasValueSuffix(name: string, patterns: seq<string>): (b: bool)
    ensures b <==> exists k :: 0 <= k < |patterns| && EndsWith(name, "." + patterns[k])
  {
    if patterns == [] then false
    else if EndsWith(name, "." + patterns[0]) then true
    else
      var b := HasValueSuffix(name, patterns[1..]);
      assert forall k :: 1 <= k < |patterns| ==> patterns[k] == patterns[1..][k - 1];
      b
  }

  /** `isValueFile(filepath)`: the lower-cased base name ends with '.'
      followed by one of the template names, as in `prod.app.config`. */
  function IsValueFile(path: string): (b: bool)
    ensures b <==> exists p :: p in TemplateFilePatterns && EndsWith(Lower(BaseName(path)), "." + p)
  {
    HasValueSuffix(Lower(BaseName(path)), TemplateFilePatterns)
  }

  /** No template name ends with '.' followed by a template name. */
  lemma {:induction false} PatternsAreNotValueNames()
    ensures forall p, q :: p in TemplateFilePatterns && q in TemplateFilePatterns ==> !EndsWith(p, "." + q)
  {
    var a, w, j := "app.config", "web.config", "appsettings.json";
    assert TemplateFilePatterns == [a, w, j];
    assert |a| == |w| == 10 && |j| == 16;
    assert j[5] == 't';
    assert ("." + a)[0] == '.' && ("." + w)[0] == '.';
    assert j[|j| - |"." + a|..][0] != ("." + a)[0];
    assert j[|j| - |"." + w|..][0] != ("." + w)[0];
  }

  /** A file named exactly like a template is never taken for a value file. */
  lemma {:induction false} TemplateIsNotValueFile(path: string, content: string)
    requires IsTemplateFile(path, content) != NotATemplate
    ensures !IsValueFile(path)
  {
    PatternsAreNotValueNames();
  }

  // The examples below take their literals as parameters, which keeps the
  // verifier from unfolding the recursive definitions on constant text.

  lemma {:induction false} ValueFileExample(name: string)
    requires name == "Prod.App.Config"
    ensures IsValueFile(name)
  {
    LowerExampleName(name);
    var p := TemplateFilePatterns[0];
    assert "." + p == ".app.config";
    assert p in TemplateFilePatterns && EndsWith("prod.app.config", "." + p);
  }

  lemma {:induction false} LowerExampleName(name: string)
    requires name == "Prod.App.Config"
    ensures Lower(BaseName(name)) == "prod.app.config"
  {
    BaseNameOfPlainName(name);
  }

  lemma {:induction false} TemplateExample(name: string, content: string)
    requires name == "App.config" && content == "<add value=\"%%Port%%\"/>"
    ensures IsTemplateFile(name, content) == Template
  {
    BaseNameOfPlainName(name);
    assert Lower(name) == TemplateFilePatterns[0];
    assert content[12] == '%' && content[13] == '%';
  }

  lemma {:induction false} NoVariablesExample(name: string, content: string)
    requires name == "Web.config" && content == "<add value=\"80%\"/>"
    ensures IsTemplateFile(name, content) == NoVariables
  {
    WebConfigName(name);
    SinglePercent(content);
  }

  lemma {:induction false} WebConfigName(name: string)
    requires name == "Web.config"
    ensures Lower(BaseName(name)) == TemplateFilePatterns[1]
  {
    BaseNameOfPlainName(name);
    assert Lower(name) == TemplateFilePatterns[1];
  }

  lemma {:induction false} SinglePercent(content: string)
    requires content == "<add value=\"80%\"/>"
    ensures !ContainsTemplateVariables(content)
  {
    assert forall i :: 0 <= i < |content| && content[i] == '%' ==> i == 14;
  }
}

/** The non-interactive tail of `run`: the value files nearest to the
    template are chosen for the requested environment, loaded, merged and
    substituted into the template. The directory walk, the command line and
    the file system are not modelled: the candidate value files and the
    lines of each are given, and the filled-in template is returned. */
module Configurator {
  import opened Strings
  import opened Results
  import opened ValueFiles
  import opened Paths
  import opened Environments
  import opened Substitution

  /** The mappings `loadValueFile` builds for the files `selected`. */
  function Loaded(selected: seq<string>, fileLines: map<string, seq<string>>): (vs: seq<MappingValue>)
    requires forall f :: f in selected ==> f in fileLines
    ensures |vs| == |selected|
  {
    if selected == [] then []
    else
      var f := selected[|selected| - 1];
      Loaded(selected[..|selected| - 1], fileLines) + [Parse(BaseName(f), fileLines[f])]
  }

  /** Mapping `i` is what `loadValueFile` makes of file `i`. */
  lemma {:induction false} LoadedAt(selected: seq<string>, fileLines: map<string, seq<string>>, i: nat)
    requires forall f :: f in selected ==> f in fileLines
    requires i < |selected|
    ensures Loaded(selected, fileLines)[i] == Parse(BaseName(selected[i]), fileLines[selected[i]])
  {
    if i < |selected| - 1 {
      LoadedAt(selected[..|selected| - 1], fileLines, i);
    }
  }

  lemma LoadedWellFormed(selected: seq<string>, fileLines: map<string, seq<string>>)
    requires forall f :: f in selected ==> f in fileLines
    ensures AllWellFormed(Loaded(selected, fileLines))
  {
    forall i | 0 <= i < |selected| ensures WellFormed(Loaded(selected, fileLines)[i]) {
      LoadedAt(selected, fileLines, i);
      ParseWellFormed(BaseName(selected[i]), fileLines[selected[i]]);
    }
  }

  /** The template filled in from the merge of the files `selected`. */
  function FilledFrom(templateContents: string, selected: seq<string>, fileLines: map<string, seq<string>>): string
    requires selected != [] && forall f :: f in selected ==> f in fileLines
  {
    LoadedWellFormed(selected, fileLines);
    var vs := Loaded(selected, fileLines);
    MergedWellFormed(vs, |vs|);
    var merged := Merged(vs);
    Populated(templateContents, merged.order, merged.entries)
  }

  /** The redundancy diagnostics of merging the files `selected`. */
  function Diagnostics(selected: seq<string>, fileLines: map<string, seq<string>>): seq<Redundancy>
    requires selected != [] && forall f :: f in selected ==> f in fileLines
  {
    LoadedWellFormed(selected, fileLines);
    Redundancies(Loaded(selected, fileLines))
  }

  /** The diagnostics of the whole non-interactive run: none when no value
      files could be chosen. */
  function RunDiagnostics(template: string, options: seq<string>, fileLines: map<string, seq<string>>,
                          env: string, singleEnv: bool): seq<Redundancy>
    requires forall f :: f in options ==> f in fileLines
  {
    var nearby := Nearest(template, options);
    SelectionWithin(nearby, env, singleEnv);
    match SelectionChecked(nearby, env, singleEnv)
    case Failure(_) => []
    case Success(selected) => Diagnostics(selected, fileLines)
  }

  /** A single file has nothing to repeat: single-environment mode, and any
      environment outside the hierarchy, never reports a redundancy. */
  lemma {:induction false} SingleFileNoDiagnostics(template: string, options: seq<string>,
                                                   fileLines: map<string, seq<string>>, env: string, singleEnv: bool)
    requires forall f :: f in options ==> f in fileLines
    requires singleEnv || env !in EnvironmentNames
    ensures RunDiagnostics(template, options, fileLines, env, singleEnv) == []
  {
    var nearby := Nearest(template, options);
    SelectionWithin(nearby, env, singleEnv);
    var r := SelectionChecked(nearby, env, singleEnv);
    if r.Success? {
      assert |r.value| == 1;
      LoadedWellFormed(r.value, fileLines);
    }
  }

  /** The template text after the whole non-interactive run, or why no
      value files could be chosen. An empty choice is reported like a
      missing environment. */
  function Configured(template: string, templateContents: string, options: seq<string>,
                      fileLines: map<string, seq<string>>, env: string, singleEnv: bool): Result<string, SelectionError>
    requires forall f :: f in options ==> f in fileLines
  {
    var nearby := Nearest(template, options);
    SelectionWithin(nearby, env, singleEnv);
    match SelectionChecked(nearby, env, singleEnv)
    case Failure(e) => Failure(e)
    case Success(selected) => Success(FilledFrom(templateContents, selected, fileLines))
  }

  /** `loadValueFile` for each chosen file, in order. */
  method LoadValueFiles(selected: seq<string>, fileLines: map<string, seq<string>>)
    returns (valueMappings: seq<ValueMapping>)
    requires forall f :: f in selected ==> f in fileLines
    ensures |valueMappings| == |selected|
    ensures forall i :: 0 <= i < |selected| ==> fresh(valueMappings[i]) && valueMappings[i].Valid()
    ensures forall i, j :: 0 <= i < j < |selected| ==> valueMappings[i] != valueMappings[j]
    ensures Values(valueMappings) == Loaded(selected, fileLines)
  {
    valueMappings := [];
    for i := 0 to |selected|
      invariant |valueMappings| == i
      invariant forall k :: 0 <= k < i ==> fresh(valueMappings[k]) && valueMappings[k].Value() == Loaded(selected, fileLines)[k]
      invariant forall k, j :: 0 <= k < j < i ==> valueMappings[k] != valueMappings[j]
    {
      var valueFilename := selected[i];
      var mapping := LoadValueFile(BaseName(valueFilename), fileLines[valueFilename]);
      LoadedAt(selected, fileLines, i);
      valueMappings := valueMappings + [mapping];
    }
    LoadedWellFormed(selected, fileLines);
  }

  /** Loading, merging and substitution once the files are chosen. */
  method ApplyValueFiles(templateContents: string, selected: seq<string>, fileLines: map<string, seq<string>>,
                         whatif: bool) returns (contents: string, written: Option<string>, redundancies: seq<Redundancy>)
    requires selected != [] && forall f :: f in selected ==> f in fileLines
    ensures contents == FilledFrom(templateContents, selected, fileLines)
    ensures redundancies == Diagnostics(selected, fileLines)
    ensures written == if whatif then None else Some(contents)
  {
    var valueMappings := LoadValueFiles(selected, fileLines);
    LoadedWellFormed(selected, fileLines);
    var merged;
    merged, redundancies := MergeValueMappings(valueMappings);
    contents, written := PopulateTemplate(templateContents, merged.value, whatif);
  }

  /** Nearest files, environment choice, loading, merging and substitution.
      `written` is what goes back to the template file unless this is a
      dry run. */
  method Configure(template: string, templateContents: string, options: seq<string>,
                   fileLines: map<string, seq<string>>, env: string, singleEnv: bool, whatif: bool)
    returns (result: Result<string, SelectionError>, written: Option<string>, redundancies: seq<Redundancy>)
    requires forall f :: f in options ==> f in fileLines
    ensures result == Configured(template, templateContents, options, fileLines, env, singleEnv)
    ensures redundancies == RunDiagnostics(template, options, fileLines, env, singleEnv)
    ensures result.Failure? || whatif ==> written == None
    ensures result.Success? && !whatif ==> written == Some(result.value)
  {
    var nearby := NearestValueFiles(template, options);
    var selection := SelectValueFiles(nearby, env, singleEnv);
    SelectionWithin(nearby, env, singleEnv);
    if selection.Success? && selection.value == [] {
      selection := Failure(NoMatchingEnvironment(env));
    }
    if selection.Failure? {
      return Failure(selection.error), None, [];
    }
    var contents;
    contents, written, redundancies := ApplyValueFiles(templateContents, selection.value, fileLines, whatif);
    result := Success(contents);
  }
}

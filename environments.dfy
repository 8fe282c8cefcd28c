/** Choosing the value files of an environment among the nearest ones: one
    file in single-environment mode, or one file per environment from the
    requested one to the last in hierarchical mode. */
module Environments {
  import opened Strings
  import opened Results

  /** The environments in hierarchical order; asking for one applies it and
      every later one. */
  const EnvironmentNames: seq<string> := ["dev", "qa", "prod"]

  /** Why no list of value files could be chosen. */
  datatype SelectionError =
    | NoMatchingEnvironment(env: string)
    | AmbiguousEnvironment(matches: seq<string>, env: string)

  /** A file belongs to environment `env` when its base name starts with it. */
  predicate InEnvironment(f: string, env: string) {
    StartsWith(BaseName(f), env)
  }

  /** `[f for f in files if os.path.basename(f).startswith(env)]` */
  function Matching(files: seq<string>, env: string): (r: seq<string>)
    ensures forall f :: f in r <==> f in files && InEnvironment(f, env)
    ensures |r| <= |files|
  {
    if files == [] then []
    else
      var init := Matching(files[..|files| - 1], env);
      var last := files[|files| - 1];
      assert forall f :: f in files <==> f in files[..|files| - 1] || f == last;
      if InEnvironment(last, env) then init + [last] else init
  }

  /** At least two entries of `files` (possibly equal names) match. */
  lemma {:induction false} MatchingAtLeastTwo(files: seq<string>, env: string)
    ensures |Matching(files, env)| >= 2 <==>
              exists i, j :: 0 <= i < j < |files| && InEnvironment(files[i], env) && InEnvironment(files[j], env)
  {
    if exists i, j :: 0 <= i < j < |files| && InEnvironment(files[i], env) && InEnvironment(files[j], env) {
      var i, j :| 0 <= i < j < |files| && InEnvironment(files[i], env) && InEnvironment(files[j], env);
      TwoMatches(files, env, i, j);
    }
    if |Matching(files, env)| >= 2 {
      var i, j := TwoIndices(files, env);
    }
  }

  lemma {:induction false} TwoMatches(files: seq<string>, env: string, i: nat, j: nat)
    requires i < j < |files| && InEnvironment(files[i], env) && InEnvironment(files[j], env)
    ensures |Matching(files, env)| >= 2
  {
    var init := files[..|files| - 1];
    if j < |files| - 1 {
      TwoMatches(init, env, i, j);
    } else {
      assert files[i] == init[i];
      assert files[i] in Matching(init, env);
    }
  }

  lemma {:induction false} TwoIndices(files: seq<string>, env: string) returns (i: nat, j: nat)
    requires |Matching(files, env)| >= 2
    ensures i < j < |files| && InEnvironment(files[i], env) && InEnvironment(files[j], env)
  {
    var init := files[..|files| - 1];
    var m := Matching(init, env);
    if InEnvironment(files[|files| - 1], env) {
      assert m[0] in m;
      i :| 0 <= i < |init| && init[i] == m[0];
      j := |files| - 1;
    } else {
      i, j := TwoIndices(init, env);
    }
    assert files[i] == init[i] || j == |files| - 1;
  }

  lemma {:induction false} MatchingEmpty(files: seq<string>, env: string)
    ensures Matching(files, env) == [] <==> forall f :: f in files ==> !InEnvironment(f, env)
  {
    var m := Matching(files, env);
    if m != [] {
      assert m[0] in m;
    }
  }

  // ---------------------------------------------------------------------------
  // Single-environment mode

  /** Exactly one of the nearby files may belong to `env`. */
  function SelectSingle(files: seq<string>, env: string): (r: Result<seq<string>, SelectionError>)
    ensures r == Failure(NoMatchingEnvironment(env)) <==> forall f :: f in files ==> !InEnvironment(f, env)
    ensures r == Failure(AmbiguousEnvironment(Matching(files, env), env)) <==>
              exists i, j :: 0 <= i < j < |files| && InEnvironment(files[i], env) && InEnvironment(files[j], env)
    ensures r.Success? ==>
              && |r.value| == 1 && r.value[0] in files && InEnvironment(r.value[0], env)
              && forall f :: f in files && InEnvironment(f, env) ==> f == r.value[0]
    ensures (exists f :: f in files && InEnvironment(f, env)) &&
            !(exists i, j :: 0 <= i < j < |files| && InEnvironment(files[i], env) && InEnvironment(files[j], env))
            ==> r.Success?
  {
    MatchingAtLeastTwo(files, env);
    MatchingEmpty(files, env);
    var m := Matching(files, env);
    if |m| == 0 then Failure(NoMatchingEnvironment(env))
    else if |m| > 1 then Failure(AmbiguousEnvironment(m, env))
    else
      SingleEntry(m);
      assert m[..1] == m;
      Success(m[..1])
  }

  // ---------------------------------------------------------------------------
  // Hierarchical mode

  /** Puts `prefix` in front of a successful selection. */
  function After(prefix: seq<string>, r: Result<seq<string>, SelectionError>): Result<seq<string>, SelectionError> {
    match r
    case Success(rest) => Success(prefix + rest)
    case Failure(e) => Failure(e)
  }

  /** The files of the tiers `envs`, in tier order: each tier contributes
      its single matching file, or nothing; the first tier with more than
      one match ends the selection with an error. */
  function Chain(files: seq<string>, envs: seq<string>): Result<seq<string>, SelectionError> {
    if envs == [] then Success([])
    else
      var m := Matching(files, envs[0]);
      if |m| > 1 then Failure(AmbiguousEnvironment(m, envs[0]))
      else After(m, Chain(files, envs[1..]))
  }

  /** A chain succeeds exactly when no tier is ambiguous; it then holds at
      most one file per tier, exactly the files that belong to some tier. */
  lemma {:induction false} ChainSuccess(files: seq<string>, envs: seq<string>)
    ensures Chain(files, envs).Success? <==> forall t :: 0 <= t < |envs| ==> |Matching(files, envs[t])| <= 1
    ensures Chain(files, envs).Success? ==>
              && |Chain(files, envs).value| <= |envs|
              && forall f :: f in Chain(files, envs).value <==>
                   f in files && exists t :: 0 <= t < |envs| && InEnvironment(f, envs[t])
  {
    if envs != [] {
      var rest := envs[1..];
      ChainSuccess(files, rest);
      assert forall t :: 1 <= t < |envs| ==> envs[t] == rest[t - 1];
      assert forall t :: 0 <= t < |rest| ==> rest[t] == envs[t + 1];
      var m := Matching(files, envs[0]);
      if |m| <= 1 && Chain(files, rest).Success? {
        forall f | f in files && exists t :: 0 <= t < |envs| && InEnvironment(f, envs[t])
          ensures f in Chain(files, envs).value
        {
          var t :| 0 <= t < |envs| && InEnvironment(f, envs[t]);
          if t > 0 {
            assert InEnvironment(f, rest[t - 1]);
          }
        }
      }
    }
  }

  /** A failing chain names the first ambiguous tier and all its matches. */
  lemma {:induction false} ChainFailure(files: seq<string>, envs: seq<string>)
    requires Chain(files, envs).Failure?
    ensures var e := Chain(files, envs).error;
            && e.AmbiguousEnvironment?
            && exists t :: 0 <= t < |envs| && e.env == envs[t] && e.matches == Matching(files, envs[t])
                           && |e.matches| > 1
                           && forall u :: 0 <= u < t ==> |Matching(files, envs[u])| <= 1
  {
    var m := Matching(files, envs[0]);
    if |m| <= 1 {
      var rest := envs[1..];
      ChainFailure(files, rest);
      var e := Chain(files, rest).error;
      var t :| 0 <= t < |rest| && e.env == rest[t] && e.matches == Matching(files, rest[t])
               && |e.matches| > 1 && forall u :: 0 <= u < t ==> |Matching(files, rest[u])| <= 1;
      assert forall u :: 1 <= u < t + 1 ==> envs[u] == rest[u - 1];
      assert envs[t + 1] == rest[t];
    }
  }

  /** The position of `env` in `names`, as `list.index`. */
  function IndexOf(names: seq<string>, env: string): (i: nat)
    requires env in names
    ensures i < |names| && names[i] == env
    ensures forall j :: 0 <= j < i ==> names[j] != env
  {
    if names[0] == env then 0 else 1 + IndexOf(names[1..], env)
  }

  /** The loop of `run` over `environmentNames[requestedEnvIndex:]`. */
  method SelectHierarchical(files: seq<string>, env: string) returns (r: Result<seq<string>, SelectionError>)
    requires env in EnvironmentNames
    ensures r == Chain(files, EnvironmentNames[IndexOf(EnvironmentNames, env)..])
  {
    var envs := EnvironmentNames[IndexOf(EnvironmentNames, env)..];
    var valueFilenames: seq<string> := [];
    assert envs[0..] == envs;
    AfterNothing(Chain(files, envs));
    for t := 0 to |envs|
      invariant Chain(files, envs) == After(valueFilenames, Chain(files, envs[t..]))
    {
      var tier := envs[t];
      var envValueFiles := Matching(files, tier);
      assert envs[t..][0] == tier && envs[t..][1..] == envs[t + 1..];
      if |envValueFiles| > 1 {
        return Failure(AmbiguousEnvironment(envValueFiles, tier));
      }
      AfterAfter(valueFilenames, envValueFiles, Chain(files, envs[t + 1..]));
      if |envValueFiles| == 1 {
        assert envValueFiles == [envValueFiles[0]];
        valueFilenames := valueFilenames + [envValueFiles[0]];
      } else {
        assert valueFilenames + envValueFiles == valueFilenames;
      }
    }
    assert envs[|envs|..] == [];
    assert valueFilenames + [] == valueFilenames;
    r := Success(valueFilenames);
  }

  lemma {:induction false} AfterNothing(r: Result<seq<string>, SelectionError>)
    ensures After([], r) == r
  {
    if r.Success? {
      assert [] + r.value == r.value;
    }
  }

  lemma {:induction false} AfterAfter(prefix: seq<string>, more: seq<string>, r: Result<seq<string>, SelectionError>)
    ensures After(prefix, After(more, r)) == After(prefix + more, r)
  {
    if r.Success? {
      assert prefix + (more + r.value) == prefix + more + r.value;
    }
  }

  // ---------------------------------------------------------------------------
  // Choosing the mode

  /** The value files `run` selects among the nearest files `files`: single
      mode for an unknown environment or when asked for, otherwise the
      chain from the requested environment on. */
  function Selection(files: seq<string>, env: string, singleEnv: bool): Result<seq<string>, SelectionError> {
    if env !in EnvironmentNames || singleEnv then SelectSingle(files, env)
    else Chain(files, EnvironmentNames[IndexOf(EnvironmentNames, env)..])
  }

  /** A selection takes one file in single mode and at most one per tier
      otherwise, always among `files`. */
  lemma {:induction false} SelectionWithin(files: seq<string>, env: string, singleEnv: bool)
    ensures var r := Selection(files, env, singleEnv);
            && (r.Success? && (env !in EnvironmentNames || singleEnv) ==> |r.value| == 1)
            && (r.Success? ==> |r.value| <= |EnvironmentNames| && forall f :: f in r.value ==> f in files)
  {
    if env in EnvironmentNames && !singleEnv {
      ChainSuccess(files, EnvironmentNames[IndexOf(EnvironmentNames, env)..]);
    }
  }

  /** The choice between the two modes in `run`. */
  method SelectValueFiles(files: seq<string>, env: string, singleEnv: bool) returns (r: Result<seq<string>, SelectionError>)
    ensures r == Selection(files, env, singleEnv)
  {
    if env !in EnvironmentNames || singleEnv {
      r := SelectSingle(files, env);
    } else {
      r := SelectHierarchical(files, env);
    }
  }

  /** Where each tier starts in the list of environments. */
  lemma {:induction false} TierStarts()
    ensures IndexOf(EnvironmentNames, "dev") == 0 && IndexOf(EnvironmentNames, "qa") == 1
    ensures IndexOf(EnvironmentNames, "prod") == 2
    ensures EnvironmentNames[0..] == ["dev", "qa", "prod"]
    ensures EnvironmentNames[2..] == ["prod"]
  {
    var names := EnvironmentNames;
    assert names[0] == "dev" && names[1] == "qa" && names[2] == "prod";
    assert "dev"[0] != "qa"[0] && "dev"[0] != "prod"[0] && "qa"[0] != "prod"[0];
    assert names[1..] == ["qa", "prod"] && names[1..][1..] == ["prod"];
  }

  /** The first two of three files, when the third does not match. */
  lemma ThirdLeftOut(d: string, q: string, p: string, e: string)
    requires !InEnvironment(p, e)
    ensures Matching([d, q, p], e) == Matching([d, q], e)
  {
    assert [d, q, p][..2] == [d, q];
  }

  /** The first of two files, when the second does not match. */
  lemma SecondLeftOut(d: string, q: string, e: string)
    requires !InEnvironment(q, e)
    ensures Matching([d, q], e) == Matching([d], e)
  {
    assert [d, q][..1] == [d];
  }

  lemma OneFile(d: string, e: string)
    ensures Matching([d], e) == if InEnvironment(d, e) then [d] else []
  {
    assert [d][..0] == [];
  }

  /** The three tiers in order, each with at most one file. */
  lemma {:induction false} ChainOfThree(files: seq<string>, e0: string, e1: string, e2: string)
    requires |Matching(files, e0)| <= 1 && |Matching(files, e1)| <= 1 && |Matching(files, e2)| <= 1
    ensures Chain(files, [e0, e1, e2]) == Success(Matching(files, e0) + Matching(files, e1) + Matching(files, e2))
  {
    var envs := [e0, e1, e2];
    var m0, m1, m2 := Matching(files, e0), Matching(files, e1), Matching(files, e2);
    assert envs[1..] == [e1, e2] && envs[1..][1..] == [e2] && envs[1..][1..][1..] == [];
    assert Chain(files, [e2]) == Success(m2) by {
      assert m2 + [] == m2;
    }
    AfterAfter(m0, m1, Success(m2));
  }

  lemma {:induction false} OnlyFirst(d: string, q: string, p: string, e: string)
    requires InEnvironment(d, e) && !InEnvironment(q, e) && !InEnvironment(p, e)
    ensures Matching([d, q, p], e) == [d]
  {
    ThirdLeftOut(d, q, p, e);
    SecondLeftOut(d, q, e);
    OneFile(d, e);
  }

  lemma {:induction false} OnlySecond(d: string, q: string, p: string, e: string)
    requires !InEnvironment(d, e) && InEnvironment(q, e) && !InEnvironment(p, e)
    ensures Matching([d, q, p], e) == [q]
  {
    ThirdLeftOut(d, q, p, e);
    OneFile(d, e);
    assert [d, q][..1] == [d];
    assert Matching([d, q], e) == [] + [q];
  }

  lemma {:induction false} OnlyThird(d: string, q: string, p: string, e: string)
    requires !InEnvironment(d, e) && !InEnvironment(q, e) && InEnvironment(p, e)
    ensures Matching([d, q, p], e) == [p]
  {
    SecondLeftOut(d, q, e);
    OneFile(d, e);
    assert [d, q, p][..2] == [d, q];
    assert Matching([d, q, p], e) == [] + [p];
  }

  /** Three files, each in its own one of three tiers. */
  lemma {:induction false} ThreeTiers(files: seq<string>, e0: string, e1: string, e2: string)
    requires |files| == 3
    requires Matching(files, e0) == [files[0]] && Matching(files, e1) == [files[1]]
    requires Matching(files, e2) == [files[2]]
    ensures Chain(files, [e0, e1, e2]) == Success(files)
  {
    ChainOfThree(files, e0, e1, e2);
    assert [files[0]] + [files[1]] + [files[2]] == files;
  }

  /** With a file per environment nearby, asking for `dev` applies dev, qa
      and prod in that order. */
  lemma {:induction false} HierarchyExample(d: string, q: string, p: string)
    requires InEnvironment(d, "dev") && !InEnvironment(d, "qa") && !InEnvironment(d, "prod")
    requires !InEnvironment(q, "dev") && InEnvironment(q, "qa") && !InEnvironment(q, "prod")
    requires !InEnvironment(p, "dev") && !InEnvironment(p, "qa") && InEnvironment(p, "prod")
    ensures Selection([d, q, p], "dev", false) == Success([d, q, p])
  {
    TierStarts();
    OnlyFirst(d, q, p, "dev");
    OnlySecond(d, q, p, "qa");
    OnlyThird(d, q, p, "prod");
    ThreeTiers([d, q, p], "dev", "qa", "prod");
    assert "dev" in EnvironmentNames;
  }

  /** Single mode with `qa` applies the QA file alone. */
  lemma {:induction false} SingleExample(d: string, q: string, p: string)
    requires InEnvironment(d, "dev") && !InEnvironment(d, "qa") && !InEnvironment(d, "prod")
    requires !InEnvironment(q, "dev") && InEnvironment(q, "qa") && !InEnvironment(q, "prod")
    requires !InEnvironment(p, "dev") && !InEnvironment(p, "qa") && InEnvironment(p, "prod")
    ensures Selection([d, q, p], "qa", true) == Success([q])
  {
    var files := [d, q, p];
    OnlySecond(d, q, p, "qa");
    var m := Matching(files, "qa");
    assert m[..1] == [q];
    assert SelectSingle(files, "qa") == Success([q]);
  }

  // ---------------------------------------------------------------------------
  // An empty hierarchical selection

  /** No file belongs to `env` or to any later tier. */
  predicate NoFileFrom(files: seq<string>, env: string)
    requires env in EnvironmentNames
  {
    forall f, t :: f in files && IndexOf(EnvironmentNames, env) <= t < |EnvironmentNames| ==>
                   !InEnvironment(f, EnvironmentNames[t])
  }

  /** As written, hierarchical mode accepts an environment none of whose
      tiers has a file: the selection is empty, and merging no mappings
      leaves nothing with a title to populate the template from. */
  lemma {:induction false} EmptyChainAccepted(files: seq<string>, env: string)
    requires env in EnvironmentNames && NoFileFrom(files, env)
    ensures Selection(files, env, false) == Success([])
  {
    var i := IndexOf(EnvironmentNames, env);
    var envs := EnvironmentNames[i..];
    assert forall t :: 0 <= t < |envs| ==> envs[t] == EnvironmentNames[i + t];
    EmptyTiers(files, envs);
  }

  lemma {:induction false} EmptyTiers(files: seq<string>, envs: seq<string>)
    requires forall f, t :: f in files && 0 <= t < |envs| ==> !InEnvironment(f, envs[t])
    ensures Chain(files, envs) == Success([])
  {
    if envs != [] {
      MatchingEmpty(files, envs[0]);
      assert forall t :: 0 <= t < |envs| - 1 ==> envs[1..][t] == envs[t + 1];
      EmptyTiers(files, envs[1..]);
      AfterNothing(Success([]));
    }
  }

  /** `run -e prod` with only a QA file nearby. */
  lemma {:induction false} EmptyChainExample(q: string)
    requires BaseName(q) == "qa.app.config"
    ensures Selection([q], "prod", false) == Success([])
  {
    TierStarts();
    var b := BaseName(q);
    assert b[..4][0] == 'q' && "prod"[0] == 'p';
    assert !InEnvironment(q, "prod");
    EmptyChainAccepted([q], "prod");
  }

  /** The selection with the check single mode already makes: an empty list
      of value files is reported as a missing environment. */
  function SelectionChecked(files: seq<string>, env: string, singleEnv: bool): (r: Result<seq<string>, SelectionError>)
    ensures r.Success? ==> r.value != [] && r == Selection(files, env, singleEnv)
    ensures r.Failure? ==> r == Selection(files, env, singleEnv) || r == Failure(NoMatchingEnvironment(env))
    ensures Selection(files, env, singleEnv) != Success([]) ==> r == Selection(files, env, singleEnv)
    ensures Selection(files, env, singleEnv) == Success([]) ==> r == Failure(NoMatchingEnvironment(env))
  {
    match Selection(files, env, singleEnv)
    case Success(v) => if v == [] then Failure(NoMatchingEnvironment(env)) else Success(v)
    case Failure(e) => Failure(e)
  }

  /** The corrected selection reports a missing environment in either mode. */
  lemma {:induction false} SelectionCheckedMissing(files: seq<string>, env: string, singleEnv: bool)
    requires forall f :: f in files ==> !InEnvironment(f, env)
    requires env in EnvironmentNames ==> NoFileFrom(files, env)
    ensures SelectionChecked(files, env, singleEnv) == Failure(NoMatchingEnvironment(env))
  {
    if env in EnvironmentNames && !singleEnv {
      EmptyChainAccepted(files, env);
    }
  }
}

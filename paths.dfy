/** Distance between two paths, counted in path components, and the choice
    of the value files nearest to the template. Paths arrive already
    resolved: `os.path.realpath` is not part of the model. */
module Paths {
  import opened Strings

  // ---------------------------------------------------------------------------
  // Path components

  /** The pieces of every element of `pieces` split at `c`, in order. */
  function FlatSplit(pieces: seq<string>, c: char): (r: seq<string>)
    ensures forall i :: 0 <= i < |r| ==> c !in r[i]
  {
    if pieces == [] then []
    else FlatSplit(pieces[..|pieces| - 1], c) + SplitOn(pieces[|pieces| - 1], c)
  }

  /** The components of a path, split at both '/' and '\\', empty components
      included. */
  function Tokens(p: string): seq<string> {
    FlatSplit(SplitOn(p, '/'), '\\')
  }

  function ReplaceEach(pieces: seq<string>, c: char, d: char): (r: seq<string>)
    ensures |r| == |pieces| && forall i :: 0 <= i < |r| ==> r[i] == ReplaceChar(pieces[i], c, d)
  {
    seq(|pieces|, i requires 0 <= i < |pieces| => ReplaceChar(pieces[i], c, d))
  }

  /** Replacing a character other than the separator commutes with joining. */
  lemma {:induction false} ReplaceJoin(pieces: seq<string>, e: char, c: char, d: char)
    requires pieces != [] && e != c
    ensures ReplaceChar(Join(pieces, [e]), c, d) == Join(ReplaceEach(pieces, c, d), [e])
  {
    if |pieces| > 1 {
      var init := pieces[..|pieces| - 1];
      var last := pieces[|pieces| - 1];
      ReplaceJoin(init, e, c, d);
      assert ReplaceEach(pieces, c, d)[..|pieces| - 1] == ReplaceEach(init, c, d);
      var a := Join(init, [e]);
      assert ReplaceChar(a + [e] + last, c, d) == ReplaceChar(a, c, d) + [e] + ReplaceChar(last, c, d);
    }
  }

  lemma {:induction false} FlatSplitJoin(pieces: seq<string>, c: char, d: char)
    requires pieces != []
    ensures FlatSplit(pieces, c) != []
    ensures Join(FlatSplit(pieces, c), [d]) == Join(ReplaceEach(pieces, c, d), [d])
  {
    var last := pieces[|pieces| - 1];
    SplitJoinWith(last, c, d);
    if |pieces| > 1 {
      var init := pieces[..|pieces| - 1];
      FlatSplitJoin(init, c, d);
      JoinAppend(FlatSplit(init, c), SplitOn(last, c), [d]);
      assert ReplaceEach(pieces, c, d)[..|pieces| - 1] == ReplaceEach(init, c, d);
    } else {
      assert FlatSplit(pieces, c) == SplitOn(last, c);
    }
  }

  /** No component holds a separator, and joining the components with '/'
      gives back the path with every '\\' written as '/'. */
  lemma {:induction false} TokensJoin(p: string)
    ensures forall i :: 0 <= i < |Tokens(p)| ==> '/' !in Tokens(p)[i] && '\\' !in Tokens(p)[i]
    ensures Join(Tokens(p), "/") == ReplaceChar(p, '\\', '/')
  {
    var pieces := SplitOn(p, '/');
    FlatSplitJoin(pieces, '\\', '/');
    ReplaceJoin(pieces, '/', '\\', '/');
    SplitJoin(p, '/');
    FlatSplitNoChar(pieces, '\\', '/');
  }

  lemma {:induction false} FlatSplitNoChar(pieces: seq<string>, c: char, e: char)
    requires forall i :: 0 <= i < |pieces| ==> e !in pieces[i]
    ensures forall i :: 0 <= i < |FlatSplit(pieces, c)| ==> e !in FlatSplit(pieces, c)[i]
  {
    if pieces != [] {
      var init := pieces[..|pieces| - 1];
      FlatSplitNoChar(init, c, e);
      SplitOnNoChar(pieces[|pieces| - 1], c, e);
    }
  }

  lemma {:induction false} SplitOnNoChar(s: string, c: char, e: char)
    requires e !in s
    ensures forall i :: 0 <= i < |SplitOn(s, c)| ==> e !in SplitOn(s, c)[i]
  {
    if s != [] {
      SplitOnNoChar(s[..|s| - 1], c, e);
    }
  }

  // ---------------------------------------------------------------------------
  // getDistanceBetweenPaths

  /** Components are compared case-insensitively. */
  predicate SameToken(x: string, y: string) {
    Lower(x) == Lower(y)
  }

  /** The number of leading components on which `xs` and `ys` agree. */
  function CommonPrefix(xs: seq<string>, ys: seq<string>): (n: nat)
    ensures n <= |xs| && n <= |ys|
    ensures forall i :: 0 <= i < n ==> SameToken(xs[i], ys[i])
    ensures n == |xs| || n == |ys| || !SameToken(xs[n], ys[n])
  {
    if xs == [] || ys == [] || !SameToken(xs[0], ys[0]) then 0
    else 1 + CommonPrefix(xs[1..], ys[1..])
  }

  /** The contract of `CommonPrefix` pins its value down. */
  lemma {:induction false} CommonPrefixUnique(xs: seq<string>, ys: seq<string>, n: nat)
    requires n <= |xs| && n <= |ys|
    requires forall i :: 0 <= i < n ==> SameToken(xs[i], ys[i])
    requires n == |xs| || n == |ys| || !SameToken(xs[n], ys[n])
    ensures n == CommonPrefix(xs, ys)
  {
    if n > 0 {
      assert SameToken(xs[0], ys[0]);
      assert forall i :: 0 <= i < n - 1 ==> xs[1..][i] == xs[i + 1] && ys[1..][i] == ys[i + 1];
      CommonPrefixUnique(xs[1..], ys[1..], n - 1);
    }
  }

  /** The number of steps up from `a` and down to `b`. */
  function Distance(a: string, b: string): int {
    var ta, tb := Tokens(a), Tokens(b);
    |ta| + |tb| - 2 * CommonPrefix(ta, tb)
  }

  /** `getDistanceBetweenPaths(A, B)`. */
  method DistanceBetweenPaths(a: string, b: string) returns (d: int)
    ensures d == Distance(a, b)
  {
    var aTokens := Tokens(a);
    var bTokens := Tokens(b);
    var lastMatchIndex := 0;
    while lastMatchIndex < |aTokens| && lastMatchIndex < |bTokens| &&
          Lower(aTokens[lastMatchIndex]) == Lower(bTokens[lastMatchIndex])
      invariant lastMatchIndex <= |aTokens| && lastMatchIndex <= |bTokens|
      invariant forall i :: 0 <= i < lastMatchIndex ==> SameToken(aTokens[i], bTokens[i])
    {
      lastMatchIndex := lastMatchIndex + 1;
    }
    CommonPrefixUnique(aTokens, bTokens, lastMatchIndex);
    d := (|aTokens| - lastMatchIndex) + (|bTokens| - lastMatchIndex);
  }

  lemma {:induction false} CommonPrefixSymmetric(xs: seq<string>, ys: seq<string>)
    ensures CommonPrefix(xs, ys) == CommonPrefix(ys, xs)
  {
    CommonPrefixUnique(ys, xs, CommonPrefix(xs, ys));
  }

  /** The distance is never negative, does not depend on the order of its
      arguments, and is zero exactly when the paths have the same components
      up to case. */
  lemma {:induction false} DistanceProperties(a: string, b: string)
    ensures Distance(a, b) >= 0
    ensures Distance(a, b) == Distance(b, a)
    ensures Distance(a, b) == 0 <==>
              |Tokens(a)| == |Tokens(b)| &&
              forall i :: 0 <= i < |Tokens(a)| ==> SameToken(Tokens(a)[i], Tokens(b)[i])
  {
    CommonPrefixSymmetric(Tokens(a), Tokens(b));
    var ta, tb := Tokens(a), Tokens(b);
    if |ta| == |tb| && forall i :: 0 <= i < |ta| ==> SameToken(ta[i], tb[i]) {
      CommonPrefixUnique(ta, tb, |ta|);
    }
  }

  lemma {:induction false} DistanceToSelf(a: string)
    ensures Distance(a, a) == 0
  {
    DistanceProperties(a, a);
  }

  /** Agreeing with `ys` on a prefix and `ys` agreeing with `zs` on a prefix
      makes `xs` agree with `zs` on the shorter one. */
  lemma {:induction false} CommonPrefixThrough(xs: seq<string>, ys: seq<string>, zs: seq<string>)
    ensures var p, q := CommonPrefix(xs, ys), CommonPrefix(ys, zs);
            CommonPrefix(xs, zs) >= if p < q then p else q
  {
    if xs != [] && ys != [] && zs != [] && SameToken(xs[0], ys[0]) && SameToken(ys[0], zs[0]) {
      CommonPrefixThrough(xs[1..], ys[1..], zs[1..]);
    }
  }

  /** Going through a third path is never shorter. */
  lemma {:induction false} DistanceTriangle(a: string, b: string, c: string)
    ensures Distance(a, c) <= Distance(a, b) + Distance(b, c)
  {
    CommonPrefixThrough(Tokens(a), Tokens(b), Tokens(c));
  }

  // ---------------------------------------------------------------------------
  // Nearest value files

  /** The distance a value file must not exceed to be considered at all. */
  const DistanceLimit := 1000

  /** The distance from `template`, as the key the selection below ranks
      options by. */
  function DistanceFrom(template: string): string -> int {
    f => Distance(template, f)
  }

  /** The smallest distance `dist` gives an option, or the limit if that is
      smaller. */
  function MinDistance(dist: string -> int, options: seq<string>): (m: int)
    ensures m <= DistanceLimit
    ensures forall i :: 0 <= i < |options| ==> m <= dist(options[i])
  {
    if options == [] then DistanceLimit
    else
      var init := options[..|options| - 1];
      var m := MinDistance(dist, init);
      var d := dist(options[|options| - 1]);
      assert forall i :: 0 <= i < |init| ==> options[i] == init[i];
      if d < m then d else m
  }

  /** Below the limit, the smallest distance is that of some option. */
  lemma {:induction false} MinDistanceAttained(dist: string -> int, options: seq<string>)
    ensures var m := MinDistance(dist, options);
            m == DistanceLimit || exists i :: 0 <= i < |options| && m == dist(options[i])
  {
    if options != [] {
      var init := options[..|options| - 1];
      MinDistanceAttained(dist, init);
      var m := MinDistance(dist, init);
      if m != DistanceLimit && m <= dist(options[|options| - 1]) {
        var i :| 0 <= i < |init| && m == dist(init[i]);
        assert options[i] == init[i];
      }
    }
  }

  /** The options at distance `d`, in their original order. */
  function AtDistance(dist: string -> int, options: seq<string>, d: int): (r: seq<string>)
    ensures forall f :: f in r <==> f in options && dist(f) == d
    ensures |r| <= |options|
  {
    if options == [] then []
    else
      var init := AtDistance(dist, options[..|options| - 1], d);
      var last := options[|options| - 1];
      assert forall f :: f in options <==> f in options[..|options| - 1] || f == last;
      if dist(last) == d then init + [last] else init
  }

  /** The value files closest to the template. */
  function Nearest(template: string, options: seq<string>): seq<string> {
    var dist := DistanceFrom(template);
    AtDistance(dist, options, MinDistance(dist, options))
  }

  lemma {:induction false} AtDistanceNone(dist: string -> int, options: seq<string>, d: int)
    requires forall i :: 0 <= i < |options| ==> dist(options[i]) != d
    ensures AtDistance(dist, options, d) == []
  {
    if options != [] {
      var init := options[..|options| - 1];
      assert forall i :: 0 <= i < |init| ==> init[i] == options[i];
      AtDistanceNone(dist, init, d);
    }
  }

  /** One more option: a strictly closer one restarts the selection, an
      equally close one joins it, a farther one changes nothing. */
  lemma NearestStep(dist: string -> int, options: seq<string>, i: nat)
    requires i < |options|
    ensures var m, d, f := MinDistance(dist, options[..i]), dist(options[i]), options[i];
            && MinDistance(dist, options[..i + 1]) == (if d < m then d else m)
            && AtDistance(dist, options[..i + 1], if d < m then d else m) ==
               if d < m then [f]
               else if d == m then AtDistance(dist, options[..i], m) + [f]
               else AtDistance(dist, options[..i], m)
  {
    var m, d := MinDistance(dist, options[..i]), dist(options[i]);
    assert options[..i + 1][..i] == options[..i];
    if d < m {
      AtDistanceNone(dist, options[..i], d);
    }
  }

  /** The selection loop of `run`: options strictly closer than the best so
      far restart the list, options as close join it. */
  method NearestValueFiles(template: string, options: seq<string>) returns (nearby: seq<string>)
    ensures nearby == Nearest(template, options)
  {
    ghost var dist := DistanceFrom(template);
    nearby := [];
    var minDistance := DistanceLimit;
    for i := 0 to |options|
      invariant minDistance == MinDistance(dist, options[..i])
      invariant nearby == AtDistance(dist, options[..i], minDistance)
    {
      var option := options[i];
      var distance := DistanceBetweenPaths(template, option);
      assert distance == dist(option);
      NearestStep(dist, options, i);
      if distance < minDistance {
        minDistance := distance;
        nearby := [option];
      } else if distance == minDistance {
        nearby := nearby + [option];
      }
    }
    assert options[..|options|] == options;
  }

  /** Every option at the least distance is at least as close as every
      option, and there is none exactly when every option is farther than
      the limit. */
  lemma {:induction false} ClosestByKey(dist: string -> int, options: seq<string>)
    ensures var r := AtDistance(dist, options, MinDistance(dist, options));
            && (forall f, i :: f in r && 0 <= i < |options| ==> dist(f) <= dist(options[i]))
            && (r == [] <==> forall i :: 0 <= i < |options| ==> dist(options[i]) > DistanceLimit)
  {
    var m := MinDistance(dist, options);
    var r := AtDistance(dist, options, m);
    MinDistanceAttained(dist, options);
    if m < DistanceLimit {
      var i :| 0 <= i < |options| && m == dist(options[i]);
      assert options[i] in r;
    } else if exists i :: 0 <= i < |options| && dist(options[i]) <= DistanceLimit {
      var i :| 0 <= i < |options| && dist(options[i]) <= DistanceLimit;
      assert options[i] in r;
    } else {
      AtDistanceNone(dist, options, m);
    }
  }

  /** Every nearest file is at least as close as every option, and the list
      is empty exactly when every option is farther than the limit. */
  lemma {:induction false} NearestAreClosest(template: string, options: seq<string>)
    ensures forall f, i :: f in Nearest(template, options) && 0 <= i < |options| ==>
              Distance(template, f) <= Distance(template, options[i])
    ensures Nearest(template, options) == [] <==>
              forall i :: 0 <= i < |options| ==> Distance(template, options[i]) > DistanceLimit
  {
    ClosestByKey(DistanceFrom(template), options);
  }
}

/** The handful of Python 2 `str` operations the configurator relies on,
    stated on `seq<char>`: `lower`, `strip`, `count`, `find`, `split`,
    `startswith`/`endswith`, `" -> ".join`-style concatenation and
    `os.path.basename` (POSIX form). */
module Strings {

  /** The characters Python 2 `str.strip()` removes: space, tab, newline,
      carriage return, vertical tab and form feed. */
  predicate IsSpace(c: char) {
    c == ' ' || c == '\t' || c == '\n' || c == '\r' || c == '\U{000B}' || c == '\U{000C}'
  }

  /** Python 2 `str.lower()` on a byte string: only ASCII letters change. */
  function LowerChar(c: char): char {
    if 'A' <= c <= 'Z' then (c as int + 32) as char else c
  }

  function Lower(s: string): string {
    seq(|s|, i requires 0 <= i < |s| => LowerChar(s[i]))
  }

  predicate StartsWith(s: string, prefix: string) {
    |prefix| <= |s| && s[..|prefix|] == prefix
  }

  predicate EndsWith(s: string, suffix: string) {
    |suffix| <= |s| && s[|s| - |suffix|..] == suffix
  }

  // ---------------------------------------------------------------------------
  // str.count with a one-character argument

  function Count(s: string, c: char): nat {
    if s == [] then 0 else Count(s[..|s| - 1], c) + (if s[|s| - 1] == c then 1 else 0)
  }

  lemma {:induction false} CountAtLeastOne(s: string, c: char)
    ensures Count(s, c) >= 1 <==> exists i :: 0 <= i < |s| && s[i] == c
  {
    if s != [] {
      var s' := s[..|s| - 1];
      CountAtLeastOne(s', c);
      if Count(s', c) >= 1 {
        var i :| 0 <= i < |s'| && s'[i] == c;
        assert s[i] == c;
      }
      if s[|s| - 1] != c && exists i :: 0 <= i < |s| && s[i] == c {
        var i :| 0 <= i < |s| && s[i] == c;
        assert s'[i] == c;
      }
    }
  }

  /** At least two occurrences of `c` means two distinct positions hold `c`. */
  lemma {:induction false} CountAtLeastTwo(s: string, c: char)
    ensures Count(s, c) >= 2 <==> exists i, j :: 0 <= i < j < |s| && s[i] == c && s[j] == c
  {
    if s != [] {
      var s' := s[..|s| - 1];
      CountAtLeastTwo(s', c);
      CountAtLeastOne(s', c);
      if exists i, j :: 0 <= i < j < |s| && s[i] == c && s[j] == c {
        var i, j :| 0 <= i < j < |s| && s[i] == c && s[j] == c;
        assert s'[i] == c;
        if j < |s| - 1 {
          assert s'[j] == c;
        }
      }
      if Count(s, c) >= 2 {
        if s[|s| - 1] == c {
          var i :| 0 <= i < |s'| && s'[i] == c;
          assert s[i] == c && s[|s| - 1] == c;
        } else {
          var i, j :| 0 <= i < j < |s'| && s'[i] == c && s'[j] == c;
          assert s[i] == c && s[j] == c;
        }
      }
    }
  }

  // ---------------------------------------------------------------------------
  // str.strip()

  /** The end of the run of whitespace that starts at `i`. */
  function SpaceRunEnd(s: string, i: nat): (n: nat)
    requires i <= |s|
    ensures i <= n <= |s|
    ensures forall k :: i <= k < n ==> IsSpace(s[k])
    ensures n == |s| || !IsSpace(s[n])
    decreases |s| - i
  {
    if i < |s| && IsSpace(s[i]) then SpaceRunEnd(s, i + 1) else i
  }

  /** The start of the run of whitespace that ends at `j`, going no lower
      than `lo`. */
  function SpaceRunStart(s: string, lo: nat, j: nat): (n: nat)
    requires lo <= j <= |s|
    ensures lo <= n <= j
    ensures forall k :: n <= k < j ==> IsSpace(s[k])
    ensures n == lo || !IsSpace(s[n - 1])
  {
    if lo < j && IsSpace(s[j - 1]) then SpaceRunStart(s, lo, j - 1) else j
  }

  /** `s.strip()`: the part of `s` between its leading and trailing whitespace;
      empty exactly when `s` is all whitespace. */
  function Strip(s: string): (r: string)
    ensures |r| <= |s|
    ensures r == [] <==> forall k :: 0 <= k < |s| ==> IsSpace(s[k])
    ensures r != [] ==> !IsSpace(r[0]) && !IsSpace(r[|r| - 1])
  {
    var first := SpaceRunEnd(s, 0);
    s[first..SpaceRunStart(s, first, |s|)]
  }

  /** `s.strip()` removes whitespace at the two ends and nothing else: the
      result is a contiguous part of `s` with only whitespace around it. */
  lemma {:induction false} StripIsInfix(s: string)
    ensures exists a, b ::
              && 0 <= a <= b <= |s| && Strip(s) == s[a..b]
              && (forall k :: 0 <= k < a ==> IsSpace(s[k]))
              && (forall k :: b <= k < |s| ==> IsSpace(s[k]))
  {
    var a := SpaceRunEnd(s, 0);
    var b := SpaceRunStart(s, a, |s|);
    assert Strip(s) == s[a..b];
  }

  // ---------------------------------------------------------------------------
  // str.find(sub, start)

  predicate OccursAt(s: string, pattern: string, i: int) {
    0 <= i && i + |pattern| <= |s| && s[i..i + |pattern|] == pattern
  }

  lemma {:induction false} OccursAtChar(s: string, c: char, i: int)
    ensures OccursAt(s, [c], i) <==> 0 <= i < |s| && s[i] == c
  {
    if 0 <= i < |s| {
      assert s[i..i + 1] == [s[i]];
    }
  }

  /** `s.find(pattern, start)` for a non-negative `start`: the first position
      at or after `start` where `pattern` occurs, or -1 if there is none. */
  function Find(s: string, pattern: string, start: nat): (r: int)
    ensures r == -1 || (start <= r && OccursAt(s, pattern, r))
    ensures forall i :: start <= i < (if r == -1 then |s| + 1 else r) ==> !OccursAt(s, pattern, i)
    decreases |s| - start
  {
    if start + |pattern| > |s| then -1
    else if s[start..start + |pattern|] == pattern then start
    else Find(s, pattern, start + 1)
  }

  lemma {:induction false} OccursAtShift(s: string, pattern: string, start: nat, i: nat)
    requires start <= |s|
    ensures OccursAt(s[start..], pattern, i) <==> OccursAt(s, pattern, start + i)
  {
    if 0 <= i && i + |pattern| <= |s| - start {
      assert s[start..][i..i + |pattern|] == s[start + i..start + i + |pattern|];
    }
  }

  /** Searching from `start` is searching the suffix that begins there. */
  lemma {:induction false} FindInSuffix(s: string, pattern: string, start: nat)
    requires start <= |s|
    ensures var j := Find(s[start..], pattern, 0);
            Find(s, pattern, start) == if j == -1 then -1 else start + j
  {
    var j := Find(s[start..], pattern, 0);
    var r := Find(s, pattern, start);
    if j != -1 {
      OccursAtShift(s, pattern, start, j);
    }
    if r != -1 {
      OccursAtShift(s, pattern, start, r - start);
    }
  }

  // ---------------------------------------------------------------------------
  // str.split(c)

  /** `s.split(c)`: the pieces between occurrences of `c`, including empty
      ones; an empty `s` gives one empty piece. */
  function SplitOn(s: string, c: char): (r: seq<string>)
    ensures |r| == Count(s, c) + 1
    ensures forall i :: 0 <= i < |r| ==> c !in r[i]
  {
    if s == [] then [[]]
    else
      var init := SplitOn(s[..|s| - 1], c);
      var last := s[|s| - 1];
      if last == c then init + [[]]
      else init[..|init| - 1] + [init[|init| - 1] + [last]]
  }

  /** The pieces joined with `sep` in order, as `sep.join(pieces)`. */
  function Join(pieces: seq<string>, sep: string): string
    requires pieces != []
  {
    if |pieces| == 1 then pieces[0]
    else Join(pieces[..|pieces| - 1], sep) + sep + pieces[|pieces| - 1]
  }

  /** `s` with every `c` replaced by `d`. */
  function ReplaceChar(s: string, c: char, d: char): (r: string)
    ensures |r| == |s|
  {
    seq(|s|, i requires 0 <= i < |s| => if s[i] == c then d else s[i])
  }

  /** Splitting at `c` and joining with `d` replaces each `c` by `d`. */
  lemma {:induction false} SplitJoinWith(s: string, c: char, d: char)
    ensures Join(SplitOn(s, c), [d]) == ReplaceChar(s, c, d)
  {
    if s != [] {
      var s', last := s[..|s| - 1], s[|s| - 1];
      var init := SplitOn(s', c);
      SplitJoinWith(s', c, d);
      ReplaceCharInit(s, c, d);
      if last == c {
        JoinEmptyLast(init, [d]);
      } else {
        var front := init[..|init| - 1];
        if front == [] {
          assert init == [init[0]];
          assert front + [init[0] + [last]] == [init[0] + [last]];
        } else {
          assert front + [init[|init| - 1]] == init;
          JoinExtend(front, init[|init| - 1], last, [d]);
        }
      }
    }
  }

  lemma ReplaceCharInit(s: string, c: char, d: char)
    requires s != []
    ensures ReplaceChar(s, c, d) == ReplaceChar(s[..|s| - 1], c, d) + [if s[|s| - 1] == c then d else s[|s| - 1]]
  {
  }

  lemma JoinEmptyLast(pieces: seq<string>, sep: string)
    requires pieces != []
    ensures Join(pieces + [[]], sep) == Join(pieces, sep) + sep
  {
    assert (pieces + [[]])[..|pieces|] == pieces;
  }

  /** Adding a character to the last piece adds it to the end of the join. */
  lemma JoinExtend(front: seq<string>, x: string, ch: char, sep: string)
    requires front != []
    ensures Join(front + [x + [ch]], sep) == Join(front + [x], sep) + [ch]
  {
    assert (front + [x + [ch]])[..|front|] == front;
    assert (front + [x])[..|front|] == front;
  }

  /** Splitting and joining again gives back the original text. */
  lemma {:induction false} SplitJoin(s: string, c: char)
    ensures Join(SplitOn(s, c), [c]) == s
  {
    SplitJoinWith(s, c, c);
    assert ReplaceChar(s, c, c) == s;
  }

  /** Joining two non-empty lists is joining their joins. */
  lemma {:induction false} JoinAppend(xs: seq<string>, ys: seq<string>, sep: string)
    requires xs != [] && ys != []
    ensures Join(xs + ys, sep) == Join(xs, sep) + sep + Join(ys, sep)
  {
    if |ys| > 1 {
      var ys' := ys[..|ys| - 1];
      JoinAppend(xs, ys', sep);
      assert (xs + ys)[..|xs + ys| - 1] == xs + ys';
    } else {
      assert (xs + ys)[..|xs + ys| - 1] == xs;
    }
  }

  // ---------------------------------------------------------------------------
  // os.path.basename (POSIX)

  /** `os.path.basename(p)`: the text after the last '/'. */
  function BaseName(p: string): string {
    if p == [] || p[|p| - 1] == '/' then [] else BaseName(p[..|p| - 1]) + [p[|p| - 1]]
  }

  /** The base name holds no '/', ends the path, and is the whole path or
      follows a '/'. */
  lemma {:induction false} BaseNameIsLastComponent(p: string)
    ensures var r := BaseName(p);
            && '/' !in r && EndsWith(p, r)
            && (|r| < |p| ==> p[|p| - |r| - 1] == '/')
  {
    if p != [] && p[|p| - 1] != '/' {
      var p' := p[..|p| - 1];
      BaseNameIsLastComponent(p');
      var r', c := BaseName(p'), p[|p| - 1];
      var k := |p'| - |r'|;
      assert BaseName(p) == r' + [c];
      SuffixOfInit(p, k);
      assert '/' !in r' + [c];
      assert k > 0 ==> p[k - 1] == p'[k - 1];
    }
  }

  /** Lower-casing before or after taking the base name gives the same name,
      so the two spellings the classifiers use agree. */
  lemma {:induction false} BaseNameOfLower(p: string)
    ensures BaseName(Lower(p)) == Lower(BaseName(p))
  {
    if p != [] {
      var p', c := p[..|p| - 1], p[|p| - 1];
      var lp := Lower(p);
      assert lp[..|lp| - 1] == Lower(p');
      assert lp[|lp| - 1] == LowerChar(c);
      if c != '/' {
        BaseNameOfLower(p');
        var b := BaseName(p');
        assert BaseName(p) == b + [c];
        assert BaseName(lp) == Lower(b) + [LowerChar(c)];
        assert Lower(b + [c]) == Lower(b) + [LowerChar(c)];
      }
    }
  }

  lemma {:induction false} BaseNameOfPlainName(p: string)
    requires '/' !in p
    ensures BaseName(p) == p
  {
    if p != [] {
      BaseNameOfPlainName(p[..|p| - 1]);
      assert p[..|p| - 1] + [p[|p| - 1]] == p;
    }
  }

  // ---------------------------------------------------------------------------
  // Facts about slices and concatenation, stated once so that proofs can
  // call them instead of searching for them

  lemma PrefixOfSuffix(s: string, i: nat, b: nat)
    requires i + b <= |s|
    ensures s[i..][..b] == s[i..i + b]
  {
  }

  lemma SuffixOfSuffix(s: string, i: nat, a: nat)
    requires i + a <= |s|
    ensures s[i..][a..] == s[i + a..]
  {
  }

  lemma SplitSuffix(s: string, i: nat, j: nat)
    requires i <= j <= |s|
    ensures s[i..] == s[i..j] + s[j..]
  {
  }

  lemma SplitPrefix(s: string, i: nat, j: nat)
    requires i <= j <= |s|
    ensures s[..j] == s[..i] + s[i..j]
  {
  }

  lemma SplitWhole(s: string, i: nat)
    requires i <= |s|
    ensures s[..i] + s[i..] == s && s[i..|s|] == s[i..] && s[|s|..] == []
  {
  }

  lemma ConsSlice(s: string, i: nat, j: nat)
    requires i < j <= |s|
    ensures [s[i]] + s[i + 1..j] == s[i..j]
  {
  }

  lemma HalvesOfAppend(a: string, b: string, k: nat)
    requires k == |a|
    ensures (a + b)[..k] == a && (a + b)[k..] == b
  {
  }

  lemma SuffixOfInit(s: string, k: nat)
    requires k < |s|
    ensures s[k..] == s[..|s| - 1][k..] + [s[|s| - 1]]
  {
  }

  lemma Associative(a: string, b: string, c: string)
    ensures a + (b + c) == a + b + c
  {
  }

  lemma SingleEntry(s: seq<string>)
    requires |s| == 1
    ensures forall x :: x in s <==> x == s[0]
  {
    assert s == [s[0]];
  }

  lemma Regroup(a: string, b: string, c: string, d: string)
    ensures a + (b + c + d) == a + b + c + d
  {
  }
}

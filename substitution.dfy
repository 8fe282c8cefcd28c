/** Filling a template: every key of the merged mapping is substituted,
    first in its `%%key%%` form and then in its `%key%` form. The template's
    text is given and returned as a value; reading and writing the file, and
    the report of each replacement with its line number, are not modelled. */
module Substitution {
  import opened Strings
  import opened Results
  import opened ValueFiles

  /** `s` with every occurrence of `pattern`, scanned left to right without
      overlap, replaced by `value`: the text is read once, and whatever was
      put in is never read again. */
  function ReplaceAll(s: string, pattern: string, value: string): string
    requires pattern != []
    decreases |s|
  {
    if |s| < |pattern| then s
    else if s[..|pattern|] == pattern then value + ReplaceAll(s[|pattern|..], pattern, value)
    else [s[0]] + ReplaceAll(s[1..], pattern, value)
  }

  /** The `while True` loop of `populateTemplate` for one template variable:
      `str.find` locates the next occurrence at or after the cursor, and
      each replacement moves the cursor just past the value it put in. */
  method SubstituteAll(content: string, pattern: string, value: string) returns (result: string)
    requires pattern != []
    ensures result == ReplaceAll(content, pattern, value)
  {
    result := content;
    var searchStart := 0;
    ResumeStart(content, pattern, value);
    while true
      invariant 0 <= searchStart <= |result|
      invariant ReplaceAll(content, pattern, value) == Resume(result, pattern, value, searchStart)
      decreases |result| - searchStart
    {
      var foundIndex := Find(result, pattern, searchStart);
      if foundIndex < 0 {
        ResumeDone(result, pattern, value, searchStart);
        break;
      }
      ResumeStep(result, pattern, value, searchStart, foundIndex);
      var beforeChunk := result[..foundIndex];
      var afterChunk := result[foundIndex + |pattern|..];
      result := beforeChunk + value + afterChunk;
      searchStart := foundIndex + |value|;
    }
  }

  /** What the whole substitution gives once the text before `i` is final
      and the scan resumes at `i`. */
  ghost function Resume(s: string, pattern: string, value: string, i: nat): string
    requires pattern != [] && i <= |s|
  {
    s[..i] + ReplaceAll(s[i..], pattern, value)
  }

  lemma {:induction false} ResumeStart(s: string, pattern: string, value: string)
    requires pattern != []
    ensures Resume(s, pattern, value, 0) == ReplaceAll(s, pattern, value)
  {
    assert s[..0] == [] && s[0..] == s;
  }

  /** With no occurrence at or after the cursor, the text is final. */
  lemma {:induction false} ResumeDone(s: string, pattern: string, value: string, i: nat)
    requires pattern != [] && i <= |s| && Find(s, pattern, i) < 0
    ensures Resume(s, pattern, value, i) == s
  {
    ReplaceSkip(s, pattern, value, i, |s|);
    SplitWhole(s, i);
    assert ReplaceAll([], pattern, value) == [];
  }

  /** Splicing the value in at the occurrence `str.find` reports, and moving
      the cursor past the value, leaves the final text unchanged. */
  lemma {:induction false} ResumeStep(s: string, pattern: string, value: string, i: nat, f: int)
    requires pattern != [] && i <= |s| && f == Find(s, pattern, i) && f >= 0
    ensures i <= f && f + |pattern| <= |s|
    ensures Resume(s, pattern, value, i)
            == Resume(s[..f] + value + s[f + |pattern|..], pattern, value, f + |value|)
  {
    FirstReplacement(s, pattern, value, i, f);
    SpliceResume(s, pattern, value, i, f);
  }

  /** The occurrence `str.find` reports from `i` is the first one the scan
      of the text from `i` replaces. */
  lemma {:induction false} FirstReplacement(s: string, pattern: string, value: string, i: nat, f: int)
    requires pattern != [] && i <= |s| && f == Find(s, pattern, i) && f >= 0
    ensures i <= f && f + |pattern| <= |s|
    ensures ReplaceAll(s[i..], pattern, value)
            == s[i..f] + value + ReplaceAll(s[f + |pattern|..], pattern, value)
  {
    var m := |pattern|;
    ReplaceSkip(s, pattern, value, i, f);
    PrefixOfSuffix(s, f, m);
    SuffixOfSuffix(s, f, m);
    assert s[f..][..m] == pattern;
    Associative(s[i..f], value, ReplaceAll(s[f + m..], pattern, value));
  }

  /** Splicing the value in for the first replaced occurrence and resuming
      after the value gives the same final text. */
  lemma {:induction false} SpliceResume(s: string, pattern: string, value: string, i: nat, f: nat)
    requires pattern != [] && i <= f && f + |pattern| <= |s|
    requires ReplaceAll(s[i..], pattern, value)
             == s[i..f] + value + ReplaceAll(s[f + |pattern|..], pattern, value)
    ensures Resume(s, pattern, value, i)
            == Resume(s[..f] + value + s[f + |pattern|..], pattern, value, f + |value|)
  {
    var after := s[f + |pattern|..];
    var rest := ReplaceAll(after, pattern, value);
    HalvesOfAppend(s[..f] + value, after, f + |value|);
    SplitPrefix(s, i, f);
    Regroup(s[..i], s[i..f], value, rest);
  }

  /** The scan copies every position from `i` up to `f` at which no
      occurrence starts. */
  lemma {:induction false} ReplaceSkip(s: string, pattern: string, value: string, i: nat, f: nat)
    requires pattern != [] && i <= f <= |s|
    requires forall k :: i <= k < f ==> !OccursAt(s, pattern, k)
    ensures ReplaceAll(s[i..], pattern, value) == s[i..f] + ReplaceAll(s[f..], pattern, value)
    decreases f - i
  {
    if i == f {
      assert s[i..f] == [];
    } else if |s| - i < |pattern| {
      SplitSuffix(s, i, f);
    } else {
      PrefixOfSuffix(s, i, |pattern|);
      SuffixOfSuffix(s, i, 1);
      assert !OccursAt(s, pattern, i);
      ReplaceSkip(s, pattern, value, i + 1, f);
      ConsSlice(s, i, f);
      Associative([s[i]], s[i + 1..f], ReplaceAll(s[f..], pattern, value));
    }
  }

  /** Replacing a pattern by itself changes nothing, which could not hold
      if inserted text were scanned again. */
  lemma {:induction false} ReplaceAllIdentity(s: string, pattern: string)
    requires pattern != []
    ensures ReplaceAll(s, pattern, pattern) == s
    decreases |s|
  {
    if |s| >= |pattern| {
      if s[..|pattern|] == pattern {
        ReplaceAllIdentity(s[|pattern|..], pattern);
        assert s[..|pattern|] + s[|pattern|..] == s;
      } else {
        ReplaceAllIdentity(s[1..], pattern);
        assert [s[0]] + s[1..] == s;
      }
    }
  }

  /** Text without the pattern is left as it is. */
  lemma {:induction false} ReplaceAllAbsent(s: string, pattern: string, value: string)
    requires pattern != [] && forall i :: 0 <= i ==> !OccursAt(s, pattern, i)
    ensures ReplaceAll(s, pattern, value) == s
  {
    ReplaceSkip(s, pattern, value, 0, |s|);
    SplitWhole(s, 0);
    assert ReplaceAll([], pattern, value) == [];
  }

  /** A text that is exactly the pattern becomes exactly the value, whatever
      the value contains. */
  lemma {:induction false} ReplaceWhole(pattern: string, value: string)
    requires pattern != []
    ensures ReplaceAll(pattern, pattern, value) == value
  {
    assert pattern[..|pattern|] == pattern;
    assert pattern[|pattern|..] == [];
  }

  // ---------------------------------------------------------------------------
  // Template variables

  /** `"%%%%%s%%%%" % key` */
  function DoubleForm(key: string): string {
    "%%" + key + "%%"
  }

  /** `"%%%s%%" % key` */
  function SingleForm(key: string): string {
    "%" + key + "%"
  }

  /** Both forms of one key replaced, the double form first. */
  function SubstituteKey(content: string, key: string, value: string): string {
    ReplaceAll(ReplaceAll(content, DoubleForm(key), value), SingleForm(key), value)
  }

  /** The template after the keys `keys`, in order, have been substituted. */
  function Populated(content: string, keys: seq<string>, entries: map<string, string>): string
    requires forall k :: k in keys ==> k in entries
  {
    if keys == [] then content
    else
      var key := keys[|keys| - 1];
      SubstituteKey(Populated(content, keys[..|keys| - 1], entries), key, entries[key])
  }

  /** The order of the keys matters even when their placeholders do not
      overlap: a later key's pass rescans what an earlier key put in. */
  lemma {:induction false} PopulatedOrderMatters()
    ensures var entries := map["A" := "%B%", "B" := "x"];
      Populated("%A%", ["A", "B"], entries) == "x" &&
      Populated("%A%", ["B", "A"], entries) == "%B%"
  {
    var entries := map["A" := "%B%", "B" := "x"];
    assert ["A", "B"][..1] == ["A"] && ["B", "A"][..1] == ["B"];
    assert ["A"][..0] == [] && ["B"][..0] == [];
    // "A" first: "%A%" becomes "%B%", which the pass for "B" then fills.
    PercentsOnly("%A%", "A");
    ReplaceAllAbsent("%A%", DoubleForm("A"), "%B%");
    ReplaceWhole(SingleForm("A"), "%B%");
    PercentsOnly("%B%", "B");
    ReplaceAllAbsent("%B%", DoubleForm("B"), "x");
    ReplaceWhole(SingleForm("B"), "x");
    // "B" first: its pass finds nothing, then "A" puts in "%B%" for good.
    NotTheForm("%A%", "B");
    ReplaceAllAbsent("%A%", DoubleForm("B"), "x");
    ReplaceAllAbsent("%A%", SingleForm("B"), "x");
  }

  /** A bare single form holds no double form of its key. */
  lemma {:induction false} PercentsOnly(s: string, key: string)
    requires s == SingleForm(key)
    ensures forall i :: 0 <= i ==> !OccursAt(s, DoubleForm(key), i)
  {
    forall i | 0 <= i
      ensures !OccursAt(s, DoubleForm(key), i)
    {
      FormPercents(s, key, i);
    }
  }

  /** `%A%` holds neither form of `B`. */
  lemma {:induction false} NotTheForm(s: string, key: string)
    requires s == "%A%" && key == "B"
    ensures forall i :: 0 <= i ==> !OccursAt(s, DoubleForm(key), i)
    ensures forall i :: 0 <= i ==> !OccursAt(s, SingleForm(key), i)
  {
    forall i | 0 <= i
      ensures !OccursAt(s, DoubleForm(key), i) && !OccursAt(s, SingleForm(key), i)
    {
      FormPercents(s, key, i);
      if i == 0 {
        assert s[0..3][1] == 'A' && SingleForm(key)[1] == 'B';
      }
    }
  }

  /** The double form is replaced as a whole: `%%key%%` becomes the value and
      not the value wrapped in single percent signs. */
  lemma {:induction false} DoubleFormFirst(key: string, value: string)
    requires forall i :: 0 <= i ==> !OccursAt(value, SingleForm(key), i)
    ensures SubstituteKey(DoubleForm(key), key, value) == value
  {
    ReplaceWhole(DoubleForm(key), value);
    ReplaceAllAbsent(value, SingleForm(key), value);
  }

  /** The single-form pass rescans the value the double-form pass put in:
      `%%K%%` with the value `a%K%` becomes `aa%K%`. */
  lemma {:induction false} DoubleFormRescanned()
    ensures SubstituteKey(DoubleForm("K"), "K", "a%K%") == "aa%K%"
  {
    var v := "a%K%";
    ReplaceWhole(DoubleForm("K"), v);
    assert v[..3][0] != SingleForm("K")[0];
    assert v[1..] == SingleForm("K");
    ReplaceWhole(SingleForm("K"), v);
    assert ReplaceAll(v, SingleForm("K"), v) == [v[0]] + ReplaceAll(v[1..], SingleForm("K"), v);
  }

  /** Substituting a key twice can change the text again, even when the
      value holds no placeholder: the first pass can bring two '%' together. */
  lemma {:induction false} SubstituteKeyNotIdempotent()
    ensures SubstituteKey("%%K%K%", "K", "") == "%K%"
    ensures SubstituteKey("%K%", "K", "") == ""
  {
    var s, d, p := "%%K%K%", DoubleForm("K"), SingleForm("K");
    assert s[..5][4] != d[4] && s[1..][..5][1] != d[1];
    assert ReplaceAll(s[2..], d, "") == s[2..];
    assert ReplaceAll(s[1..], d, "") == [s[1]] + ReplaceAll(s[2..], d, "");
    assert ReplaceAll(s, d, "") == s;
    assert s[..3][1] != p[1] && s[1..][..3] == p;
    assert ReplaceAll(s[4..], p, "") == s[4..];
    assert ReplaceAll(s[1..], p, "") == "" + ReplaceAll(s[4..], p, "");
    assert ReplaceAll(s, p, "") == "%K%";
    NotTheDoubleForm();
    ReplaceWhole(p, "");
  }

  /** `%K%` is too short to hold `%%K%%`. */
  lemma {:induction false} NotTheDoubleForm()
    ensures ReplaceAll("%K%", DoubleForm("K"), "") == "%K%"
  {
  }

  /** Had the single form gone first, `%%key%%` would keep a percent sign on
      each side of the value. */
  lemma {:induction false} SingleFormFirstDiffers(key: string, value: string)
    requires key != [] && key[0] != '%'
    ensures ReplaceAll(DoubleForm(key), SingleForm(key), value) == "%" + value + "%"
  {
    var d, p := DoubleForm(key), SingleForm(key);
    assert d == "%" + p + "%";
    assert d[..|p|] != p by {
      assert d[..|p|][1] == '%' && p[1] == key[0];
    }
    var t := d[1..];
    assert t == p + "%";
    assert t[..|p|] == p && t[|p|..] == "%";
    assert ReplaceAll("%", p, value) == "%";
    assert ReplaceAll(t, p, value) == value + "%";
    assert ReplaceAll(d, p, value) == [d[0]] + ReplaceAll(t, p, value);
  }

  /** Text with fewer than two '%' holds neither form of any key. */
  lemma {:induction false} NoFormWithoutTwoPercents(s: string, key: string)
    requires Count(s, '%') < 2
    ensures forall i :: 0 <= i ==> !OccursAt(s, SingleForm(key), i)
    ensures forall i :: 0 <= i ==> !OccursAt(s, DoubleForm(key), i)
  {
    CountAtLeastTwo(s, '%');
    forall i | 0 <= i
      ensures !OccursAt(s, SingleForm(key), i) && !OccursAt(s, DoubleForm(key), i)
    {
      FormPercents(s, key, i);
    }
  }

  /** Where the two forms of `key` put their outer '%'. */
  lemma {:induction false} FormPercents(s: string, key: string, i: nat)
    ensures OccursAt(s, SingleForm(key), i) ==> i + |key| + 1 < |s| && s[i] == '%' && s[i + |key| + 1] == '%'
    ensures OccursAt(s, DoubleForm(key), i) ==> i + |key| + 2 < |s| && s[i + 1] == '%' && s[i + |key| + 2] == '%'
  {
    var p, d := SingleForm(key), DoubleForm(key);
    assert p[0] == '%' && p[|p| - 1] == '%';
    assert d[1] == '%' && d[|d| - 2] == '%';
    if OccursAt(s, p, i) {
      assert s[i..i + |p|][0] == '%' && s[i..i + |p|][|p| - 1] == '%';
    }
    if OccursAt(s, d, i) {
      assert s[i..i + |d|][1] == '%' && s[i..i + |d|][|d| - 2] == '%';
    }
  }

  /** Text with fewer than two '%' holds no variable, so substitution
      leaves it unchanged. */
  lemma {:induction false} PopulatedWithoutVariables(content: string, keys: seq<string>, entries: map<string, string>)
    requires forall k :: k in keys ==> k in entries
    requires Count(content, '%') < 2
    ensures Populated(content, keys, entries) == content
  {
    if keys != [] {
      var key := keys[|keys| - 1];
      PopulatedWithoutVariables(content, keys[..|keys| - 1], entries);
      NoFormWithoutTwoPercents(content, key);
      ReplaceAllAbsent(content, DoubleForm(key), entries[key]);
      ReplaceAllAbsent(content, SingleForm(key), entries[key]);
    }
  }

  /** `populateTemplate`, given the template's text: the filled-in text,
      and what is written back to the file unless this is a dry run. */
  method PopulateTemplate(templateContents: string, valueMapping: ValueMapping, dryrun: bool)
    returns (contents: string, written: Option<string>)
    requires valueMapping.Valid()
    ensures contents == Populated(templateContents, valueMapping.order, valueMapping.entries)
    ensures written == if dryrun then None else Some(contents)
  {
    contents := templateContents;
    var keys := valueMapping.order;
    for t := 0 to |keys|
      invariant contents == Populated(templateContents, keys[..t], valueMapping.entries)
    {
      assert keys[..t + 1][..t] == keys[..t];
      var key := keys[t];
      var value := valueMapping.entries[key];
      contents := SubstituteAll(contents, DoubleForm(key), value);
      contents := SubstituteAll(contents, SingleForm(key), value);
    }
    assert keys[..|keys|] == keys;
    written := if dryrun then None else Some(contents);
  }
}

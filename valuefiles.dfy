/** Value files and value mappings: `TemplateValueMapping`, `loadValueFile`
    and `mergeValueMappings`. A value file is given as the sequence of its
    lines (reading it is not modelled); a mapping is an object whose
    dictionary and title are updated in place. */
module ValueFiles {
  import opened Strings
  import opened Results

  predicate Distinct(s: seq<string>) {
    forall i, j :: 0 <= i < j < |s| ==> s[i] != s[j]
  }

  /** The value of a mapping at one moment: its dictionary, the order in
      which iterating it visits the keys, and its title. */
  datatype MappingValue = MappingValue(entries: map<string, string>, order: seq<string>, title: string)

  /** Every key is visited exactly once by iteration. */
  ghost predicate WellFormed(v: MappingValue) {
    Distinct(v.order) && forall k :: k in v.entries <==> k in v.order
  }

  /** `mapping[key] = value` on a value: a new key goes to the end of the
      iteration order, an existing key keeps its place. */
  function Put(v: MappingValue, key: string, value: string): MappingValue {
    if key in v.entries then MappingValue(v.entries[key := value], v.order, v.title)
    else MappingValue(v.entries[key := value], v.order + [key], v.title)
  }

  /** After `Put` the key maps to the new value; every other key is as it
      was, and so is the title. */
  lemma PutLookup(v: MappingValue, key: string, value: string, k: string)
    ensures var r := Put(v, key, value);
            && r.title == v.title
            && (k in r.entries <==> k == key || k in v.entries)
            && (k in r.entries ==> r.entries[k] == if k == key then value else v.entries[k])
  {
  }

  /** `Put` keeps every key visited exactly once. */
  lemma PutWellFormed(v: MappingValue, key: string, value: string)
    requires WellFormed(v)
    ensures WellFormed(Put(v, key, value))
  {
    if key !in v.entries {
      var o := v.order + [key];
      forall i, j | 0 <= i < j < |o| ensures o[i] != o[j] {
        if j == |o| - 1 {
          assert o[i] in v.order;
        }
      }
    }
  }

  /** `TemplateValueMapping`: a dictionary with a display title. Its
      `__getitem__`, `__contains__` and `__iter__` are reads of `entries`
      and `order`. */
  class ValueMapping {
    var entries: map<string, string>
    var order: seq<string>
    var title: string

    function Value(): MappingValue
      reads this
    {
      MappingValue(entries, order, title)
    }

    ghost predicate Valid()
      reads this
    {
      WellFormed(Value())
    }

    constructor ()
      ensures Valid()
      ensures entries == map[] && order == [] && title == "Untitled Mapping"
    {
      entries := map[];
      order := [];
      title := "Untitled Mapping";
    }

    /** `__setitem__` */
    method Set(key: string, value: string)
      requires Valid()
      modifies this
      ensures Valid()
      ensures Value() == Put(old(Value()), key, value)
    {
      PutWellFormed(Value(), key, value);
      if key !in entries {
        order := order + [key];
      }
      entries := entries[key := value];
    }
  }

  // ---------------------------------------------------------------------------
  // loadValueFile

  /** The key and value of one stripped, non-blank line: split at the first
      '='. A line without '=' is not rejected: the search yields -1, so the
      key is the line without its last character and the value the whole line. */
  function SplitLine(line: string): (kv: (string, string))
    requires line != []
    ensures '=' in line ==> kv.0 + "=" + kv.1 == line && '=' !in kv.0
    ensures '=' !in line ==> kv.1 == line && kv.0 + [line[|line| - 1]] == line
  {
    var i := Find(line, "=", 0);
    if i < 0 then
      assert forall k :: 0 <= k < |line| ==> line[k] != '=' by {
        forall k | 0 <= k < |line| ensures line[k] != '=' {
          assert !OccursAt(line, "=", k);
        }
      }
      (line[..|line| - 1], line)
    else
      assert forall k :: 0 <= k < i ==> line[k] != '=' by {
        forall k | 0 <= k < i ensures line[k] != '=' {
          assert !OccursAt(line, "=", k);
        }
      }
      assert line[..i] + "=" + line[i + 1..] == line;
      (line[..i], line[i + 1..])
  }

  /** The mapping `loadValueFile` builds from the lines of a file titled
      `title`: each stripped, non-blank line assigns its key. */
  function Parse(title: string, lines: seq<string>): MappingValue {
    if lines == [] then MappingValue(map[], [], title)
    else
      var acc := Parse(title, lines[..|lines| - 1]);
      var line := Strip(lines[|lines| - 1]);
      if line == [] then acc
      else Put(acc, SplitLine(line).0, SplitLine(line).1)
  }

  /** `line` is not blank and assigns `key`. */
  predicate Assigns(line: string, key: string) {
    Strip(line) != [] && SplitLine(Strip(line)).0 == key
  }

  lemma {:induction false} ParseWellFormed(title: string, lines: seq<string>)
    ensures Parse(title, lines).title == title && WellFormed(Parse(title, lines))
  {
    if lines != [] {
      var acc := Parse(title, lines[..|lines| - 1]);
      var line := Strip(lines[|lines| - 1]);
      ParseWellFormed(title, lines[..|lines| - 1]);
      if line != [] {
        PutWellFormed(acc, SplitLine(line).0, SplitLine(line).1);
      }
    }
  }

  /** A key is present exactly when some non-blank line assigns it; blank
      lines add nothing. */
  lemma {:induction false} ParseHasKey(title: string, lines: seq<string>, key: string)
    ensures key in Parse(title, lines).entries <==> exists i :: 0 <= i < |lines| && Assigns(lines[i], key)
  {
    if lines != [] {
      var prefix := lines[..|lines| - 1];
      var line := Strip(lines[|lines| - 1]);
      ParseHasKey(title, prefix, key);
      if line != [] {
        PutLookup(Parse(title, prefix), SplitLine(line).0, SplitLine(line).1, key);
      }
      if exists i :: 0 <= i < |lines| && Assigns(lines[i], key) {
        var i :| 0 <= i < |lines| && Assigns(lines[i], key);
        if i < |lines| - 1 {
          assert Assigns(prefix[i], key);
        }
      }
      if exists i :: 0 <= i < |prefix| && Assigns(prefix[i], key) {
        var i :| 0 <= i < |prefix| && Assigns(prefix[i], key);
        assert Assigns(lines[i], key);
      }
    }
  }

  /** A key's value comes from the last line that assigns it. */
  lemma {:induction false} ParseLastWins(title: string, lines: seq<string>, key: string, i: nat)
    requires i < |lines| && Assigns(lines[i], key)
    requires forall j :: i < j < |lines| ==> !Assigns(lines[j], key)
    ensures key in Parse(title, lines).entries
    ensures Parse(title, lines).entries[key] == SplitLine(Strip(lines[i])).1
  {
    var prefix := lines[..|lines| - 1];
    if i < |lines| - 1 {
      assert !Assigns(lines[|lines| - 1], key);
      assert prefix[i] == lines[i];
      forall j | i < j < |prefix| ensures !Assigns(prefix[j], key) {
        assert prefix[j] == lines[j];
      }
      ParseLastWins(title, prefix, key, i);
      var line := Strip(lines[|lines| - 1]);
      if line != [] {
        PutLookup(Parse(title, prefix), SplitLine(line).0, SplitLine(line).1, key);
      }
    }
  }

  /** `loadValueFile`, given the file's base name and its lines. */
  method LoadValueFile(baseName: string, lines: seq<string>) returns (result: ValueMapping)
    ensures fresh(result) && result.Valid()
    ensures result.Value() == Parse(baseName, lines)
  {
    result := new ValueMapping();
    result.title := baseName;
    for i := 0 to |lines|
      invariant result.Valid()
      invariant result.Value() == Parse(baseName, lines[..i])
    {
      assert lines[..i + 1][..i] == lines[..i];
      var valueLine := Strip(lines[i]);
      if |valueLine| == 0 {
        continue;
      }
      var kv := SplitLine(valueLine);
      result.Set(kv.0, kv.1);
    }
    assert lines[..|lines|] == lines;
  }

  /** Only the first '=' splits: `A=B=C` assigns `B=C` to `A`. */
  lemma {:induction false} SplitAtFirstEquals(line: string)
    requires line == "A=B=C"
    ensures SplitLine(line) == ("A", "B=C")
  {
    OccursAtChar(line, '=', 0);
    OccursAtChar(line, '=', 1);
    assert Find(line, "=", 0) == 1;
    assert line[..1] == "A" && line[2..] == "B=C";
  }

  /** A line without '=' assigns the whole line to the line minus its last
      character. */
  lemma {:induction false} SplitWithoutEquals(line: string)
    requires line == "abc"
    ensures SplitLine(line) == ("ab", "abc")
  {
    forall i ensures !OccursAt(line, "=", i) {
      OccursAtChar(line, '=', i);
    }
    assert Find(line, "=", 0) == -1;
    assert line[..|line| - 1] == "ab";
  }

  // ---------------------------------------------------------------------------
  // mergeValueMappings

  /** The diagnostic recorded when a later mapping repeats a key with the
      value already chosen; it names the title of the mapping just before
      the repeating one. */
  datatype Redundancy = Redundancy(key: string, value: string, previousTitle: string)

  ghost predicate AllWellFormed(vs: seq<MappingValue>) {
    forall i :: 0 <= i < |vs| ==> WellFormed(vs[i])
  }

  /** The keys `keys` of `next`, taken in turn, are added to `acc` when
      `acc` lacks them. */
  function Absorb(acc: MappingValue, next: map<string, string>, keys: seq<string>): MappingValue
    requires forall k :: k in keys ==> k in next
  {
    if keys == [] then acc
    else
      var a := Absorb(acc, next, keys[..|keys| - 1]);
      var k := keys[|keys| - 1];
      if k in a.entries then a else Put(a, k, next[k])
  }

  /** The diagnostics that absorbing `keys` of `next` into `acc` records. */
  function AbsorbRedundancies(acc: MappingValue, next: map<string, string>, keys: seq<string>,
                              previousTitle: string): seq<Redundancy>
    requires forall k :: k in keys ==> k in next
  {
    if keys == [] then []
    else
      var a := Absorb(acc, next, keys[..|keys| - 1]);
      var k := keys[|keys| - 1];
      AbsorbRedundancies(acc, next, keys[..|keys| - 1], previousTitle) +
      (if k in a.entries && a.entries[k] == next[k] then [Redundancy(k, next[k], previousTitle)] else [])
  }

  /** The first `n` mappings, each later one merged in turn into the first. */
  function MergedUpTo(vs: seq<MappingValue>, n: nat): MappingValue
    requires 1 <= n <= |vs| && AllWellFormed(vs)
    decreases n
  {
    if n == 1 then vs[0]
    else
      var acc := MergedUpTo(vs, n - 1);
      var next := vs[n - 1];
      Absorb(acc.(title := acc.title + " -> " + next.title), next.entries, next.order)
  }

  /** The diagnostics of merging the first `n` mappings, in the order they
      are recorded. */
  function RedundanciesUpTo(vs: seq<MappingValue>, n: nat): seq<Redundancy>
    requires 1 <= n <= |vs| && AllWellFormed(vs)
    decreases n
  {
    if n == 1 then []
    else
      var acc := MergedUpTo(vs, n - 1);
      var next := vs[n - 1];
      RedundanciesUpTo(vs, n - 1) +
      AbsorbRedundancies(acc.(title := acc.title + " -> " + next.title), next.entries, next.order,
                         vs[n - 2].title)
  }

  /** The first mapping after all the others have been merged into it. */
  function Merged(vs: seq<MappingValue>): MappingValue
    requires vs != [] && AllWellFormed(vs)
  {
    MergedUpTo(vs, |vs|)
  }

  /** All diagnostics of a merge. */
  function Redundancies(vs: seq<MappingValue>): seq<Redundancy>
    requires vs != [] && AllWellFormed(vs)
  {
    RedundanciesUpTo(vs, |vs|)
  }

  function Titles(vs: seq<MappingValue>): (ts: seq<string>)
    ensures |ts| == |vs| && forall i :: 0 <= i < |vs| ==> ts[i] == vs[i].title
  {
    seq(|vs|, i requires 0 <= i < |vs| => vs[i].title)
  }

  lemma {:induction false} AbsorbLookup(acc: MappingValue, next: map<string, string>, keys: seq<string>, k: string)
    requires forall x :: x in keys ==> x in next
    ensures var r := Absorb(acc, next, keys);
            && r.title == acc.title
            && (WellFormed(acc) ==> WellFormed(r))
            && (k in r.entries <==> k in acc.entries || k in keys)
            && (k in r.entries ==> r.entries[k] == if k in acc.entries then acc.entries[k] else next[k])
  {
    if keys != [] {
      var init := keys[..|keys| - 1];
      var a, last := Absorb(acc, next, init), keys[|keys| - 1];
      AbsorbLookup(acc, next, init, k);
      assert keys == init + [last];
      if last !in a.entries {
        PutLookup(a, last, next[last], k);
        if WellFormed(acc) {
          PutWellFormed(a, last, next[last]);
        }
      }
    }
  }

  /** Within one absorbed mapping, a key is reported exactly when `acc`
      already held it with the same value. */
  lemma {:induction false} AbsorbRedundancyIff(acc: MappingValue, next: map<string, string>, keys: seq<string>,
                                               previousTitle: string, r: Redundancy)
    requires Distinct(keys) && forall x :: x in keys ==> x in next
    ensures r in AbsorbRedundancies(acc, next, keys, previousTitle) <==>
              && r.key in keys && r.key in acc.entries && acc.entries[r.key] == next[r.key]
              && r.value == next[r.key] && r.previousTitle == previousTitle
  {
    if keys != [] {
      var init := keys[..|keys| - 1];
      var k := keys[|keys| - 1];
      assert keys == init + [k];
      assert Distinct(init);
      assert k !in init;
      AbsorbRedundancyIff(acc, next, init, previousTitle, r);
      AbsorbLookup(acc, next, init, k);
    }
  }

  /** A merge of well-formed mappings is well formed. */
  lemma {:induction false} MergedWellFormed(vs: seq<MappingValue>, n: nat)
    requires 1 <= n <= |vs| && AllWellFormed(vs)
    ensures WellFormed(MergedUpTo(vs, n))
  {
    if n > 1 {
      MergedWellFormed(vs, n - 1);
      var acc := MergedUpTo(vs, n - 1);
      var next := vs[n - 1];
      AbsorbLookup(acc.(title := acc.title + " -> " + next.title), next.entries, next.order, []);
    }
  }

  /** The merged title joins the titles with " -> ", in order. */
  lemma {:induction false} MergedTitle(vs: seq<MappingValue>, n: nat)
    requires 1 <= n <= |vs| && AllWellFormed(vs)
    ensures MergedUpTo(vs, n).title == Join(Titles(vs)[..n], " -> ")
  {
    if n > 1 {
      MergedTitle(vs, n - 1);
      var acc := MergedUpTo(vs, n - 1);
      var next := vs[n - 1];
      AbsorbLookup(acc.(title := acc.title + " -> " + next.title), next.entries, next.order, []);
      assert Titles(vs)[..n][..n - 1] == Titles(vs)[..n - 1];
    }
  }

  /** What merging mapping `n - 1` does to one key: a key the merge so far
      lacks is taken from that mapping, one it holds keeps its value. */
  lemma LookupStep(vs: seq<MappingValue>, n: nat, k: string)
    requires 1 < n <= |vs| && AllWellFormed(vs)
    ensures var before, after := MergedUpTo(vs, n - 1), MergedUpTo(vs, n);
            && (k in after.entries <==> k in before.entries || k in vs[n - 1].entries)
            && (k in after.entries ==>
                  after.entries[k] == if k in before.entries then before.entries[k] else vs[n - 1].entries[k])
  {
    var acc := MergedUpTo(vs, n - 1);
    var next := vs[n - 1];
    assert WellFormed(next);
    AbsorbLookup(acc.(title := acc.title + " -> " + next.title), next.entries, next.order, k);
  }

  /** A merge holds exactly the keys of the mappings merged. */
  lemma {:induction false} MergedKeys(vs: seq<MappingValue>, n: nat, k: string)
    requires 1 <= n <= |vs| && AllWellFormed(vs)
    ensures k in MergedUpTo(vs, n).entries <==> exists j :: 0 <= j < n && k in vs[j].entries
  {
    if n > 1 {
      MergedKeys(vs, n - 1, k);
      LookupStep(vs, n, k);
    }
  }

  /** The first mapping that holds a key decides its merged value. */
  lemma {:induction false} MergedFirstWins(vs: seq<MappingValue>, n: nat, j: nat, k: string)
    requires 1 <= n <= |vs| && AllWellFormed(vs)
    requires j < n && k in vs[j].entries
    requires forall i :: 0 <= i < j ==> k !in vs[i].entries
    ensures k in MergedUpTo(vs, n).entries && MergedUpTo(vs, n).entries[k] == vs[j].entries[k]
  {
    if n > 1 {
      LookupStep(vs, n, k);
      if j < n - 1 {
        MergedFirstWins(vs, n - 1, j, k);
      } else {
        MergedKeys(vs, n - 1, k);
      }
    }
  }

  /** Mapping `j` (after the first) repeats a key with the value the merge
      of the mappings before it had chosen; `r` is the diagnostic that
      records this. */
  predicate RepeatsEarlier(vs: seq<MappingValue>, j: int, r: Redundancy)
    requires AllWellFormed(vs)
  {
    && 1 <= j < |vs|
    && r.key in vs[j].entries
    && r.key in MergedUpTo(vs, j).entries
    && MergedUpTo(vs, j).entries[r.key] == vs[j].entries[r.key]
    && r.value == vs[j].entries[r.key]
    && r.previousTitle == vs[j - 1].title
  }

  /** Merging mapping `n - 1` records exactly the repeats it holds. */
  lemma RecordedStep(vs: seq<MappingValue>, n: nat, r: Redundancy)
    requires 1 < n <= |vs| && AllWellFormed(vs)
    ensures r in RedundanciesUpTo(vs, n) <==> r in RedundanciesUpTo(vs, n - 1) || RepeatsEarlier(vs, n - 1, r)
  {
    var acc := MergedUpTo(vs, n - 1);
    assert WellFormed(vs[n - 1]);
    AbsorbRedundancyIff(acc.(title := acc.title + " -> " + vs[n - 1].title), vs[n - 1].entries, vs[n - 1].order,
                        vs[n - 2].title, r);
  }

  /** A diagnostic is recorded exactly when a later mapping repeats a key
      with the value already chosen; a differing value records nothing. */
  lemma {:induction false} RedundanciesIff(vs: seq<MappingValue>, n: nat, r: Redundancy)
    requires 1 <= n <= |vs| && AllWellFormed(vs)
    ensures r in RedundanciesUpTo(vs, n) <==> exists j :: j < n && RepeatsEarlier(vs, j, r)
  {
    if n > 1 {
      RedundanciesIff(vs, n - 1, r);
      RecordedStep(vs, n, r);
      if RepeatsEarlier(vs, n - 1, r) {
        assert exists j :: j < n && RepeatsEarlier(vs, j, r);
      }
    }
  }

  /** Two mappings with the same key and value: the key is reported once,
      naming the first mapping, and kept. */
  lemma {:induction false} MergeEqualPair(a: MappingValue, c: MappingValue, k: string, v: string, t1: string, t2: string)
    requires a == MappingValue(map[k := v], [k], t1) && c == MappingValue(map[k := v], [k], t2)
    ensures Merged([a, c]) == MappingValue(map[k := v], [k], t1 + " -> " + t2)
    ensures Redundancies([a, c]) == [Redundancy(k, v, t1)]
  {
    var a2 := a.(title := t1 + " -> " + t2);
    assert MergedUpTo([a, c], 1) == a && RedundanciesUpTo([a, c], 1) == [];
    assert [k][..0] == [];
    assert Absorb(a2, c.entries, [k]) == a2;
    assert AbsorbRedundancies(a2, c.entries, [k], t1) == [Redundancy(k, v, t1)];
  }

  /** Two mappings with the same key and different values: the first value
      is kept and nothing is reported. */
  lemma {:induction false} MergeDifferingPair(a: MappingValue, b: MappingValue, k: string, v: string, w: string, t1: string, t2: string)
    requires v != w
    requires a == MappingValue(map[k := v], [k], t1) && b == MappingValue(map[k := w], [k], t2)
    ensures Merged([a, b]) == MappingValue(map[k := v], [k], t1 + " -> " + t2)
    ensures Redundancies([a, b]) == []
  {
    var a2 := a.(title := t1 + " -> " + t2);
    assert MergedUpTo([a, b], 1) == a && RedundanciesUpTo([a, b], 1) == [];
    assert [k][..0] == [];
    assert Absorb(a2, b.entries, [k]) == a2;
    assert AbsorbRedundancies(a2, b.entries, [k], t1) == [];
  }

  /** The values the objects `ms` hold. */
  function Values(ms: seq<ValueMapping>): (vs: seq<MappingValue>)
    reads set m | m in ms
    ensures |vs| == |ms| && forall i :: 0 <= i < |ms| ==> vs[i] == ms[i].Value()
  {
    if ms == [] then [] else Values(ms[..|ms| - 1]) + [ms[|ms| - 1].Value()]
  }

  /** Merging one more mapping is absorbing it into the merge so far. */
  lemma MergedStep(vs: seq<MappingValue>, j: nat)
    requires 1 <= j < |vs| && AllWellFormed(vs)
    ensures var acc := MergedUpTo(vs, j);
            var start := acc.(title := acc.title + " -> " + vs[j].title);
            && MergedUpTo(vs, j + 1) == Absorb(start, vs[j].entries, vs[j].order)
            && RedundanciesUpTo(vs, j + 1) ==
               RedundanciesUpTo(vs, j) + AbsorbRedundancies(start, vs[j].entries, vs[j].order, vs[j - 1].title)
  {
  }

  /** Absorbing one more key. */
  lemma {:induction false} AbsorbStep(acc: MappingValue, next: map<string, string>, keys: seq<string>, t: nat, previousTitle: string)
    requires t < |keys| && forall k :: k in keys ==> k in next
    ensures var a := Absorb(acc, next, keys[..t]);
            var k := keys[t];
            && Absorb(acc, next, keys[..t + 1]) == (if k in a.entries then a else Put(a, k, next[k]))
            && AbsorbRedundancies(acc, next, keys[..t + 1], previousTitle) ==
               AbsorbRedundancies(acc, next, keys[..t], previousTitle) +
               (if k in a.entries && a.entries[k] == next[k] then [Redundancy(k, next[k], previousTitle)] else [])
  {
    assert keys[..t + 1][..t] == keys[..t];
  }

  /** One pass of the outer loop of `mergeValueMappings`: the title of
      `mapping` is appended to that of `result`, then each key of `mapping`
      that `result` lacks is copied, and each it holds with the same value
      is reported. */
  method AbsorbMapping(result: ValueMapping, mapping: ValueMapping, previousTitle: string)
    returns (found: seq<Redundancy>)
    requires result != mapping && result.Valid() && mapping.Valid()
    modifies result
    ensures result.Valid()
    ensures var start := old(result.Value()).(title := old(result.title) + " -> " + mapping.title);
            && result.Value() == Absorb(start, mapping.entries, mapping.order)
            && found == AbsorbRedundancies(start, mapping.entries, mapping.order, previousTitle)
  {
    result.title := result.title + " -> " + mapping.title;
    ghost var start := result.Value();
    found := [];
    var keys := mapping.order;
    for t := 0 to |keys|
      invariant result.Valid()
      invariant result.Value() == Absorb(start, mapping.entries, keys[..t])
      invariant found == AbsorbRedundancies(start, mapping.entries, keys[..t], previousTitle)
    {
      AbsorbStep(start, mapping.entries, keys, t, previousTitle);
      var key := keys[t];
      if key !in result.entries {
        result.Set(key, mapping.entries[key]);
      } else if result.entries[key] == mapping.entries[key] {
        found := found + [Redundancy(key, result.entries[key], previousTitle)];
      }
    }
    assert keys[..|keys|] == keys;
  }

  /** `mergeValueMappings`: an empty list gives a bare `{}` (here `None`);
      otherwise every later mapping is merged into the first one, which is
      updated in place and returned, with the diagnostics it recorded. */
  method MergeValueMappings(ms: seq<ValueMapping>) returns (merged: Option<ValueMapping>, redundancies: seq<Redundancy>)
    requires forall i :: 0 <= i < |ms| ==> ms[i].Valid()
    requires forall i :: 0 < i < |ms| ==> ms[i] != ms[0]
    modifies if ms == [] then {} else {ms[0]}
    ensures ms == [] ==> merged == None && redundancies == []
    ensures ms != [] ==> merged == Some(ms[0]) && ms[0].Valid()
    ensures ms != [] ==> AllWellFormed(old(Values(ms)))
                         && ms[0].Value() == Merged(old(Values(ms)))
                         && redundancies == Redundancies(old(Values(ms)))
  {
    if |ms| == 0 {
      return None, [];
    }
    ghost var vs := Values(ms);
    assert AllWellFormed(vs);
    redundancies := [];
    var result := ms[0];
    var previousTitle := ms[0].title;
    for j := 1 to |ms|
      invariant result == ms[0] && result.Valid()
      invariant result.Value() == MergedUpTo(vs, j)
      invariant redundancies == RedundanciesUpTo(vs, j)
      invariant previousTitle == vs[j - 1].title
      invariant forall i :: j <= i < |ms| ==> ms[i].Valid() && ms[i].Value() == vs[i]
    {
      var mapping := ms[j];
      MergedStep(vs, j);
      var found := AbsorbMapping(result, mapping, previousTitle);
      redundancies := redundancies + found;
      previousTitle := mapping.title;
    }
    merged := Some(result);
  }
}

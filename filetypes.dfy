/**
 * File-type distribution (skills/guideline-refresher/refresh_guidelines.py,
 * analyze_file_patterns): which walked paths count as files, the per-suffix
 * counter in first-seen order, and `most_common(10)` over it.
 */
module FileTypes {
  import opened Text
  import opened Naming

  /** `any(part.startswith('.') for part in file_path.parts)`: every part of the full path is tested. */
  predicate IsHidden(e: Entry) {
    exists i | 0 <= i < |e.parts| :: e.parts[i] != [] && e.parts[i][0] == '.'
  }

  predicate IsVisibleFile(e: Entry) {
    !IsHidden(e) && e.isFile
  }

  /** `total_files`: the visible regular files. */
  function VisibleFileCount(entries: seq<Entry>): (n: nat)
    ensures n <= |entries|
    decreases |entries|
  {
    if entries == [] then 0
    else VisibleFileCount(entries[..|entries| - 1]) + (if IsVisibleFile(entries[|entries| - 1]) then 1 else 0)
  }

  /** One entry of a suffix counter. */
  datatype SuffixCount = SuffixCount(suffix: string, count: nat)

  /** A counter as Python keeps it: each key once, in the order keys were first seen. */
  predicate DistinctKeys(tally: seq<SuffixCount>) {
    forall i, j :: 0 <= i < j < |tally| ==> tally[i].suffix != tally[j].suffix
  }

  /** The counter's keys in order. */
  function Keys(tally: seq<SuffixCount>): (ks: seq<string>)
    ensures |ks| == |tally|
    ensures forall i :: 0 <= i < |tally| ==> ks[i] == tally[i].suffix
  {
    seq(|tally|, i requires 0 <= i < |tally| => tally[i].suffix)
  }

  /** `counter[sfx]`, or 0 for a key never seen. */
  function CountOf(tally: seq<SuffixCount>, sfx: string): nat
    decreases |tally|
  {
    if tally == [] then 0
    else if tally[0].suffix == sfx then tally[0].count
    else CountOf(tally[1..], sfx)
  }

  /** `counter[sfx] += 1`: an existing key keeps its place, a new key goes last. */
  function Bump(tally: seq<SuffixCount>, sfx: string): (r: seq<SuffixCount>)
    requires DistinctKeys(tally)
    ensures Keys(r) == if sfx in Keys(tally) then Keys(tally) else Keys(tally) + [sfx]
    ensures DistinctKeys(r)
    ensures CountOf(r, sfx) == CountOf(tally, sfx) + 1
    ensures forall x :: x != sfx ==> CountOf(r, x) == CountOf(tally, x)
    decreases |tally|
  {
    if tally == [] then [SuffixCount(sfx, 1)]
    else if tally[0].suffix == sfx then
      var r := [SuffixCount(sfx, tally[0].count + 1)] + tally[1..];
      KeysCons(tally);
      KeysCons(r);
      assert r[1..] == tally[1..];
      r
    else
      var rest := Bump(tally[1..], sfx);
      var r := [tally[0]] + rest;
      KeysCons(tally);
      KeysCons(r);
      assert r[1..] == rest;
      DistinctCons(tally[0], rest);
      r
  }

  lemma KeysCons(tally: seq<SuffixCount>)
    requires tally != []
    ensures Keys(tally) == [tally[0].suffix] + Keys(tally[1..])
  {
  }

  /** A key not among the rest's keeps the keys distinct when put in front. */
  lemma DistinctCons(h: SuffixCount, rest: seq<SuffixCount>)
    requires DistinctKeys(rest) && h.suffix !in Keys(rest)
    ensures DistinctKeys([h] + rest)
  {
    var r := [h] + rest;
    forall i, j | 0 <= i < j < |r| ensures r[i].suffix != r[j].suffix {
      if i == 0 {
        assert r[j].suffix == Keys(rest)[j - 1];
      }
    }
  }

  /** The number of visible files with suffix `sfx`. */
  function SuffixOccurrences(entries: seq<Entry>, sfx: string): nat
    decreases |entries|
  {
    if entries == [] then 0
    else
      var last := entries[|entries| - 1];
      SuffixOccurrences(entries[..|entries| - 1], sfx)
      + (if IsVisibleFile(last) && Suffix(Name(last)) != [] && Suffix(Name(last)) == sfx then 1 else 0)
  }

  /**
   * The `file_types` counter after the walk: one key per non-empty suffix of
   * a visible file, in first-seen order, holding the number of such files.
   */
  function SuffixTally(entries: seq<Entry>): (r: seq<SuffixCount>)
    ensures DistinctKeys(r)
    ensures forall x :: CountOf(r, x) == SuffixOccurrences(entries, x)
    ensures forall i :: 0 <= i < |r| ==> r[i].suffix != [] && r[i].count > 0
    decreases |entries|
  {
    if entries == [] then []
    else
      var init := SuffixTally(entries[..|entries| - 1]);
      var last := entries[|entries| - 1];
      var sfx := Suffix(Name(last));
      if IsVisibleFile(last) && sfx != [] then
        var r := Bump(init, sfx);
        assert forall i :: 0 <= i < |r| ==> r[i].suffix != [] && r[i].count > 0 by {
          forall i | 0 <= i < |r| ensures r[i].suffix != [] && r[i].count > 0 {
            PositiveEntry(init, sfx, r, i);
          }
        }
        r
      else init
  }

  /** One more walked path: the file count and the suffix counter take it into account on their own. */
  lemma WalkStep(entries: seq<Entry>, e: Entry)
    ensures VisibleFileCount(entries + [e]) == VisibleFileCount(entries) + (if IsVisibleFile(e) then 1 else 0)
    ensures SuffixTally(entries + [e]) ==
      if IsVisibleFile(e) && Suffix(Name(e)) != [] then Bump(SuffixTally(entries), Suffix(Name(e))) else SuffixTally(entries)
  {
    var all := entries + [e];
    assert all[..|all| - 1] == entries;
  }

  lemma PositiveEntry(init: seq<SuffixCount>, sfx: string, r: seq<SuffixCount>, i: int)
    requires DistinctKeys(init) && sfx != []
    requires forall k :: 0 <= k < |init| ==> init[k].suffix != [] && init[k].count > 0
    requires r == Bump(init, sfx) && 0 <= i < |r|
    ensures r[i].suffix != [] && r[i].count > 0
  {
    var x := r[i].suffix;
    assert x in Keys(r);
    if x != sfx {
      assert x in Keys(init);
      var k :| 0 <= k < |init| && Keys(init)[k] == x;
      CountOfAt(init, k);
      CountOfAt(r, i);
    } else {
      CountOfAt(r, i);
    }
  }

  /** In a counter with distinct keys, `CountOf` reads the entry of that key. */
  lemma {:induction false} CountOfAt(tally: seq<SuffixCount>, i: int)
    requires DistinctKeys(tally) && 0 <= i < |tally|
    ensures CountOf(tally, tally[i].suffix) == tally[i].count
    decreases |tally|
  {
    if i > 0 {
      CountOfAt(tally[1..], i - 1);
    }
  }

  /** A path under a hidden ancestor is never counted, even when the ancestor is above the area. */
  lemma {:induction false} HiddenRootHidesAll(root: seq<string>, entries: seq<Entry>)
    requires exists k | 0 <= k < |root| :: root[k] != [] && root[k][0] == '.'
    requires forall i :: 0 <= i < |entries| ==> root <= entries[i].parts
    ensures VisibleFileCount(entries) == 0 && SuffixTally(entries) == []
    decreases |entries|
  {
    if entries != [] {
      var init := entries[..|entries| - 1];
      HiddenRootHidesAll(root, init);
      var k :| 0 <= k < |root| && root[k] != [] && root[k][0] == '.';
      assert entries[|entries| - 1].parts[k] == root[k];
    }
  }

  // `Counter.most_common(n)`: the entries by descending count, ties in
  // first-seen order, of which the first `n` are kept.

  predicate Descending(s: seq<SuffixCount>) {
    forall i, j :: 0 <= i < j < |s| ==> s[i].count >= s[j].count
  }

  /** Inserts `x` after every entry whose count is at least its own. */
  function InsertDescending(x: SuffixCount, s: seq<SuffixCount>): (r: seq<SuffixCount>)
    requires Descending(s)
    ensures multiset(r) == multiset(s) + multiset{x}
    ensures Descending(r)
    decreases |s|
  {
    if s == [] then [x]
    else if x.count > s[0].count then
      DescendingCons(x, s);
      [x] + s
    else
      var r' := InsertDescending(x, s[1..]);
      assert s == [s[0]] + s[1..];
      HeadDominates(s, x, r');
      DescendingCons(s[0], r');
      [s[0]] + r'
  }

  /** An entry at least as large as every entry of a descending list can head it. */
  lemma DescendingCons(h: SuffixCount, t: seq<SuffixCount>)
    requires Descending(t)
    requires forall j :: 0 <= j < |t| ==> h.count >= t[j].count
    ensures Descending([h] + t)
  {
  }

  /** In a descending list, the head is at least every entry of the tail and any smaller `x` inserted there. */
  lemma HeadDominates(s: seq<SuffixCount>, x: SuffixCount, r: seq<SuffixCount>)
    requires s != [] && Descending(s) && x.count <= s[0].count
    requires multiset(r) == multiset(s[1..]) + multiset{x}
    ensures forall j :: 0 <= j < |r| ==> s[0].count >= r[j].count
  {
    forall j | 0 <= j < |r| ensures s[0].count >= r[j].count {
      assert r[j] in multiset(r);
      if r[j] != x {
        assert r[j] in multiset(s[1..]);
        var k :| 0 <= k < |s[1..]| && s[1..][k] == r[j];
        assert s[k + 1] == r[j];
      }
    }
  }

  function SortDescending(s: seq<SuffixCount>): (r: seq<SuffixCount>)
    ensures multiset(r) == multiset(s)
    ensures Descending(r)
    decreases |s|
  {
    if s == [] then []
    else
      assert s == s[..|s| - 1] + [s[|s| - 1]];
      InsertDescending(s[|s| - 1], SortDescending(s[..|s| - 1]))
  }

  /**
   * `most_common(n)`: the `n` entries with the largest counts (all of them
   * when there are fewer), by descending count; every entry left out has a
   * count no larger than any entry kept.
   */
  function MostCommon(tally: seq<SuffixCount>, n: nat): (r: seq<SuffixCount>)
    ensures |r| == if |tally| <= n then |tally| else n
    ensures forall x :: x in r ==> x in tally
    ensures Descending(r)
    ensures forall x, y :: x in tally && x !in r && y in r ==> y.count >= x.count
  {
    var sorted := SortDescending(tally);
    SameMembers(sorted, tally);
    forall x, y | x in sorted && x !in Take(sorted, n) && y in Take(sorted, n) ensures y.count >= x.count {
      DroppedNoLarger(sorted, n, x, y);
    }
    Take(sorted, n)
  }

  /**
   * `most_common(n)` takes each entry of the tally at most as often as the
   * tally holds it, so a tally with distinct keys yields distinct entries.
   */
  lemma MostCommonSubMultiset(tally: seq<SuffixCount>, n: nat)
    ensures multiset(MostCommon(tally, n)) <= multiset(tally)
  {
    var sorted := SortDescending(tally);
    var k := |Take(sorted, n)|;
    assert sorted == sorted[..k] + sorted[k..];
  }

  /** Lists that are permutations of each other have the same length and the same members. */
  lemma SameMembers(a: seq<SuffixCount>, b: seq<SuffixCount>)
    requires multiset(a) == multiset(b)
    ensures |a| == |b|
    ensures forall x :: x in a <==> x in b
  {
    assert |a| == |multiset(a)| == |multiset(b)| == |b|;
    forall x ensures x in a <==> x in b {
      assert x in a <==> x in multiset(a);
      assert x in b <==> x in multiset(b);
    }
  }

  /** In a descending list, an entry past the first `n` is no larger than one among them. */
  lemma DroppedNoLarger(sorted: seq<SuffixCount>, n: nat, x: SuffixCount, y: SuffixCount)
    requires Descending(sorted)
    requires x in sorted && x !in Take(sorted, n) && y in Take(sorted, n)
    ensures y.count >= x.count
  {
    var r := Take(sorted, n);
    var rest := sorted[|r|..];
    assert sorted == r + rest;
    assert x in rest;
    var k :| 0 <= k < |rest| && rest[k] == x;
    assert sorted[|r| + k] == x;
    var i :| 0 <= i < |r| && r[i] == y;
    assert sorted[i] == y;
  }

  /** Number of suffixes `file_types` keeps. */
  const TopFileTypes: nat := 10
}

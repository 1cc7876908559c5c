/**
 * The comparison with the previous guidelines
 * (skills/guideline-refresher/refresh_guidelines.py, _compare_guidelines):
 * the `## ` headings of a document, their set difference in both directions
 * listed in sorted order, the count of common headings, and the commit count
 * read back from the previous document.
 */
module Sections {
  import opened Text
  import opened Lines
  import opened Order

  datatype Option<T> = None | Some(value: T)

  /** A line the pattern `^## (.+)$` matches: "## " and at least one more character. */
  predicate IsHeadingLine(line: string) {
    |line| > 3 && line[..3] == "## "
  }

  /** The headings of the given lines, in order. */
  function HeadingsOfLines(lines: seq<string>): (hs: seq<string>)
    ensures |hs| <= |lines|
    decreases |lines|
  {
    if lines == [] then []
    else
      var line := lines[|lines| - 1];
      HeadingsOfLines(lines[..|lines| - 1]) + (if IsHeadingLine(line) then [line[3..]] else [])
  }

  /** `re.findall(r'^## (.+)$', text, re.MULTILINE)`: `.` stops at a newline, so each line is tested on its own. */
  function Headings(text: string): seq<string> {
    HeadingsOfLines(Split(text, '\n'))
  }

  /** A heading is the rest of some heading line. */
  lemma {:induction false} HeadingsOfLinesMembers(lines: seq<string>, h: string)
    ensures h in HeadingsOfLines(lines) <==> exists i :: 0 <= i < |lines| && IsHeadingLine(lines[i]) && h == lines[i][3..]
    decreases |lines|
  {
    if lines != [] {
      var init := lines[..|lines| - 1];
      HeadingsOfLinesMembers(init, h);
      assert forall i :: 0 <= i < |init| ==> init[i] == lines[i];
      if h in HeadingsOfLines(lines) && h !in HeadingsOfLines(init) {
        assert IsHeadingLine(lines[|lines| - 1]) && h == lines[|lines| - 1][3..];
      }
    }
  }

  /**
   * For a document written line by line, the headings found are exactly the
   * texts of its `## ` lines.
   */
  lemma HeadingsOfDocument(lines: seq<string>, h: string)
    requires |lines| >= 1
    requires forall i :: 0 <= i < |lines| ==> '\n' !in lines[i]
    ensures h in Headings(Join(lines, '\n')) <==>
      exists i :: 0 <= i < |lines| && IsHeadingLine(lines[i]) && h == lines[i][3..]
  {
    SplitJoin(lines, '\n');
    HeadingsOfLinesMembers(lines, h);
  }

  /** A line written as "## " and a title reads back as that title. */
  lemma HeadingLineRoundTrip(title: string)
    requires title != [] && '\n' !in title
    ensures Headings("## " + title) == [title]
  {
    var line := "## " + title;
    assert '\n' !in line;
    var lines: seq<string> := [line];
    SplitJoin(lines, '\n');
    assert lines[..0] == [];
    assert line[3..] == title;
  }

  function SetOf(s: seq<string>): set<string> {
    set x | x in s
  }

  /** The outcome of comparing the previous headings with the new ones. */
  datatype HeadingDiff = HeadingDiff(added: seq<string>, removed: seq<string>, common: nat)

  /**
   * `sorted(new - old)`, `sorted(old - new)` and `len(old & new)` over the
   * heading sets.
   */
  function Diff(oldHeadings: seq<string>, newHeadings: seq<string>): (d: HeadingDiff)
    ensures forall x :: x in d.added <==> x in newHeadings && x !in oldHeadings
    ensures forall x :: x in d.removed <==> x in oldHeadings && x !in newHeadings
    ensures forall i, j :: 0 <= i < j < |d.added| ==> Less(d.added[i], d.added[j])
    ensures forall i, j :: 0 <= i < j < |d.removed| ==> Less(d.removed[i], d.removed[j])
    ensures d.common == |SetOf(oldHeadings) * SetOf(newHeadings)|
  {
    HeadingDiff(SortedMinus(newHeadings, SetOf(oldHeadings)),
                SortedMinus(oldHeadings, SetOf(newHeadings)),
                |SetOf(oldHeadings) * SetOf(newHeadings)|)
  }

  /** Documents with the same heading set differ by nothing added or removed, and share every heading. */
  lemma SameHeadingsNoChange(oldHeadings: seq<string>, newHeadings: seq<string>)
    requires SetOf(oldHeadings) == SetOf(newHeadings)
    ensures Diff(oldHeadings, newHeadings).added == [] && Diff(oldHeadings, newHeadings).removed == []
    ensures Diff(oldHeadings, newHeadings).common == |SetOf(newHeadings)|
  {
    var d := Diff(oldHeadings, newHeadings);
    if d.added != [] {
      MemberAt(d.added, 0);
    }
    if d.removed != [] {
      MemberAt(d.removed, 0);
    }
    assert SetOf(oldHeadings) * SetOf(newHeadings) == SetOf(newHeadings);
  }

  lemma MemberAt(s: seq<string>, i: nat)
    requires i < |s|
    ensures s[i] in s
  {
  }

  /** Nothing added and nothing removed means the two heading sets are equal. */
  lemma NoChangeSameHeadings(oldHeadings: seq<string>, newHeadings: seq<string>)
    requires Diff(oldHeadings, newHeadings).added == [] && Diff(oldHeadings, newHeadings).removed == []
    ensures SetOf(oldHeadings) == SetOf(newHeadings)
  {
    var d := Diff(oldHeadings, newHeadings);
    forall x ensures x in SetOf(oldHeadings) <==> x in SetOf(newHeadings) {
      assert x !in d.added && x !in d.removed;
    }
  }

  // The commit count of the previous document:
  // `re.search(r'Total commits analyzed:\*\* (\d+)', old)`.

  const CommitsMarker: string := "Total commits analyzed:** "

  predicate IsDigit(c: char) { '0' <= c <= '9' }

  /** The longest all-digit prefix (`\d+` is greedy). */
  function DigitPrefix(s: string): (d: string)
    ensures |d| <= |s| && d == s[..|d|]
    ensures forall i :: 0 <= i < |d| ==> IsDigit(d[i])
    ensures |d| < |s| ==> !IsDigit(s[|d|])
    decreases |s|
  {
    if s != [] && IsDigit(s[0]) then [s[0]] + DigitPrefix(s[1..]) else []
  }

  /** `int(digits)`. */
  function DigitsValue(d: string): nat
    requires forall i :: 0 <= i < |d| ==> IsDigit(d[i])
    decreases |d|
  {
    if d == [] then 0
    else
      assert IsDigit(d[|d| - 1]);
      DigitsValue(d[..|d| - 1]) * 10 + (d[|d| - 1] as int - '0' as int)
  }

  /** `str(n)`: the decimal digits of `n`. */
  function Decimal(n: nat): (d: string)
    ensures d != [] && forall i :: 0 <= i < |d| ==> IsDigit(d[i])
  {
    if n < 10 then [('0' as int + n) as char] else Decimal(n / 10) + [('0' as int + n % 10) as char]
  }

  /** Reading back the digits of `n` gives `n`. */
  lemma {:induction false} DecimalValue(n: nat)
    ensures DigitsValue(Decimal(n)) == n
  {
    if n >= 10 {
      DecimalValue(n / 10);
      var d := Decimal(n);
      assert d[..|d| - 1] == Decimal(n / 10);
    }
  }

  /**
   * `re.search(re.escape(marker) + r'(\d+)', text)`: the number behind the
   * leftmost occurrence of `marker` that is followed by at least one digit.
   */
  function CountAfter(marker: string, text: string): Option<nat>
    decreases |text|
  {
    if |text| <= |marker| then None
    else if MatchesAt(text, marker, 0) && IsDigit(text[|marker|]) then
      Some(DigitsValue(DigitPrefix(text[|marker|..])))
    else CountAfter(marker, text[1..])
  }

  /** The commit count a previous document states, if any. */
  function OldCommitCount(text: string): Option<nat> {
    CountAfter(CommitsMarker, text)
  }

  /**
   * A document holding the summary line `Total commits analyzed:** n`, with
   * no earlier occurrence of the marker, reads back `n`.
   */
  lemma CommitCountRoundTrip(prefix: string, n: nat, rest: string)
    requires MarkerFree(CommitsMarker, prefix)
    requires rest == [] || !IsDigit(rest[0])
    ensures OldCommitCount(prefix + (CommitsMarker + (Decimal(n) + rest))) == Some(n)
  {
    var tail := CommitsMarker + (Decimal(n) + rest);
    CountAtMarker(CommitsMarker, Decimal(n) + rest, n, rest);
    assert tail[..|CommitsMarker|] == CommitsMarker;
    SkipPrefix(CommitsMarker, prefix, tail);
  }

  /** No occurrence of `marker` starts inside `prefix`, even one running on into a marker after it. */
  ghost predicate MarkerFree(marker: string, prefix: string) {
    forall i :: 0 <= i < |prefix| ==> !MatchesAt(prefix + marker, marker, i)
  }

  /** The search passes over a prefix holding no marker that starts before the text behind it. */
  lemma {:induction false} SkipPrefix(marker: string, prefix: string, tail: string)
    requires |marker| <= |tail| && tail[..|marker|] == marker
    requires MarkerFree(marker, prefix)
    ensures CountAfter(marker, prefix + tail) == CountAfter(marker, tail)
    decreases |prefix|
  {
    if prefix != [] {
      NoMarkerInRest(marker, prefix);
      SkipNonMarker(marker, prefix, tail);
      SkipPrefix(marker, prefix[1..], tail);
    } else {
      assert prefix + tail == tail;
    }
  }

  /** A marker-free prefix has no marker at its start, and dropping its first character keeps it marker-free. */
  lemma NoMarkerInRest(marker: string, prefix: string)
    requires prefix != [] && MarkerFree(marker, prefix)
    ensures !MatchesAt(prefix + marker, marker, 0)
    ensures MarkerFree(marker, prefix[1..])
  {
    var m := |marker|;
    forall i | 0 <= i < |prefix| - 1 ensures !MatchesAt(prefix[1..] + marker, marker, i) {
      assert !MatchesAt(prefix + marker, marker, i + 1);
      assert (prefix + marker)[i + 1..i + 1 + m] == (prefix[1..] + marker)[i..i + m];
    }
  }

  /** The marker followed by the digits of `n` reads as `n`. */
  lemma CountAtMarker(marker: string, tail: string, n: nat, rest: string)
    requires tail == Decimal(n) + rest
    requires rest == [] || !IsDigit(rest[0])
    ensures CountAfter(marker, marker + tail) == Some(n)
  {
    var text := marker + tail;
    assert text[..|marker|] == marker;
    assert MatchesAt(text, marker, 0);
    assert text[|marker|..] == tail;
    assert text[|marker|] == Decimal(n)[0];
    DigitPrefixOfDigits(Decimal(n), rest);
    DecimalValue(n);
  }

  /** A search that finds no marker at the first character moves on to the next. */
  lemma SkipNonMarker(marker: string, prefix: string, tail: string)
    requires prefix != [] && |marker| <= |tail| && tail[..|marker|] == marker
    requires !MatchesAt(prefix + marker, marker, 0)
    ensures CountAfter(marker, prefix + tail) == CountAfter(marker, prefix[1..] + tail)
  {
    var text := prefix + tail;
    NoMarkerAtStart(marker, prefix, tail);
    CountAfterStep(marker, text);
    DropFirst(prefix, tail);
  }

  lemma DropFirst(prefix: string, tail: string)
    requires prefix != []
    ensures (prefix + tail)[1..] == prefix[1..] + tail
  {
  }

  /** Where the marker does not start, the search moves on by one character. */
  lemma CountAfterStep(marker: string, text: string)
    requires |marker| < |text| && !MatchesAt(text, marker, 0)
    ensures CountAfter(marker, text) == CountAfter(marker, text[1..])
  {
  }

  /** The text behind the prefix starts like the marker, so the search sees the same first characters. */
  lemma NoMarkerAtStart(marker: string, prefix: string, tail: string)
    requires |marker| <= |tail| && tail[..|marker|] == marker
    requires !MatchesAt(prefix + marker, marker, 0)
    ensures !MatchesAt(prefix + tail, marker, 0)
  {
    var text := prefix + tail;
    var m := |marker|;
    forall j | 0 <= j < m ensures text[j] == (prefix + marker)[j] {
      if j >= |prefix| {
        assert tail[j - |prefix|] == tail[..m][j - |prefix|];
      }
    }
    assert text[0..m] == (prefix + marker)[0..m];
  }

  lemma {:induction false} DigitPrefixOfDigits(d: string, rest: string)
    requires forall i :: 0 <= i < |d| ==> IsDigit(d[i])
    requires rest == [] || !IsDigit(rest[0])
    ensures DigitPrefix(d + rest) == d
    decreases |d|
  {
    if d != [] {
      DigitPrefixOfDigits(d[1..], rest);
      assert (d + rest)[1..] == d[1..] + rest;
    } else {
      assert d + rest == rest;
    }
  }

  /** The blocks of the comparison text, in the order they are written. */
  datatype Block =
    | NewSections(names: seq<string>)
    | RemovedSections(names: seq<string>)
    | UpdatedSections(count: nat)
    | StructureMaintained
    | DataFreshness(current: nat, previous: nat)

  /** The blocks written for a heading difference and, when there is one, the previous commit count. */
  function Blocks(d: HeadingDiff, previousCommits: Option<nat>, newCommits: nat): seq<Block> {
    (if d.added != [] then [NewSections(d.added)] else [])
    + (if d.removed != [] then [RemovedSections(d.removed)] else [])
    + (if d.common > 0 then [UpdatedSections(d.common)] else [])
    + (if d.added == [] && d.removed == [] then [StructureMaintained] else [])
    + (match previousCommits
       case Some(n) => [DataFreshness(newCommits, n)]
       case None => [])
  }

  /**
   * The comparison of the previous document with the headings of the new
   * one, given the new commit count.
   */
  function Compare(oldText: string, newHeadings: seq<string>, newCommits: nat): seq<Block> {
    Blocks(Diff(Headings(oldText), newHeadings), OldCommitCount(oldText), newCommits)
  }

  /**
   * Each block is written exactly when its condition holds: new and removed
   * headings when there are any, the kept count when it is not zero, the
   * maintained note when nothing changed, the commit counts when the previous
   * document holds one.
   */
  lemma BlocksWritten(d: HeadingDiff, previousCommits: Option<nat>, newCommits: nat)
    ensures var blocks := Blocks(d, previousCommits, newCommits);
      && (forall names :: NewSections(names) in blocks <==> names == d.added && names != [])
      && (forall names :: RemovedSections(names) in blocks <==> names == d.removed && names != [])
      && (forall k :: UpdatedSections(k) in blocks <==> k == d.common && k > 0)
      && (StructureMaintained in blocks <==> d.added == [] && d.removed == [])
      && (forall c: nat, p: nat :: DataFreshness(c, p) in blocks <==> c == newCommits && previousCommits == Some(p))
  {
    forall names ensures NewSections(names) in Blocks(d, previousCommits, newCommits) <==> names == d.added && names != [] {
      InBlocks(d, previousCommits, newCommits, NewSections(names));
    }
    forall names ensures RemovedSections(names) in Blocks(d, previousCommits, newCommits) <==> names == d.removed && names != [] {
      InBlocks(d, previousCommits, newCommits, RemovedSections(names));
    }
    forall k ensures UpdatedSections(k) in Blocks(d, previousCommits, newCommits) <==> k == d.common && k > 0 {
      InBlocks(d, previousCommits, newCommits, UpdatedSections(k));
    }
    InBlocks(d, previousCommits, newCommits, StructureMaintained);
    forall c: nat, p: nat
      ensures DataFreshness(c, p) in Blocks(d, previousCommits, newCommits) <==> c == newCommits && previousCommits == Some(p)
    {
      InBlocks(d, previousCommits, newCommits, DataFreshness(c, p));
    }
  }

  /** The blocks are the five optional parts, each present under its own condition. */
  lemma InBlocks(d: HeadingDiff, previousCommits: Option<nat>, newCommits: nat, b: Block)
    ensures b in Blocks(d, previousCommits, newCommits) <==>
      || (b == NewSections(d.added) && d.added != [])
      || (b == RemovedSections(d.removed) && d.removed != [])
      || (b == UpdatedSections(d.common) && d.common > 0)
      || (b == StructureMaintained && d.added == [] && d.removed == [])
      || (previousCommits.Some? && b == DataFreshness(newCommits, previousCommits.value))
  {
    var added := if d.added != [] then [NewSections(d.added)] else [];
    var removed := if d.removed != [] then [RemovedSections(d.removed)] else [];
    var updated := if d.common > 0 then [UpdatedSections(d.common)] else [];
    var maintained := if d.added == [] && d.removed == [] then [StructureMaintained] else [];
    var freshness := match previousCommits case Some(n) => [DataFreshness(newCommits, n)] case None => [];
    assert Blocks(d, previousCommits, newCommits) == added + removed + updated + maintained + freshness;
  }

  /** "Structure maintained" is written exactly when the two heading sets are equal. */
  lemma CompareMaintained(oldText: string, newHeadings: seq<string>, newCommits: nat)
    ensures StructureMaintained in Compare(oldText, newHeadings, newCommits) <==>
      SetOf(Headings(oldText)) == SetOf(newHeadings)
  {
    var previous := Headings(oldText);
    var d := Diff(previous, newHeadings);
    BlocksWritten(d, OldCommitCount(oldText), newCommits);
    if d.added == [] && d.removed == [] {
      NoChangeSameHeadings(previous, newHeadings);
    }
    if SetOf(previous) == SetOf(newHeadings) {
      SameHeadingsNoChange(previous, newHeadings);
    }
  }
}

/**
 * The "Changes from Previous Guidelines" section
 * (skills/guideline-refresher/refresh_guidelines.py, generate_updated_guidelines
 * and _compare_guidelines): when a previous guidelines document exists, its
 * headings and commit count are compared with the new document.
 *
 * As written, the comparison obtains the new document by calling the
 * generator again, which loads the same previous document and compares
 * again, without end. `GenerateAsWritten` and `CompareAsWritten` model that
 * mutual recursion with a fuel bound standing in for Python's recursion
 * limit; `ChangesSection` is the comparison as evidently intended, against
 * the headings of the document being generated.
 */
module Changes {
  import opened Lines
  import opened Sections

  /** What a run of the generator yields, reduced to what the comparison needs. */
  datatype Document = Document(headings: seq<string>, changes: Option<seq<Block>>)

  /** `if current:` — a missing file and an empty file both mean a first version. */
  predicate HasPrevious(current: Option<string>) {
    current.Some? && current.value != []
  }

  /**
   * `generate_updated_guidelines` as written: `current` is what
   * `load_current_guidelines` returns on every call, `headings` the headings
   * of the template. None: no document within `fuel` nested calls.
   */
  function GenerateAsWritten(current: Option<string>, headings: seq<string>, newCommits: nat, fuel: nat): (r: Option<Document>)
    ensures !HasPrevious(current) ==> r == Some(Document(headings, None))
    decreases fuel, 1
  {
    if HasPrevious(current) then
      match CompareAsWritten(current.value, current, headings, newCommits, fuel)
      case None => None
      case Some(blocks) => Some(Document(headings, Some(blocks)))
    else Some(Document(headings, None))
  }

  /** `_compare_guidelines` as written: it first generates the new document anew. */
  function CompareAsWritten(oldText: string, current: Option<string>, headings: seq<string>, newCommits: nat, fuel: nat): Option<seq<Block>>
    decreases fuel, 0
  {
    if fuel == 0 then None
    else
      match GenerateAsWritten(current, headings, newCommits, fuel - 1)
      case None => None
      case Some(doc) => Some(Compare(oldText, doc.headings, newCommits))
  }

  /**
   * With a non-empty previous document, no depth of nested calls ever yields
   * a document: each generation needs a comparison, which needs a generation.
   */
  lemma {:induction false} AsWrittenNeverReturns(current: Option<string>, headings: seq<string>, newCommits: nat, fuel: nat)
    requires HasPrevious(current)
    ensures GenerateAsWritten(current, headings, newCommits, fuel) == None
    ensures CompareAsWritten(current.value, current, headings, newCommits, fuel) == None
  {
    GenerateNeverReturns(current, headings, newCommits, fuel);
    CompareNeverReturns(current, headings, newCommits, fuel);
  }

  lemma {:induction false} GenerateNeverReturns(current: Option<string>, headings: seq<string>, newCommits: nat, fuel: nat)
    requires HasPrevious(current)
    ensures GenerateAsWritten(current, headings, newCommits, fuel) == None
    decreases fuel, 1
  {
    CompareNeverReturns(current, headings, newCommits, fuel);
  }

  lemma {:induction false} CompareNeverReturns(current: Option<string>, headings: seq<string>, newCommits: nat, fuel: nat)
    requires HasPrevious(current)
    ensures CompareAsWritten(current.value, current, headings, newCommits, fuel) == None
    decreases fuel, 0
  {
    if fuel > 0 {
      var inner := GenerateAsWritten(current, headings, newCommits, fuel - 1);
      GenerateNeverReturns(current, headings, newCommits, fuel - 1);
      assert inner.None?;
    }
  }

  /**
   * The section as evidently intended: None for a first version; otherwise
   * the comparison of the previous document with the new document's
   * headings and commit count.
   */
  function ChangesSection(current: Option<string>, headings: seq<string>, newCommits: nat): (r: Option<seq<Block>>)
    ensures r.Some? <==> HasPrevious(current)
  {
    if HasPrevious(current) then Some(Compare(current.value, headings, newCommits)) else None
  }

  /** The intended section is what the as-written recursion would yield if the inner generation stopped at a first version. */
  lemma ChangesSectionOneLevel(current: Option<string>, headings: seq<string>, newCommits: nat)
    requires HasPrevious(current)
    ensures ChangesSection(current, headings, newCommits)
      == CompareAsWritten(current.value, None, headings, newCommits, 1)
  {
  }

  /** A `## ` line per heading. */
  function HeadingLines(headings: seq<string>): (lines: seq<string>)
    ensures |lines| == |headings|
    ensures forall i :: 0 <= i < |headings| ==> lines[i] == "## " + headings[i]
  {
    seq(|headings|, i requires 0 <= i < |headings| => "## " + headings[i])
  }

  /**
   * Refreshing over a previous document with the same headings reports the
   * structure as maintained and every heading as updated.
   */
  lemma RerunMaintained(headings: seq<string>, newCommits: nat)
    requires headings != []
    requires forall i :: 0 <= i < |headings| ==> headings[i] != [] && '\n' !in headings[i]
    ensures var previous := Join(HeadingLines(headings), '\n');
      var r := ChangesSection(Some(previous), headings, newCommits);
      && r.Some?
      && StructureMaintained in r.value
      && UpdatedSections(|SetOf(headings)|) in r.value
  {
    var previous := Join(HeadingLines(headings), '\n');
    HeadingLinesReadBack(headings);
    SameHeadingsMaintained(previous, headings, newCommits);
  }

  /** A previous document with the same heading set gets the maintained note and the kept count. */
  lemma SameHeadingsMaintained(oldText: string, headings: seq<string>, newCommits: nat)
    requires headings != []
    requires SetOf(Headings(oldText)) == SetOf(headings)
    ensures StructureMaintained in Compare(oldText, headings, newCommits)
    ensures UpdatedSections(|SetOf(headings)|) in Compare(oldText, headings, newCommits)
  {
    var d := Diff(Headings(oldText), headings);
    SameHeadingsNoChange(Headings(oldText), headings);
    assert headings[0] in SetOf(headings);
    InBlocks(d, OldCommitCount(oldText), newCommits, StructureMaintained);
    InBlocks(d, OldCommitCount(oldText), newCommits, UpdatedSections(d.common));
  }

  /** A document of heading lines is not empty and reads back the same heading set. */
  lemma HeadingLinesReadBack(headings: seq<string>)
    requires headings != []
    requires forall i :: 0 <= i < |headings| ==> headings[i] != [] && '\n' !in headings[i]
    ensures Join(HeadingLines(headings), '\n') != []
    ensures SetOf(Headings(Join(HeadingLines(headings), '\n'))) == SetOf(headings)
  {
    var lines := HeadingLines(headings);
    var previous := Join(lines, '\n');
    forall i | 0 <= i < |lines| ensures '\n' !in lines[i] && lines[i] != [] {
      assert lines[i] == "## " + headings[i];
    }
    forall h ensures h in Headings(previous) <==> h in headings {
      HeadingsOfDocument(lines, h);
      if h in headings {
        var i :| 0 <= i < |headings| && headings[i] == h;
        assert IsHeadingLine(lines[i]) && lines[i][3..] == h;
      }
      if h in Headings(previous) {
        var i :| 0 <= i < |lines| && IsHeadingLine(lines[i]) && h == lines[i][3..];
        assert lines[i][3..] == headings[i];
      }
    }
    JoinEnds(lines, '\n');
  }
}

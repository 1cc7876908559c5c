/**
 * Classification of `git log --oneline` output
 * (skills/guideline-refresher/refresh_guidelines.py, analyze_git_history):
 * splitting the output into commit lines, taking each line's message, and
 * testing the lower-cased message against the refactor keywords and the six
 * technology keyword groups.
 */
module Commits {
  import opened Text
  import opened Lines

  /** The technology groups, in the order the source's keyword dictionary lists them. */
  datatype Tech = TypeScript | React | Vue | Testing | Async | Performance

  const AllTech: seq<Tech> := [TypeScript, React, Vue, Testing, Async, Performance]

  const RefactorKeywords: seq<string> := ["refactor", "improve", "update", "migrate", "modernize"]

  function TechKeywords(t: Tech): seq<string> {
    match t
    case TypeScript => ["typescript", "ts", ".tsx"]
    case React => ["react", "jsx", "hook", "component"]
    case Vue => ["vue", "composition", "vue3"]
    case Testing => ["test", "spec", "jest", "vitest", "cypress"]
    case Async => ["async", "await", "promise"]
    case Performance => ["performance", "optimize", "lazy", "memo"]
  }

  /** Position of `t` in `AllTech`. */
  function TechIndex(t: Tech): (k: nat)
    ensures k < |AllTech| && AllTech[k] == t
  {
    match t
    case TypeScript => 0
    case React => 1
    case Vue => 2
    case Testing => 3
    case Async => 4
    case Performance => 5
  }

  /** `TechIndex` inverts indexing into `AllTech`. */
  lemma TechIndexOf(k: nat)
    requires k < |AllTech|
    ensures TechIndex(AllTech[k]) == k
  {
  }

  /**
   * The commit lines of `git log` output: the stripped output split at
   * newlines, empty lines dropped.
   */
  function CommitLines(stdout: string): (lines: seq<string>)
    ensures forall i :: 0 <= i < |lines| ==> lines[i] != [] && '\n' !in lines[i]
  {
    var pieces := Split(Strip(stdout), '\n');
    var lines := NonEmpty(pieces);
    assert forall i :: 0 <= i < |lines| ==> '\n' !in lines[i] by {
      forall i | 0 <= i < |lines| ensures '\n' !in lines[i] {
        var k :| 0 <= k < |pieces| && pieces[k] == lines[i];
      }
    }
    lines
  }

  /** Joining commit lines with newlines and parsing them back gives the same lines. */
  lemma CommitLinesRoundTrip(lines: seq<string>)
    requires |lines| >= 1
    requires forall i :: 0 <= i < |lines| ==> lines[i] != [] && '\n' !in lines[i]
    requires !IsSpace(lines[0][0]) && !IsSpace(lines[|lines| - 1][|lines[|lines| - 1]| - 1])
    ensures CommitLines(Join(lines, '\n')) == lines
  {
    JoinEnds(lines, '\n');
    StripUnchanged(Join(lines, '\n'));
    SplitJoin(lines, '\n');
    NonEmptyKeepsAll(lines);
  }

  /** Index of the first occurrence of `c` in `s`. */
  function IndexOf(s: string, c: char): (k: nat)
    requires c in s
    ensures k < |s| && s[k] == c && c !in s[..k]
  {
    if s[0] == c then 0 else 1 + IndexOf(s[1..], c)
  }

  /** `commit.split(' ', 1)[1] if ' ' in commit else commit`. */
  function MessageOf(line: string): string {
    if ' ' in line then line[IndexOf(line, ' ') + 1..] else line
  }

  /**
   * A line with a space is a space-free prefix, a space and the message; a
   * line without one is its own message.
   */
  lemma MessageOfSplit(line: string)
    ensures ' ' in line ==>
      var k := |line| - |MessageOf(line)| - 1;
      0 <= k && line == line[..k] + " " + MessageOf(line) && ' ' !in line[..k]
    ensures ' ' !in line ==> MessageOf(line) == line
  {
    if ' ' in line {
      var k := IndexOf(line, ' ');
      assert line == line[..k] + " " + line[k + 1..];
    }
  }

  /** A `--oneline` line is an abbreviated hash, a space and the subject: the message is the subject. */
  lemma MessageOfOneline(hash: string, subject: string)
    requires ' ' !in hash
    ensures MessageOf(hash + " " + subject) == subject
  {
    var line := hash + " " + subject;
    assert line[|hash|] == ' ';
    var k := IndexOf(line, ' ');
    assert forall j :: 0 <= j < |hash| ==> line[j] == hash[j];
    assert k == |hash|;
    assert line[|hash| + 1..] == subject;
  }

  function Messages(lines: seq<string>): (msgs: seq<string>)
    ensures |msgs| == |lines|
    ensures forall i :: 0 <= i < |lines| ==> msgs[i] == MessageOf(lines[i])
  {
    seq(|lines|, i requires 0 <= i < |lines| => MessageOf(lines[i]))
  }

  predicate IsRefactor(message: string) {
    ContainsAny(Lower(message), RefactorKeywords)
  }

  predicate MentionsTech(message: string, t: Tech) {
    ContainsAny(Lower(message), TechKeywords(t))
  }

  /** The messages kept as refactor commits, in input order. */
  function RefactorMessages(msgs: seq<string>): (r: seq<string>)
    ensures |r| <= |msgs|
    decreases |msgs|
  {
    if msgs == [] then []
    else
      var init := msgs[..|msgs| - 1];
      var last := msgs[|msgs| - 1];
      RefactorMessages(init) + (if IsRefactor(last) then [last] else [])
  }

  /** A message is kept exactly when it is one of the input messages and a refactor. */
  lemma {:induction false} RefactorMessagesMembers(msgs: seq<string>, m: string)
    ensures m in RefactorMessages(msgs) <==> m in msgs && IsRefactor(m)
    decreases |msgs|
  {
    if msgs != [] {
      var init := msgs[..|msgs| - 1];
      RefactorMessagesMembers(init, m);
      assert msgs == init + [msgs[|msgs| - 1]];
    }
  }

  /** The number of messages that mention technology `t`: one per message at most. */
  function TechCount(msgs: seq<string>, t: Tech): nat
    decreases |msgs|
  {
    if msgs == [] then 0
    else TechCount(msgs[..|msgs| - 1], t) + (if MentionsTech(msgs[|msgs| - 1], t) then 1 else 0)
  }

  /** Refactor filtering processes the messages one after another, in order. */
  lemma {:induction false} RefactorMessagesAppend(a: seq<string>, b: seq<string>)
    ensures RefactorMessages(a + b) == RefactorMessages(a) + RefactorMessages(b)
    decreases |b|
  {
    if b == [] {
      assert a + b == a;
    } else {
      var b' := b[..|b| - 1];
      assert (a + b)[..|a + b| - 1] == a + b';
      assert (a + b)[|a + b| - 1] == b[|b| - 1];
      RefactorMessagesAppend(a, b');
      var tail := if IsRefactor(b[|b| - 1]) then [b[|b| - 1]] else [];
      assert RefactorMessages(a + b) == RefactorMessages(a + b') + tail;
      assert RefactorMessages(b) == RefactorMessages(b') + tail;
    }
  }

  /** A technology counter grows by at most one per commit: `tech_X <= total_commits`. */
  lemma {:induction false} TechCountBound(msgs: seq<string>, t: Tech)
    ensures TechCount(msgs, t) <= |msgs|
    ensures TechCount(msgs, t) == |msgs| <==> forall i :: 0 <= i < |msgs| ==> MentionsTech(msgs[i], t)
    decreases |msgs|
  {
    if msgs != [] {
      var init := msgs[..|msgs| - 1];
      TechCountBound(init, t);
      assert forall i :: 0 <= i < |init| ==> init[i] == msgs[i];
    }
  }

  lemma {:induction false} TechCountAppend(a: seq<string>, b: seq<string>, t: Tech)
    ensures TechCount(a + b, t) == TechCount(a, t) + TechCount(b, t)
    decreases |b|
  {
    if b == [] {
      assert a + b == a;
    } else {
      var b' := b[..|b| - 1];
      assert (a + b)[..|a + b| - 1] == a + b';
      assert (a + b)[|a + b| - 1] == b[|b| - 1];
      TechCountAppend(a, b', t);
    }
  }

  /** A message naming a technology keyword in any letter case counts for it. */
  lemma TechMentionInAnyCase(message: string, t: Tech, k: nat, w: string, i: int)
    requires k < |TechKeywords(t)|
    requires MatchesAt(message, w, i) && Lower(w) == TechKeywords(t)[k]
    ensures MentionsTech(message, t)
  {
    MatchInAnyCase(message, w, i, TechKeywords(t)[k]);
  }

  /** The keyword "ts" is a plain substring test, so a message about tests also counts as TypeScript. */
  lemma TestsCountAsTypeScript()
    ensures MentionsTech("add unit tests", TypeScript) && MentionsTech("add unit tests", Testing)
  {
    var s := Lower("add unit tests");
    assert s == "add unit tests";
    assert TechKeywords(TypeScript)[1] == "ts" && MatchesAt(s, "ts", 12);
    assert Contains(s, TechKeywords(TypeScript)[1]);
    assert TechKeywords(Testing)[0] == "test" && MatchesAt(s, "test", 9);
    assert Contains(s, TechKeywords(Testing)[0]);
  }
}

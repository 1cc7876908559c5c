/**
 * Theme classification of pull-request review comments
 * (skills/guideline-refresher/refresh_guidelines.py, analyze_pr_reviews):
 * which pull requests touch the area, which review bodies are read, which of
 * the eight themes a body matches, and which truncated samples are kept.
 */
module Reviews {
  import opened Text
  import opened Lines

  /** The review themes, in the order the source's pattern dictionary lists them. */
  datatype Theme =
    | CodeOrganization | TypeSafety | Testing | Performance
    | ErrorHandling | Naming | Documentation | Accessibility

  const AllThemes: seq<Theme> :=
    [CodeOrganization, TypeSafety, Testing, Performance, ErrorHandling, Naming, Documentation, Accessibility]

  /** Length a stored sample is cut to (`body[:300]`). */
  const SampleLength: nat := 300

  /** Number of samples kept per theme. */
  const MaxSamples: nat := 5

  /** `most_common(10)`: the number of themes kept in the stored theme counts. */
  const TopThemes: nat := 10

  function ThemeKeywords(t: Theme): seq<string> {
    match t
    case CodeOrganization => ["structure", "organize", "directory", "folder", "separate", "split"]
    case TypeSafety => ["type", "typescript", "interface", "any", "unknown"]
    case Testing => ["test", "coverage", "jest", "spec", "unit test", "integration test"]
    case Performance => ["performance", "optimize", "slow", "cache", "memo", "lazy"]
    case ErrorHandling => ["error", "exception", "catch", "try", "throw"]
    case Naming => ["naming", "rename", "name is", "called", "variable name"]
    case Documentation => ["document", "comment", "readme", "docs", "jsdoc"]
    case Accessibility => ["accessibility", "a11y", "aria", "screen reader"]
  }

  /** Position of `t` in `AllThemes`. */
  function ThemeIndex(t: Theme): (k: nat)
    ensures k < |AllThemes| && AllThemes[k] == t
  {
    match t
    case CodeOrganization => 0
    case TypeSafety => 1
    case Testing => 2
    case Performance => 3
    case ErrorHandling => 4
    case Naming => 5
    case Documentation => 6
    case Accessibility => 7
  }

  /** `ThemeIndex` inverts indexing into `AllThemes`. */
  lemma ThemeIndexOf(k: nat)
    requires k < |AllThemes|
    ensures ThemeIndex(AllThemes[k]) == k
  {
  }

  /** A review; a missing or null body is the empty string. */
  datatype Review = Review(body: string)

  /**
   * A merged pull request as listed by the review tool: its reviews and the
   * paths of the files it changes (a file without a path has path "").
   */
  datatype PullRequest = PullRequest(reviews: seq<Review>, files: seq<string>)

  /** `any(area in f.get('path', '') for f in files)`. */
  predicate TouchesArea(pr: PullRequest, area: string) {
    exists i | 0 <= i < |pr.files| :: Contains(pr.files[i], area)
  }

  /** The pull requests that touch the area, in input order. */
  function RelevantPrs(prs: seq<PullRequest>, area: string): (r: seq<PullRequest>)
    ensures |r| <= |prs|
    decreases |prs|
  {
    if prs == [] then []
    else
      var init := prs[..|prs| - 1];
      var last := prs[|prs| - 1];
      RelevantPrs(init, area) + (if TouchesArea(last, area) then [last] else [])
  }

  /** A pull request is kept exactly when it is one of the input ones and touches the area. */
  lemma {:induction false} RelevantPrsMembers(prs: seq<PullRequest>, area: string, p: PullRequest)
    ensures p in RelevantPrs(prs, area) <==> p in prs && TouchesArea(p, area)
    decreases |prs|
  {
    if prs != [] {
      var init := prs[..|prs| - 1];
      RelevantPrsMembers(init, area, p);
      assert prs == init + [prs[|prs| - 1]];
    }
  }

  function BodiesOf(pr: PullRequest): (bodies: seq<string>)
    ensures |bodies| == |pr.reviews|
    ensures forall i :: 0 <= i < |bodies| ==> bodies[i] == pr.reviews[i].body
  {
    seq(|pr.reviews|, i requires 0 <= i < |pr.reviews| => pr.reviews[i].body)
  }

  /** Every review body of the given pull requests, in the order the loops visit them. */
  function ReviewBodies(prs: seq<PullRequest>): seq<string>
    decreases |prs|
  {
    if prs == [] then [] else ReviewBodies(prs[..|prs| - 1]) + BodiesOf(prs[|prs| - 1])
  }

  predicate ThemeMatches(body: string, t: Theme) {
    ContainsAny(Lower(body), ThemeKeywords(t))
  }

  /** A body counts for a theme when it is not empty and matches one of the theme's patterns. */
  predicate CountsFor(body: string, t: Theme) {
    body != [] && ThemeMatches(body, t)
  }

  /** The theme's counter after the loop: the number of bodies that count for it. */
  function ThemeCount(bodies: seq<string>, t: Theme): nat
    decreases |bodies|
  {
    if bodies == [] then 0
    else ThemeCount(bodies[..|bodies| - 1], t) + (if CountsFor(bodies[|bodies| - 1], t) then 1 else 0)
  }

  /**
   * The samples a theme would collect without a cap: one per counting body,
   * in input order, each the body's first 300 characters.
   */
  function ThemeSamples(bodies: seq<string>, t: Theme): (r: seq<string>)
    ensures |r| == ThemeCount(bodies, t)
    ensures forall i :: 0 <= i < |r| ==> |r[i]| <= SampleLength
    ensures forall i :: 0 <= i < |r| ==>
      exists j :: 0 <= j < |bodies| && CountsFor(bodies[j], t) && r[i] == Take(bodies[j], SampleLength)
    decreases |bodies|
  {
    if bodies == [] then []
    else
      var init := bodies[..|bodies| - 1];
      var last := bodies[|bodies| - 1];
      var r := ThemeSamples(init, t) + (if CountsFor(last, t) then [Take(last, SampleLength)] else []);
      assert forall j :: 0 <= j < |init| ==> init[j] == bodies[j];
      r
  }

  /**
   * The stored feedback list of a theme after the loop, given the list it
   * had before: samples are appended while it holds fewer than five.
   */
  function Feedback(prior: seq<string>, bodies: seq<string>, t: Theme): (r: seq<string>)
    ensures |prior| <= MaxSamples ==> |prior| <= |r| <= MaxSamples && r[..|prior|] == prior
  {
    Take(prior + ThemeSamples(bodies, t), MaxSamples)
  }

  /** Adding one more body to the processed ones adds at most one sample, and only below the cap. */
  lemma FeedbackStep(prior: seq<string>, bodies: seq<string>, b: string, t: Theme)
    ensures Feedback(prior, bodies + [b], t) ==
      if CountsFor(b, t) && |Feedback(prior, bodies, t)| < MaxSamples
      then Feedback(prior, bodies, t) + [Take(b, SampleLength)]
      else Feedback(prior, bodies, t)
  {
    var all := bodies + [b];
    assert all[..|all| - 1] == bodies;
    var s := prior + ThemeSamples(bodies, t);
    if CountsFor(b, t) {
      assert prior + ThemeSamples(all, t) == s + [Take(b, SampleLength)];
      TakeSnoc(s, Take(b, SampleLength), MaxSamples);
    } else {
      assert ThemeSamples(all, t) == ThemeSamples(bodies, t);
    }
  }

  /** The number of non-empty bodies. */
  function FilledCount(bodies: seq<string>): nat
    decreases |bodies|
  {
    if bodies == [] then 0
    else FilledCount(bodies[..|bodies| - 1]) + (if bodies[|bodies| - 1] != [] then 1 else 0)
  }

  /** Each non-empty body adds at most one to a theme; empty bodies add nothing. */
  lemma {:induction false} ThemeCountBound(bodies: seq<string>, t: Theme)
    ensures ThemeCount(bodies, t) <= FilledCount(bodies) <= |bodies|
    decreases |bodies|
  {
    if bodies != [] {
      ThemeCountBound(bodies[..|bodies| - 1], t);
    }
  }

  /** Dropping the empty bodies first changes no theme count. */
  lemma {:induction false} EmptyBodiesSkipped(bodies: seq<string>, t: Theme)
    ensures ThemeCount(NonEmpty(bodies), t) == ThemeCount(bodies, t)
    ensures FilledCount(bodies) == |NonEmpty(bodies)|
    decreases |bodies|
  {
    if bodies != [] {
      var init := bodies[..|bodies| - 1];
      EmptyBodiesSkipped(init, t);
      var last := bodies[|bodies| - 1];
      if last != [] {
        var n := NonEmpty(init) + [last];
        assert n[..|n| - 1] == NonEmpty(init);
      }
    }
  }

  /** The theme counts of consecutive batches of bodies add up. */
  lemma {:induction false} ThemeCountAppend(a: seq<string>, b: seq<string>, t: Theme)
    ensures ThemeCount(a + b, t) == ThemeCount(a, t) + ThemeCount(b, t)
    decreases |b|
  {
    if b == [] {
      assert a + b == a;
    } else {
      var b' := b[..|b| - 1];
      assert (a + b)[..|a + b| - 1] == a + b';
      assert (a + b)[|a + b| - 1] == b[|b| - 1];
      ThemeCountAppend(a, b', t);
    }
  }

  /** A review naming a theme pattern in any letter case counts for the theme. */
  lemma ThemeMatchInAnyCase(body: string, t: Theme, k: nat, w: string, i: int)
    requires k < |ThemeKeywords(t)|
    requires MatchesAt(body, w, i) && Lower(w) == ThemeKeywords(t)[k]
    ensures CountsFor(body, t)
  {
    MatchInAnyCase(body, w, i, ThemeKeywords(t)[k]);
  }

  /**
   * There are eight themes, fewer than the ten `most_common` keeps, so the
   * stored theme counts are the whole counter.
   */
  lemma ThemesFitTopTen(m: map<Theme, nat>)
    ensures |m.Keys| <= |AllThemes| < TopThemes
  {
    var all := {CodeOrganization, TypeSafety, Testing, Performance, ErrorHandling, Naming, Documentation, Accessibility};
    assert m.Keys <= all by {
      forall t | t in m.Keys ensures t in all {
        match t
        case CodeOrganization =>
        case TypeSafety =>
        case Testing =>
        case Performance =>
        case ErrorHandling =>
        case Naming =>
        case Documentation =>
        case Accessibility =>
      }
    }
    assert |all| == 8;
    SubsetSize(m.Keys, all);
  }

  lemma {:induction false} SubsetSize<T>(a: set<T>, b: set<T>)
    requires a <= b
    ensures |a| <= |b|
    decreases |b|
  {
    if b != {} {
      var x :| x in b;
      SubsetSize(a - {x}, b - {x});
    }
  }
}

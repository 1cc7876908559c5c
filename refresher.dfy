/**
 * The `GuidelineRefresher` object (skills/guideline-refresher/refresh_guidelines.py):
 * three analyses that accumulate metrics and findings in its fields, and the
 * generation of the updated guidelines from them.
 *
 * The outputs of `git log` and `gh pr list`, the directory walk and the
 * previous guidelines file are parameters; None stands for a failed command
 * or a missing file.
 */
module Refresher {
  import opened Text
  import opened Counters
  import Lines
  import Commits
  import Reviews
  import Naming
  import FileTypes
  import Evolution
  import Recommendations
  import opened Sections
  import Changes

  /** `area.replace('/', '_').replace('\\', '_')`: the file name of an area's guidelines, before ".md". */
  function AreaFileName(area: string): (name: string)
    ensures |name| == |area|
    ensures '/' !in name && '\\' !in name
    ensures forall i :: 0 <= i < |area| ==> name[i] == (if area[i] == '/' || area[i] == '\\' then '_' else area[i])
  {
    ReplaceChar(ReplaceChar(area, '/', '_'), '\\', '_')
  }

  /** Normalising a normalised name changes nothing. */
  lemma AreaFileNameIdempotent(area: string)
    ensures AreaFileName(AreaFileName(area)) == AreaFileName(area)
  {
  }

  /** Two areas differing only in separator against underscore share one guidelines file. */
  lemma AreaFileNameCollides()
    ensures AreaFileName("src/app") == AreaFileName("src_app") == AreaFileName("src\\app") == "src_app"
  {
  }

  /** The feedback samples stored for a theme; a theme never written has none. */
  function FeedbackOf(feedback: map<Reviews.Theme, seq<string>>, t: Reviews.Theme): seq<string> {
    if t in feedback then feedback[t] else []
  }

  /** A theme's samples after a body is seen: it is stored when it matched and fewer than five are held. */
  function Sampled(feedback: map<Reviews.Theme, seq<string>>, t: Reviews.Theme, body: string, matched: bool): seq<string> {
    if matched && |FeedbackOf(feedback, t)| < Reviews.MaxSamples
    then FeedbackOf(feedback, t) + [Take(body, Reviews.SampleLength)]
    else FeedbackOf(feedback, t)
  }

  /** At most five samples per theme. */
  ghost predicate SamplesBounded(feedback: map<Reviews.Theme, seq<string>>) {
    forall t :: t in feedback ==> |feedback[t]| <= Reviews.MaxSamples
  }

  /** Whether `message` mentions each technology, in the order of `AllTech`. */
  function TechHits(message: string): (hits: seq<bool>)
    ensures |hits| == |Commits.AllTech|
    ensures forall j :: 0 <= j < |hits| ==> hits[j] == Commits.MentionsTech(message, Commits.AllTech[j])
  {
    seq(|Commits.AllTech|, j requires 0 <= j < |Commits.AllTech| => Commits.MentionsTech(message, Commits.AllTech[j]))
  }

  /**
   * The technology counters after the first `k` passes of the technology
   * loop, where `hits[j]` says whether the message mentions the `j`-th one.
   */
  function TechUpTo(counts: map<Commits.Tech, nat>, hits: seq<bool>, k: nat): map<Commits.Tech, nat>
    requires k <= |hits| == |Commits.AllTech|
  {
    if k == 0 then counts
    else
      var prev := TechUpTo(counts, hits, k - 1);
      if hits[k - 1] then Inc(prev, Commits.AllTech[k - 1]) else prev
  }

  /** After `k` passes, a technology's counter has risen by one exactly when it is among the first `k` and mentioned. */
  lemma {:induction false} TechCountUpTo(counts: map<Commits.Tech, nat>, hits: seq<bool>, k: nat, t: Commits.Tech)
    requires k <= |hits| == |Commits.AllTech|
    ensures Get(TechUpTo(counts, hits, k), t) ==
      Get(counts, t) + (if Commits.TechIndex(t) < k && hits[Commits.TechIndex(t)] then 1 else 0)
  {
    if k > 0 {
      TechCountUpTo(counts, hits, k - 1, t);
      Commits.TechIndexOf(k - 1);
    }
  }

  /** The passes only add positive counts. */
  lemma {:induction false} TechUpToPositive(counts: map<Commits.Tech, nat>, hits: seq<bool>, k: nat)
    requires k <= |hits| == |Commits.AllTech| && Positive(counts)
    ensures Positive(TechUpTo(counts, hits, k))
  {
    if k > 0 {
      TechUpToPositive(counts, hits, k - 1);
    }
  }

  /**
   * One pass of the technology loop: the counter of `tech` rises by one when
   * `message` mentions it. The fold `TechUpTo` is built from this step,
   * and `TechLoopEffect` states what the whole loop does.
   */
  method PassTech(counts: map<Commits.Tech, nat>, message: string, tech: Commits.Tech) returns (counts': map<Commits.Tech, nat>)
    ensures counts' == if Commits.MentionsTech(message, tech) then Inc(counts, tech) else counts
  {
    counts' := counts;
    if Commits.MentionsTech(message, tech) {
      counts' := Inc(counts', tech);
    }
  }

  /** The inner loop over the technologies: the counter of each one `message` mentions rises by one. */
  method CountTechMentions(counts: map<Commits.Tech, nat>, message: string) returns (counts': map<Commits.Tech, nat>)
    ensures counts' == TechUpTo(counts, TechHits(message), |Commits.AllTech|)
  {
    ghost var hits := TechHits(message);
    counts' := counts;
    var k := 0;
    while k < |Commits.AllTech|
      invariant 0 <= k <= |Commits.AllTech|
      invariant counts' == TechUpTo(counts, hits, k)
    {
      counts' := PassTech(counts', message, Commits.AllTech[k]);
      k := k + 1;
    }
  }

  /** The technology loop raises by one exactly the counters of the technologies the message mentions. */
  lemma TechLoopEffect(counts: map<Commits.Tech, nat>, message: string, t: Commits.Tech)
    ensures Get(TechUpTo(counts, TechHits(message), |Commits.AllTech|), t) ==
      Get(counts, t) + (if Commits.MentionsTech(message, t) then 1 else 0)
  {
    TechCountUpTo(counts, TechHits(message), |Commits.AllTech|, t);
  }

  /** One pass of the commit loop: a refactor message is kept, then the technology loop runs on it. */
  function ScanStep(refactors: seq<string>, counts: map<Commits.Tech, nat>, message: string)
    : (seq<string>, map<Commits.Tech, nat>)
  {
    (refactors + (if Commits.IsRefactor(message) then [message] else []),
     TechUpTo(counts, TechHits(message), |Commits.AllTech|))
  }

  /** The refactor messages and the technology counters after the commit loop has run over `msgs`, in order. */
  function Scanned(refactors: seq<string>, counts: map<Commits.Tech, nat>, msgs: seq<string>)
    : (seq<string>, map<Commits.Tech, nat>)
    decreases |msgs|
  {
    if msgs == [] then (refactors, counts)
    else
      var before := Scanned(refactors, counts, msgs[..|msgs| - 1]);
      ScanStep(before.0, before.1, msgs[|msgs| - 1])
  }

  lemma ScannedSnoc(refactors: seq<string>, counts: map<Commits.Tech, nat>, msgs: seq<string>, message: string)
    ensures Scanned(refactors, counts, msgs + [message]) ==
      ScanStep(Scanned(refactors, counts, msgs).0, Scanned(refactors, counts, msgs).1, message)
  {
    assert (msgs + [message])[..|msgs|] == msgs;
  }

  /** The commit loop appends exactly the refactor messages, in order. */
  lemma {:induction false} ScannedRefactors(refactors: seq<string>, counts: map<Commits.Tech, nat>, msgs: seq<string>)
    ensures Scanned(refactors, counts, msgs).0 == refactors + Commits.RefactorMessages(msgs)
    decreases |msgs|
  {
    if msgs != [] {
      ScannedRefactors(refactors, counts, msgs[..|msgs| - 1]);
    }
  }

  /** Each counter has grown by the number of messages that mention its technology. */
  lemma {:induction false} ScannedCounts(refactors: seq<string>, counts: map<Commits.Tech, nat>, msgs: seq<string>, t: Commits.Tech)
    ensures Get(Scanned(refactors, counts, msgs).1, t) == Get(counts, t) + Commits.TechCount(msgs, t)
    decreases |msgs|
  {
    if msgs != [] {
      var init := msgs[..|msgs| - 1];
      ScannedCounts(refactors, counts, init, t);
      TechLoopEffect(Scanned(refactors, counts, init).1, msgs[|msgs| - 1], t);
    }
  }

  /** The commit loop only adds positive counts. */
  lemma {:induction false} ScannedPositive(refactors: seq<string>, counts: map<Commits.Tech, nat>, msgs: seq<string>)
    requires Positive(counts)
    ensures Positive(Scanned(refactors, counts, msgs).1)
    decreases |msgs|
  {
    if msgs != [] {
      var init := msgs[..|msgs| - 1];
      ScannedPositive(refactors, counts, init);
      TechUpToPositive(Scanned(refactors, counts, init).1, TechHits(msgs[|msgs| - 1]), |Commits.AllTech|);
    }
  }

  /** The body of the commit loop: the refactor test, then the technology loop. */
  method ScanCommit(refactors: seq<string>, counts: map<Commits.Tech, nat>, message: string)
    returns (refactors': seq<string>, counts': map<Commits.Tech, nat>)
    ensures (refactors', counts') == ScanStep(refactors, counts, message)
  {
    if Commits.IsRefactor(message) {
      refactors' := refactors + [message];
    } else {
      refactors' := refactors;
      assert refactors + [] == refactors;
    }
    counts' := CountTechMentions(counts, message);
  }

  /**
   * The loop of `analyze_git_history` over the commit lines, on values:
   * each line's message is kept when it is a refactor and counted for
   * every technology it mentions.
   */
  method ScanCommits(commits: seq<string>, refactors: seq<string>, counts: map<Commits.Tech, nat>)
    returns (refactors': seq<string>, counts': map<Commits.Tech, nat>)
    ensures (refactors', counts') == Scanned(refactors, counts, Commits.Messages(commits))
  {
    ghost var msgs := Commits.Messages(commits);
    refactors', counts' := refactors, counts;
    var i := 0;
    while i < |commits|
      invariant 0 <= i <= |commits|
      invariant (refactors', counts') == Scanned(refactors, counts, msgs[..i])
    {
      var message := Commits.MessageOf(commits[i]);
      assert msgs[..i + 1] == msgs[..i] + [message];
      ScannedSnoc(refactors, counts, msgs[..i], message);
      refactors', counts' := ScanCommit(refactors', counts', message);
      i := i + 1;
    }
    assert msgs[..i] == msgs;
  }

  /** One pass of the theme loop: `hit` says whether `body` matched `theme`. */
  function TestTheme(themes: map<Reviews.Theme, nat>, feedback: map<Reviews.Theme, seq<string>>, body: string,
                     theme: Reviews.Theme, hit: bool): (map<Reviews.Theme, nat>, map<Reviews.Theme, seq<string>>)
  {
    if hit then
      (Inc(themes, theme),
       if |FeedbackOf(feedback, theme)| < Reviews.MaxSamples
       then feedback[theme := FeedbackOf(feedback, theme) + [Take(body, Reviews.SampleLength)]]
       else feedback)
    else (themes, feedback)
  }

  /**
   * The counter and the samples after the first `k` passes of the theme
   * loop, where `hits[j]` says whether the body matched the `j`-th theme.
   */
  function ThemesUpTo(themes: map<Reviews.Theme, nat>, feedback: map<Reviews.Theme, seq<string>>, body: string,
                      hits: seq<bool>, k: nat): (map<Reviews.Theme, nat>, map<Reviews.Theme, seq<string>>)
    requires k <= |hits| == |Reviews.AllThemes|
  {
    if k == 0 then (themes, feedback)
    else
      var prev := ThemesUpTo(themes, feedback, body, hits, k - 1);
      TestTheme(prev.0, prev.1, body, Reviews.AllThemes[k - 1], hits[k - 1])
  }

  /** After `k` passes, a theme's counter has risen by one exactly when it is among the first `k` and matched. */
  lemma {:induction false} ThemeCountUpTo(themes: map<Reviews.Theme, nat>, feedback: map<Reviews.Theme, seq<string>>, body: string,
                                          hits: seq<bool>, k: nat, t: Reviews.Theme)
    requires k <= |hits| == |Reviews.AllThemes|
    ensures Get(ThemesUpTo(themes, feedback, body, hits, k).0, t) ==
      Get(themes, t) + (if Reviews.ThemeIndex(t) < k && hits[Reviews.ThemeIndex(t)] then 1 else 0)
  {
    if k > 0 {
      ThemeCountUpTo(themes, feedback, body, hits, k - 1, t);
      Reviews.ThemeIndexOf(k - 1);
    }
  }

  /** The passes only add positive counts. */
  lemma {:induction false} ThemesUpToPositive(themes: map<Reviews.Theme, nat>, feedback: map<Reviews.Theme, seq<string>>, body: string,
                                              hits: seq<bool>, k: nat)
    requires k <= |hits| == |Reviews.AllThemes| && Positive(themes)
    ensures Positive(ThemesUpTo(themes, feedback, body, hits, k).0)
  {
    if k > 0 {
      ThemesUpToPositive(themes, feedback, body, hits, k - 1);
    }
  }

  /** After `k` passes, a theme among the first `k` that matched has stored the body unless it already held five. */
  lemma {:induction false} ThemeSampleUpTo(themes: map<Reviews.Theme, nat>, feedback: map<Reviews.Theme, seq<string>>, body: string,
                                           hits: seq<bool>, k: nat, t: Reviews.Theme)
    requires k <= |hits| == |Reviews.AllThemes|
    ensures FeedbackOf(ThemesUpTo(themes, feedback, body, hits, k).1, t) ==
      Sampled(feedback, t, body, Reviews.ThemeIndex(t) < k && hits[Reviews.ThemeIndex(t)])
  {
    if k > 0 {
      ThemeSampleUpTo(themes, feedback, body, hits, k - 1, t);
      var prev := ThemesUpTo(themes, feedback, body, hits, k - 1);
      TestThemeSample(prev.0, prev.1, body, Reviews.AllThemes[k - 1], hits[k - 1], t);
      Reviews.ThemeIndexOf(k - 1);
      if Reviews.ThemeIndex(t) == k - 1 {
        SampledSame(prev.1, feedback, t, body, hits[k - 1]);
      }
    }
  }

  /** The samples stored for `t` depend only on those `t` already held. */
  lemma SampledSame(f: map<Reviews.Theme, seq<string>>, g: map<Reviews.Theme, seq<string>>, t: Reviews.Theme, body: string, hit: bool)
    requires FeedbackOf(f, t) == FeedbackOf(g, t)
    ensures Sampled(f, t, body, hit) == Sampled(g, t, body, hit)
  {
  }

  /** One pass of the theme loop stores a sample only for its own theme. */
  lemma TestThemeSample(themes: map<Reviews.Theme, nat>, feedback: map<Reviews.Theme, seq<string>>, body: string,
                        theme: Reviews.Theme, hit: bool, t: Reviews.Theme)
    ensures FeedbackOf(TestTheme(themes, feedback, body, theme, hit).1, t) ==
      if theme == t then Sampled(feedback, t, body, hit) else FeedbackOf(feedback, t)
  {
  }

  /** The passes never store a sixth sample. */
  lemma {:induction false} ThemesUpToBounded(themes: map<Reviews.Theme, nat>, feedback: map<Reviews.Theme, seq<string>>, body: string,
                                             hits: seq<bool>, k: nat)
    requires k <= |hits| == |Reviews.AllThemes| && SamplesBounded(feedback)
    ensures SamplesBounded(ThemesUpTo(themes, feedback, body, hits, k).1)
  {
    if k > 0 {
      ThemesUpToBounded(themes, feedback, body, hits, k - 1);
    }
  }

  /**
   * The effect of testing one body against every theme: each theme it
   * matches has its counter raised by one and, below five samples, the
   * body's first 300 characters stored; every other theme is untouched.
   */
  ghost predicate Recorded(themes: map<Reviews.Theme, nat>, feedback: map<Reviews.Theme, seq<string>>, body: string,
                           themes': map<Reviews.Theme, nat>, feedback': map<Reviews.Theme, seq<string>>) {
    forall t ::
      var hit := Reviews.ThemeMatches(body, t);
      Get(themes', t) == Get(themes, t) + (if hit then 1 else 0) && FeedbackOf(feedback', t) == Sampled(feedback, t, body, hit)
  }

  /** Whether `body` matches each theme, in the order of `AllThemes`. */
  function Hits(body: string): (hits: seq<bool>)
    ensures |hits| == |Reviews.AllThemes|
    ensures forall j :: 0 <= j < |hits| ==> hits[j] == Reviews.ThemeMatches(body, Reviews.AllThemes[j])
  {
    seq(|Reviews.AllThemes|, j requires 0 <= j < |Reviews.AllThemes| => Reviews.ThemeMatches(body, Reviews.AllThemes[j]))
  }

  /** The counter and the samples after one review body: an empty body is skipped, any other runs the theme loop. */
  function RecordBody(themes: map<Reviews.Theme, nat>, feedback: map<Reviews.Theme, seq<string>>, body: string)
    : (map<Reviews.Theme, nat>, map<Reviews.Theme, seq<string>>)
  {
    if body == [] then (themes, feedback) else ThemesUpTo(themes, feedback, body, Hits(body), |Reviews.AllThemes|)
  }

  /** The counter and the samples after the review bodies `bodies`, in order. */
  function RecordBodies(themes: map<Reviews.Theme, nat>, feedback: map<Reviews.Theme, seq<string>>, bodies: seq<string>)
    : (map<Reviews.Theme, nat>, map<Reviews.Theme, seq<string>>)
    decreases |bodies|
  {
    if bodies == [] then (themes, feedback)
    else
      var before := RecordBodies(themes, feedback, bodies[..|bodies| - 1]);
      RecordBody(before.0, before.1, bodies[|bodies| - 1])
  }

  /**
   * One pass of the theme loop, as the program runs it. It runs the step that
   * `TestTheme` specifies and `ThemesUpTo` folds; `RecordThemesEffect` states
   * what the whole loop does.
   */
  method PassTheme(themes: map<Reviews.Theme, nat>, feedback: map<Reviews.Theme, seq<string>>, body: string, theme: Reviews.Theme)
    returns (themes': map<Reviews.Theme, nat>, feedback': map<Reviews.Theme, seq<string>>)
    ensures (themes', feedback') == TestTheme(themes, feedback, body, theme, Reviews.ThemeMatches(body, theme))
  {
    themes', feedback' := themes, feedback;
    if Reviews.ThemeMatches(body, theme) {
      themes' := Inc(themes', theme);
      if |FeedbackOf(feedback', theme)| < Reviews.MaxSamples {
        feedback' := feedback'[theme := FeedbackOf(feedback', theme) + [Take(body, Reviews.SampleLength)]];
      }
    }
  }

  /**
   * The loop over the eight themes for one review body: each matching
   * theme's counter rises by one and, while the theme holds fewer than five
   * samples, the body's first 300 characters are stored.
   */
  method RecordThemes(themes: map<Reviews.Theme, nat>, feedback: map<Reviews.Theme, seq<string>>, body: string)
    returns (themes': map<Reviews.Theme, nat>, feedback': map<Reviews.Theme, seq<string>>)
    ensures (themes', feedback') == ThemesUpTo(themes, feedback, body, Hits(body), |Reviews.AllThemes|)
  {
    ghost var hits := Hits(body);
    themes', feedback' := themes, feedback;
    var k := 0;
    while k < |Reviews.AllThemes|
      invariant 0 <= k <= |Reviews.AllThemes|
      invariant (themes', feedback') == ThemesUpTo(themes, feedback, body, hits, k)
    {
      themes', feedback' := PassTheme(themes', feedback', body, Reviews.AllThemes[k]);
      k := k + 1;
    }
  }

  /**
   * The theme loop run on a body: the matching themes count it and store
   * it below five samples, counters stay positive and no theme holds more
   * than five samples.
   */
  lemma RecordThemesEffect(themes: map<Reviews.Theme, nat>, feedback: map<Reviews.Theme, seq<string>>, body: string)
    requires Positive(themes) && SamplesBounded(feedback)
    ensures var after := ThemesUpTo(themes, feedback, body, Hits(body), |Reviews.AllThemes|);
      && Positive(after.0) && SamplesBounded(after.1)
      && Recorded(themes, feedback, body, after.0, after.1)
  {
    var hits := Hits(body);
    ThemesUpToPositive(themes, feedback, body, hits, |hits|);
    ThemesUpToBounded(themes, feedback, body, hits, |hits|);
    ThemesUpToRecorded(themes, feedback, body, hits);
  }

  /** All passes of the theme loop, with the true match results, record the body. */
  lemma ThemesUpToRecorded(themes: map<Reviews.Theme, nat>, feedback: map<Reviews.Theme, seq<string>>, body: string, hits: seq<bool>)
    requires |hits| == |Reviews.AllThemes|
    requires forall j :: 0 <= j < |hits| ==> hits[j] == Reviews.ThemeMatches(body, Reviews.AllThemes[j])
    ensures var after := ThemesUpTo(themes, feedback, body, hits, |hits|);
      Recorded(themes, feedback, body, after.0, after.1)
  {
    var after := ThemesUpTo(themes, feedback, body, hits, |hits|);
    forall t
      ensures Get(after.0, t) == Get(themes, t) + (if Reviews.ThemeMatches(body, t) then 1 else 0)
      ensures FeedbackOf(after.1, t) == Sampled(feedback, t, body, Reviews.ThemeMatches(body, t))
    {
      ThemeCountUpTo(themes, feedback, body, hits, |hits|, t);
      ThemeSampleUpTo(themes, feedback, body, hits, |hits|, t);
    }
  }

  /**
   * The counter and the samples agree with the review bodies `seen` so far,
   * given the samples `prior` stored before the loops.
   */
  ghost predicate Agrees(themes: map<Reviews.Theme, nat>, feedback: map<Reviews.Theme, seq<string>>,
                         prior: map<Reviews.Theme, seq<string>>, seen: seq<string>) {
    && Positive(themes) && SamplesBounded(feedback)
    && (forall t :: Get(themes, t) == Reviews.ThemeCount(seen, t))
    && (forall t :: FeedbackOf(feedback, t) == Reviews.Feedback(FeedbackOf(prior, t), seen, t))
  }

  /**
   * One body of the review loops, for one theme: if the counter and the
   * samples agreed with the bodies seen before, they agree with the bodies
   * seen including this one, whether it was skipped (empty) or tested.
   */
  lemma ReviewStepTheme(themes: map<Reviews.Theme, nat>, feedback: map<Reviews.Theme, seq<string>>,
                        prior: seq<string>, before: seq<string>, body: string,
                        themes': map<Reviews.Theme, nat>, feedback': map<Reviews.Theme, seq<string>>, t: Reviews.Theme)
    requires Get(themes, t) == Reviews.ThemeCount(before, t)
    requires FeedbackOf(feedback, t) == Reviews.Feedback(prior, before, t)
    requires body == [] ==> themes' == themes && feedback' == feedback
    requires body != [] ==>
      && Get(themes', t) == Get(themes, t) + (if Reviews.ThemeMatches(body, t) then 1 else 0)
      && FeedbackOf(feedback', t) == Sampled(feedback, t, body, Reviews.ThemeMatches(body, t))
    ensures Get(themes', t) == Reviews.ThemeCount(before + [body], t)
    ensures FeedbackOf(feedback', t) == Reviews.Feedback(prior, before + [body], t)
  {
    Reviews.FeedbackStep(prior, before, body, t);
    Reviews.ThemeCountAppend(before, [body], t);
    assert [body][..0] == [];
  }

  /** One body of the review loops keeps the counter and the samples in agreement with the bodies seen. */
  lemma RecordBodyAgrees(themes: map<Reviews.Theme, nat>, feedback: map<Reviews.Theme, seq<string>>,
                         prior: map<Reviews.Theme, seq<string>>, before: seq<string>, body: string)
    requires Agrees(themes, feedback, prior, before)
    ensures var after := RecordBody(themes, feedback, body);
      Agrees(after.0, after.1, prior, before + [body])
  {
    var after := RecordBody(themes, feedback, body);
    if body != [] {
      RecordThemesEffect(themes, feedback, body);
    }
    forall t
      ensures Get(after.0, t) == Reviews.ThemeCount(before + [body], t)
      ensures FeedbackOf(after.1, t) == Reviews.Feedback(FeedbackOf(prior, t), before + [body], t)
    {
      ReviewStepTheme(themes, feedback, FeedbackOf(prior, t), before, body, after.0, after.1, t);
    }
  }

  /**
   * The review loops keep the counter and the samples in agreement with the
   * bodies seen: each theme counts the bodies that count for it, and its
   * samples are the prior ones topped up to five with the matching bodies.
   */
  lemma {:induction false} RecordBodiesAgrees(themes: map<Reviews.Theme, nat>, feedback: map<Reviews.Theme, seq<string>>,
                                              prior: map<Reviews.Theme, seq<string>>, seen: seq<string>, bodies: seq<string>)
    requires Agrees(themes, feedback, prior, seen)
    ensures var after := RecordBodies(themes, feedback, bodies);
      Agrees(after.0, after.1, prior, seen + bodies)
    decreases |bodies|
  {
    if bodies == [] {
      assert seen + bodies == seen;
    } else {
      var init := bodies[..|bodies| - 1];
      var before := RecordBodies(themes, feedback, init);
      RecordBodiesAgrees(themes, feedback, prior, seen, init);
      RecordBodyAgrees(before.0, before.1, prior, seen + init, bodies[|bodies| - 1]);
      assert seen + bodies == (seen + init) + [bodies[|bodies| - 1]];
    }
  }

  /** Running the loops over two runs of bodies is running them over the first, then the second. */
  lemma {:induction false} RecordBodiesAppend(themes: map<Reviews.Theme, nat>, feedback: map<Reviews.Theme, seq<string>>,
                                              a: seq<string>, b: seq<string>)
    ensures RecordBodies(themes, feedback, a + b) ==
      var mid := RecordBodies(themes, feedback, a);
      RecordBodies(mid.0, mid.1, b)
    decreases |b|
  {
    if b == [] {
      assert a + b == a;
    } else {
      var ab := a + b;
      RecordBodiesAppend(themes, feedback, a, b[..|b| - 1]);
      assert ab[..|ab| - 1] == a + b[..|b| - 1];
    }
  }

  /** The loop of `analyze_pr_reviews` over one pull request's reviews. */
  method RecordReviews(themes: map<Reviews.Theme, nat>, feedback: map<Reviews.Theme, seq<string>>, pr: Reviews.PullRequest)
    returns (themes': map<Reviews.Theme, nat>, feedback': map<Reviews.Theme, seq<string>>)
    ensures (themes', feedback') == RecordBodies(themes, feedback, Reviews.BodiesOf(pr))
  {
    themes', feedback' := themes, feedback;
    ghost var bodies := Reviews.BodiesOf(pr);
    var j := 0;
    while j < |pr.reviews|
      invariant 0 <= j <= |pr.reviews|
      invariant (themes', feedback') == RecordBodies(themes, feedback, bodies[..j])
    {
      var body := pr.reviews[j].body;
      RecordBodiesSnoc(themes, feedback, bodies, j);
      if body != [] {
        themes', feedback' := RecordThemes(themes', feedback', body);
      }
      j := j + 1;
    }
    assert bodies[..j] == bodies;
  }

  /** One more body of a list extends its record by one `RecordBody` step. */
  lemma RecordBodiesSnoc(themes: map<Reviews.Theme, nat>, feedback: map<Reviews.Theme, seq<string>>, bodies: seq<string>, k: nat)
    requires k < |bodies|
    ensures var before := RecordBodies(themes, feedback, bodies[..k]);
      RecordBodies(themes, feedback, bodies[..k + 1]) == RecordBody(before.0, before.1, bodies[k])
  {
    assert bodies[..k + 1][..k] == bodies[..k];
  }

  /**
   * The loops of `analyze_pr_reviews` over the relevant pull requests and
   * their reviews: empty bodies are skipped, every other body is tested
   * against the themes. Returns the theme counter and the samples, given
   * the samples stored before.
   */
  method ReviewThemes(relevant: seq<Reviews.PullRequest>, feedback: map<Reviews.Theme, seq<string>>)
    returns (themes: map<Reviews.Theme, nat>, feedback': map<Reviews.Theme, seq<string>>)
    requires SamplesBounded(feedback)
    ensures Positive(themes) && SamplesBounded(feedback')
    ensures forall t :: Get(themes, t) == Reviews.ThemeCount(Reviews.ReviewBodies(relevant), t)
    ensures forall t :: FeedbackOf(feedback', t) == Reviews.Feedback(FeedbackOf(feedback, t), Reviews.ReviewBodies(relevant), t)
  {
    themes, feedback' := map[], feedback;
    var i := 0;
    while i < |relevant|
      invariant 0 <= i <= |relevant|
      invariant (themes, feedback') == RecordBodies(map[], feedback, Reviews.ReviewBodies(relevant[..i]))
    {
      assert relevant[..i + 1][..i] == relevant[..i];
      RecordBodiesAppend(map[], feedback, Reviews.ReviewBodies(relevant[..i]), Reviews.BodiesOf(relevant[i]));
      themes, feedback' := RecordReviews(themes, feedback', relevant[i]);
      i := i + 1;
    }
    assert relevant[..i] == relevant;
    assert Agrees(map[], feedback, feedback, []);
    RecordBodiesAgrees(map[], feedback, feedback, [], Reviews.ReviewBodies(relevant));
    assert [] + Reviews.ReviewBodies(relevant) == Reviews.ReviewBodies(relevant);
  }

  /**
   * The first walk of `analyze_file_patterns`: paths with a hidden part are
   * skipped, every other regular file is counted, and its suffix, when it
   * has one, is counted in first-seen order.
   */
  method CountFiles(entries: seq<Naming.Entry>) returns (total: nat, tally: seq<FileTypes.SuffixCount>)
    ensures total == FileTypes.VisibleFileCount(entries)
    ensures tally == FileTypes.SuffixTally(entries)
  {
    total, tally := 0, [];
    var i := 0;
    while i < |entries|
      invariant 0 <= i <= |entries|
      invariant total == FileTypes.VisibleFileCount(entries[..i])
      invariant tally == FileTypes.SuffixTally(entries[..i])
    {
      var e := entries[i];
      SliceSnoc(entries, i);
      FileTypes.WalkStep(entries[..i], e);
      total, tally := VisitFile(total, tally, e);
      i := i + 1;
    }
    assert entries[..i] == entries;
  }

  /** The body of the first walk, for one path. */
  method VisitFile(total: nat, tally: seq<FileTypes.SuffixCount>, e: Naming.Entry)
    returns (total': nat, tally': seq<FileTypes.SuffixCount>)
    requires FileTypes.DistinctKeys(tally)
    ensures total' == total + (if FileTypes.IsVisibleFile(e) then 1 else 0)
    ensures tally' ==
      if FileTypes.IsVisibleFile(e) && Naming.Suffix(Naming.Name(e)) != []
      then FileTypes.Bump(tally, Naming.Suffix(Naming.Name(e)))
      else tally
  {
    total', tally' := total, tally;
    if !FileTypes.IsHidden(e) && e.isFile {
      total' := total + 1;
      var suffix := Naming.Suffix(Naming.Name(e));
      if suffix != [] {
        tally' := FileTypes.Bump(tally, suffix);
      }
    }
  }

  /** The `## ` sections of the generated document, in the order they are written. */
  datatype Section =
    | AnalysisSummary | TechnologyFocus | FileOrganization | NamingConventions | CodeReviewFocus
    | RecentEvolution | RecommendationsList | CodeExamples | ChangesFromPrevious

  /** The heading text of a section. */
  function Title(s: Section): string {
    match s
    case AnalysisSummary => "Analysis Summary"
    case TechnologyFocus => "Technology Focus"
    case FileOrganization => "File Organization"
    case NamingConventions => "Naming Conventions"
    case CodeReviewFocus => "Code Review Focus Areas"
    case RecentEvolution => "Recent Evolution"
    case RecommendationsList => "Recommendations"
    case CodeExamples => "Code Examples"
    case ChangesFromPrevious => "Changes from Previous Guidelines"
  }

  /** Every heading text is a non-empty single line. */
  lemma TitleIsLine(s: Section)
    ensures Title(s) != [] && '\n' !in Title(s)
  {
    match s
    case AnalysisSummary =>
      var t := "Analysis Summary";
      assert forall i | 0 <= i < |t| :: t[i] != '\n';
    case TechnologyFocus =>
      var t := "Technology Focus";
      assert forall i | 0 <= i < |t| :: t[i] != '\n';
    case FileOrganization =>
      var t := "File Organization";
      assert forall i | 0 <= i < |t| :: t[i] != '\n';
    case NamingConventions =>
      var t := "Naming Conventions";
      assert forall i | 0 <= i < |t| :: t[i] != '\n';
    case CodeReviewFocus =>
      var t := "Code Review Focus Areas";
      assert forall i | 0 <= i < |t| :: t[i] != '\n';
    case RecentEvolution =>
      var t := "Recent Evolution";
      assert forall i | 0 <= i < |t| :: t[i] != '\n';
    case RecommendationsList =>
      var t := "Recommendations";
      assert forall i | 0 <= i < |t| :: t[i] != '\n';
    case CodeExamples =>
      var t := "Code Examples";
      assert forall i | 0 <= i < |t| :: t[i] != '\n';
    case ChangesFromPrevious =>
      var t := "Changes from Previous Guidelines";
      assert forall i | 0 <= i < |t| :: t[i] != '\n';
  }

  /** Position of a section in the written order. */
  function Place(s: Section): (k: nat)
    ensures k < |AllSections| && AllSections[k] == s
  {
    match s
    case AnalysisSummary => 0
    case TechnologyFocus => 1
    case FileOrganization => 2
    case NamingConventions => 3
    case CodeReviewFocus => 4
    case RecentEvolution => 5
    case RecommendationsList => 6
    case CodeExamples => 7
    case ChangesFromPrevious => 8
  }

  const AllSections: seq<Section> :=
    [AnalysisSummary, TechnologyFocus, FileOrganization, NamingConventions, CodeReviewFocus,
     RecentEvolution, RecommendationsList, CodeExamples, ChangesFromPrevious]

  /** `Place` inverts indexing into `AllSections`. */
  lemma PlaceOf(k: nat)
    requires k < |AllSections|
    ensures Place(AllSections[k]) == k
  {
  }

  /** Which of the optional sections have data to show. */
  datatype Presence = Presence(tech: bool, files: bool, naming: bool, themes: bool, evolution: bool, recs: bool)

  /** Whether a section is written: the summary, code examples and changes always are. */
  predicate Written(s: Section, p: Presence) {
    match s
    case TechnologyFocus => p.tech
    case FileOrganization => p.files
    case NamingConventions => p.naming
    case CodeReviewFocus => p.themes
    case RecentEvolution => p.evolution
    case RecommendationsList => p.recs
    case _ => true
  }

  /** The written sections among the first `n`, in order. */
  function OutlineUpTo(p: Presence, n: nat): seq<Section>
    requires n <= |AllSections|
  {
    if n == 0 then []
    else OutlineUpTo(p, n - 1) + (if Written(AllSections[n - 1], p) then [AllSections[n - 1]] else [])
  }

  /** The sections of the generated document. */
  function Outline(p: Presence): seq<Section> {
    OutlineUpTo(p, |AllSections|)
  }

  /** Among the first `n` sections, exactly the written ones appear, in order. */
  lemma {:induction false} OutlineUpToShape(p: Presence, n: nat)
    requires n <= |AllSections|
    ensures forall s :: s in OutlineUpTo(p, n) <==> Place(s) < n && Written(s, p)
    ensures forall i, j :: 0 <= i < j < |OutlineUpTo(p, n)| ==> Place(OutlineUpTo(p, n)[i]) < Place(OutlineUpTo(p, n)[j])
    ensures forall i :: 0 <= i < |OutlineUpTo(p, n)| ==> Place(OutlineUpTo(p, n)[i]) < n
  {
    if n > 0 {
      OutlineUpToShape(p, n - 1);
      PlaceOf(n - 1);
    }
  }

  /**
   * The document's sections: the summary first, code examples and the
   * changes section last, and in between exactly the optional sections that
   * have data, in the fixed order, each once.
   */
  lemma OutlineShape(p: Presence)
    ensures var ss := Outline(p);
      && 3 <= |ss|
      && ss[0] == AnalysisSummary
      && ss[|ss| - 2] == CodeExamples && ss[|ss| - 1] == ChangesFromPrevious
      && (forall s :: s in ss <==> Written(s, p))
      && (forall i, j :: 0 <= i < j < |ss| ==> Place(ss[i]) < Place(ss[j]))
  {
    var ss := Outline(p);
    var middle := OutlineUpTo(p, 7);
    assert OutlineUpTo(p, 8) == middle + [CodeExamples];
    assert ss == middle + [CodeExamples] + [ChangesFromPrevious];
    OutlineUpToShape(p, 7);
    assert AnalysisSummary in middle;
    OutlineUpToShape(p, |AllSections|);
    var k :| 0 <= k < |ss| && ss[k] == AnalysisSummary;
    assert k == 0;
  }

  /** Every outline holds at least the summary. */
  lemma OutlineNonEmpty(p: Presence)
    ensures Outline(p) != []
  {
    OutlineShape(p);
  }

  /** The headings of a non-empty outline form a non-empty list of non-empty single lines. */
  lemma TitlesAreLines(ss: seq<Section>)
    requires ss != []
    ensures Titles(ss) != []
    ensures forall i :: 0 <= i < |Titles(ss)| ==> Titles(ss)[i] != [] && '\n' !in Titles(ss)[i]
  {
    forall i | 0 <= i < |ss| ensures Titles(ss)[i] != [] && '\n' !in Titles(ss)[i] {
      TitleIsLine(ss[i]);
    }
  }

  /** The heading texts of the sections. */
  function Titles(ss: seq<Section>): (hs: seq<string>)
    ensures |hs| == |ss|
    ensures forall i :: 0 <= i < |ss| ==> hs[i] == Title(ss[i])
  {
    seq(|ss|, i requires 0 <= i < |ss| => Title(ss[i]))
  }

  /**
   * The two walks of `analyze_file_patterns`: the visible file total, the
   * ten most common suffixes and the naming counter.
   */
  method FilePatterns(entries: seq<Naming.Entry>)
    returns (total: nat, top: seq<FileTypes.SuffixCount>, naming: map<Naming.Convention, nat>)
    ensures total == FileTypes.VisibleFileCount(entries)
    ensures top == FileTypes.MostCommon(FileTypes.SuffixTally(entries), FileTypes.TopFileTypes)
    ensures NamingAgrees(naming, Naming.NamedStems(entries))
  {
    var tally;
    total, tally := CountFiles(entries);
    top := FileTypes.MostCommon(tally, FileTypes.TopFileTypes);
    naming := CountNaming(entries);
  }

  /** The naming counter holds, per convention, the number of `stems` the cascade puts there, and nothing else. */
  ghost predicate NamingAgrees(naming: map<Naming.Convention, nat>, stems: seq<string>) {
    && (forall k :: 0 <= k < |stems| ==> stems[k] != [])
    && Positive(naming)
    && (naming == map[] <==> stems == [])
    && (forall c :: Get(naming, c) == Naming.ConventionCount(stems, c))
  }

  /** One path of the second walk keeps the counter in step with the classified stems. */
  lemma NamingStep(naming: map<Naming.Convention, nat>, stems: seq<string>, e: Naming.Entry, naming': map<Naming.Convention, nat>)
    requires NamingAgrees(naming, stems)
    requires Naming.IsNamedCodeFile(e) ==> naming' == Inc(naming, Naming.Classify(Naming.Stem(Naming.Name(e))))
    requires !Naming.IsNamedCodeFile(e) ==> naming' == naming
    ensures NamingAgrees(naming', stems + (if Naming.IsNamedCodeFile(e) then [Naming.Stem(Naming.Name(e))] else []))
  {
    if Naming.IsNamedCodeFile(e) {
      NamingSnoc(naming, stems, Naming.Stem(Naming.Name(e)), naming');
    } else {
      assert stems + [] == stems;
    }
  }

  /** A classified stem adds one to the count of its convention. */
  lemma NamingSnoc(naming: map<Naming.Convention, nat>, stems: seq<string>, name: string, naming': map<Naming.Convention, nat>)
    requires NamingAgrees(naming, stems) && name != []
    requires naming' == Inc(naming, Naming.Classify(name))
    ensures NamingAgrees(naming', stems + [name])
  {
    forall c
      ensures Naming.ConventionCount(stems + [name], c) == Naming.ConventionCount(stems, c) + (if Naming.Classify(name) == c then 1 else 0)
    {
      Naming.ConventionCountSnoc(stems, name, c);
    }
  }

  /**
   * The second walk of `analyze_file_patterns`: every code file whose stem
   * is not an index stem is classified by the naming cascade and counted.
   * Hidden paths are not skipped in this walk.
   */
  method CountNaming(entries: seq<Naming.Entry>) returns (naming: map<Naming.Convention, nat>)
    ensures Positive(naming)
    ensures naming == map[] <==> Naming.NamedStems(entries) == []
    ensures forall c :: Get(naming, c) == Naming.ConventionCount(Naming.NamedStems(entries), c)
    ensures NamingAgrees(naming, Naming.NamedStems(entries))
  {
    naming := map[];
    var i := 0;
    while i < |entries|
      invariant 0 <= i <= |entries|
      invariant NamingAgrees(naming, Naming.NamedStems(entries[..i]))
    {
      var e := entries[i];
      SliceSnoc(entries, i);
      Naming.NamedStemsSnoc(entries[..i], e);
      ghost var before := naming;
      naming := VisitCodeFile(naming, e);
      NamingStep(before, Naming.NamedStems(entries[..i]), e, naming);
      i := i + 1;
    }
    assert entries[..i] == entries;
  }

  /** The body of the second walk, for one path: a classified code file counts under its convention. */
  method VisitCodeFile(naming: map<Naming.Convention, nat>, e: Naming.Entry) returns (naming': map<Naming.Convention, nat>)
    ensures Naming.IsNamedCodeFile(e) ==> naming' == Inc(naming, Naming.Classify(Naming.Stem(Naming.Name(e))))
    ensures !Naming.IsNamedCodeFile(e) ==> naming' == naming
  {
    naming' := naming;
    if Naming.Suffix(Naming.Name(e)) in Naming.CodeExtensions && e.isFile {
      var name := Naming.Stem(Naming.Name(e));
      if !Naming.IsIndexStem(name) {
        naming' := Inc(naming, Naming.Classify(name));
      }
    }
  }

  /**
   * The generated document, reduced to what the analyses decide: the
   * summary numbers, the sections written, the refactor groups, the
   * recommendations, and the changes section (None for a first version).
   */
  datatype Guidelines = Guidelines(
    area: string,
    totalCommits: nat, relevantPrs: nat, totalFiles: nat,
    sections: seq<Section>,
    evolution: seq<Evolution.Group>,
    recommendations: seq<Recommendations.Recommendation>,
    changes: Option<seq<Block>>)

  class GuidelineRefresher {
    const area: string
    /** `metrics['total_commits']`, `metrics['relevant_prs']`, `metrics['total_files']`. */
    var totalCommits: nat
    var relevantPrs: nat
    var totalFiles: nat
    /** The `tech_*` counters of `metrics`. */
    var techCounts: map<Commits.Tech, nat>
    /** `findings['refactor_commits']`, the messages only. */
    var refactorCommits: seq<string>
    /** `findings['review_themes']`. */
    var reviewThemes: map<Reviews.Theme, nat>
    /** The `findings['<theme>_feedback']` lists. */
    var feedback: map<Reviews.Theme, seq<string>>
    /** `findings['file_types']`, largest counts first. */
    var fileTypes: seq<FileTypes.SuffixCount>
    /** `findings['naming_conventions']`. */
    var namingConventions: map<Naming.Convention, nat>

    /** Counters hold only keys that were incremented; at most five samples per theme. */
    ghost predicate Valid()
      reads this
    {
      && Positive(techCounts)
      && Positive(reviewThemes)
      && Positive(namingConventions)
      && SamplesBounded(feedback)
    }

    /** A refresher for `area` with no metrics and no findings. */
    constructor(area: string)
      ensures this.area == area
      ensures totalCommits == 0 && relevantPrs == 0 && totalFiles == 0
      ensures techCounts == map[] && refactorCommits == [] && reviewThemes == map[]
      ensures feedback == map[] && fileTypes == [] && namingConventions == map[]
      ensures Valid()
    {
      this.area := area;
      totalCommits := 0;
      relevantPrs := 0;
      totalFiles := 0;
      techCounts := map[];
      refactorCommits := [];
      reviewThemes := map[];
      feedback := map[];
      fileTypes := [];
      namingConventions := map[];
    }

    /**
     * `analyze_git_history`, given the standard output of `git log --oneline`
     * (None when the command fails): the commit count is set, refactor
     * messages are appended in order, and each technology counter rises by
     * the number of commits mentioning it.
     */
    method AnalyzeGitHistory(log: Option<string>)
      requires Valid()
      modifies this`totalCommits, this`refactorCommits, this`techCounts
      ensures Valid()
      ensures log.None? ==> totalCommits == 0 && techCounts == old(techCounts) && refactorCommits == old(refactorCommits)
      ensures log.Some? ==>
        var msgs := Commits.Messages(Commits.CommitLines(log.value));
        && totalCommits == |msgs|
        && refactorCommits == old(refactorCommits) + Commits.RefactorMessages(msgs)
        && (forall t :: Get(techCounts, t) == Get(old(techCounts), t) + Commits.TechCount(msgs, t))
    {
      if log.None? {
        totalCommits := 0;
      } else {
        AnalyzeCommits(Commits.CommitLines(log.value));
      }
    }

    /**
     * The loop of `analyze_git_history` over the commit lines: the commit
     * total, the refactor messages in order and, per technology, the number
     * of messages that mention it.
     */
    method AnalyzeCommits(commits: seq<string>)
      requires Valid()
      modifies this`totalCommits, this`refactorCommits, this`techCounts
      ensures Valid()
      ensures totalCommits == |commits|
      ensures refactorCommits == old(refactorCommits) + Commits.RefactorMessages(Commits.Messages(commits))
      ensures forall t :: Get(techCounts, t) == Get(old(techCounts), t) + Commits.TechCount(Commits.Messages(commits), t)
    {
      var refactors, counts := ScanCommits(commits, refactorCommits, techCounts);
      ghost var msgs := Commits.Messages(commits);
      ScannedRefactors(refactorCommits, techCounts, msgs);
      ScannedPositive(refactorCommits, techCounts, msgs);
      forall t ensures Get(counts, t) == Get(techCounts, t) + Commits.TechCount(msgs, t) {
        ScannedCounts(refactorCommits, techCounts, msgs, t);
      }
      totalCommits, refactorCommits, techCounts := |commits|, refactors, counts;
    }

    /** The pull requests of `prs` that touch the area, in input order. */
    method FilterRelevant(prs: seq<Reviews.PullRequest>) returns (relevant: seq<Reviews.PullRequest>)
      ensures relevant == Reviews.RelevantPrs(prs, area)
    {
      relevant := [];
      var i := 0;
      while i < |prs|
        invariant 0 <= i <= |prs|
        invariant relevant == Reviews.RelevantPrs(prs[..i], area)
      {
        assert prs[..i + 1][..i] == prs[..i];
        if Reviews.TouchesArea(prs[i], area) {
          relevant := relevant + [prs[i]];
        }
        i := i + 1;
      }
      assert prs[..i] == prs;
    }

    /**
     * `analyze_pr_reviews`, given the pull requests `gh pr list` returns
     * (None when gh is missing or fails, or its output does not parse): the
     * relevant-PR count is set, the theme counters are replaced by the counts
     * over every review body of the relevant pull requests, and each theme's
     * stored samples are topped up to five.
     */
    method AnalyzePrReviews(prs: Option<seq<Reviews.PullRequest>>)
      requires Valid()
      modifies this`relevantPrs, this`reviewThemes, this`feedback
      ensures Valid()
      ensures prs.None? ==> relevantPrs == old(relevantPrs) && reviewThemes == old(reviewThemes) && feedback == old(feedback)
      ensures prs.Some? ==>
        var relevant := Reviews.RelevantPrs(prs.value, area);
        var bodies := Reviews.ReviewBodies(relevant);
        && relevantPrs == |relevant|
        && (forall t :: Get(reviewThemes, t) == Reviews.ThemeCount(bodies, t))
        && (forall t :: FeedbackOf(feedback, t) == Reviews.Feedback(FeedbackOf(old(feedback), t), bodies, t))
    {
      if prs.None? {
        return;
      }
      var relevant := FilterRelevant(prs.value);
      relevantPrs := |relevant|;
      var themes, samples := ReviewThemes(relevant, feedback);
      Reviews.ThemesFitTopTen(themes);
      feedback := samples;
      reviewThemes := themes;
    }

    /**
     * `analyze_file_patterns`, given whether the area's directory exists and
     * the paths its recursive walk yields: the file count and the ten most
     * common suffixes are set, and the naming counts are replaced when at
     * least one stem was classified.
     */
    method AnalyzeFilePatterns(areaExists: bool, entries: seq<Naming.Entry>)
      requires Valid()
      modifies this`totalFiles, this`fileTypes, this`namingConventions
      ensures Valid()
      ensures !areaExists ==>
        totalFiles == old(totalFiles) && fileTypes == old(fileTypes) && namingConventions == old(namingConventions)
      ensures areaExists ==>
        && totalFiles == FileTypes.VisibleFileCount(entries)
        && fileTypes == FileTypes.MostCommon(FileTypes.SuffixTally(entries), FileTypes.TopFileTypes)
      ensures areaExists && Naming.NamedStems(entries) != [] ==>
        NamingAgrees(namingConventions, Naming.NamedStems(entries))
      ensures Naming.NamedStems(entries) == [] ==> namingConventions == old(namingConventions)
    {
      if areaExists {
        var total, top, naming := FilePatterns(entries);
        totalFiles, fileTypes := total, top;
        namingConventions := if naming == map[] then namingConventions else naming;
      }
    }

    /** Which optional sections the current findings fill. */
    function Present(): Presence
      reads this
    {
      Presence(
        techCounts != map[], fileTypes != [], namingConventions != map[], reviewThemes != map[], refactorCommits != [],
        Recommendations.Fired(techCounts, reviewThemes, |Recommendations.AllRecommendations|) != [])
    }

    /**
     * `generate_updated_guidelines`, given what `load_current_guidelines`
     * returns (None for a missing file), with the comparison made against
     * the headings of the document being generated. Nothing in the
     * refresher changes.
     */
    method GenerateUpdatedGuidelines(current: Option<string>) returns (g: Guidelines)
      ensures g.area == area
      ensures g.totalCommits == totalCommits && g.relevantPrs == relevantPrs && g.totalFiles == totalFiles
      ensures g.sections == Outline(Present())
      ensures g.evolution == Evolution.Grouped(Take(refactorCommits, Evolution.GroupedRefactors))
      ensures g.recommendations == Recommendations.Fired(techCounts, reviewThemes, |Recommendations.AllRecommendations|)
      ensures g.changes.Some? <==> Changes.HasPrevious(current)
      ensures g.changes == Changes.ChangesSection(current, Titles(g.sections), totalCommits)
    {
      var evolution := [];
      if refactorCommits != [] {
        evolution := Evolution.GroupRefactors(refactorCommits);
      }
      var recommendations := Recommendations.GenerateRecommendations(techCounts, reviewThemes);
      var sections := Outline(Present());
      var changes := Changes.ChangesSection(current, Titles(sections), totalCommits);
      g := Guidelines(area, totalCommits, relevantPrs, totalFiles, sections, evolution, recommendations, changes);
    }

    /**
     * Refreshing over a previous document with the same headings, as when
     * nothing changed between two runs, reports the structure as maintained
     * and every heading as updated.
     */
    lemma RerunMaintained()
      ensures Outline(Present()) != []
      ensures var hs := Titles(Outline(Present()));
        var r := Changes.ChangesSection(Some(Lines.Join(Changes.HeadingLines(hs), '\n')), hs, totalCommits);
        && r.Some?
        && StructureMaintained in r.value
        && UpdatedSections(|SetOf(hs)|) in r.value
    {
      var ss := Outline(Present());
      var hs := Titles(ss);
      OutlineNonEmpty(Present());
      TitlesAreLines(ss);
      Changes.RerunMaintained(hs, totalCommits);
    }
  }
}

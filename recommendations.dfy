/**
 * The threshold rules of `_generate_recommendations`
 * (skills/guideline-refresher/refresh_guidelines.py): seven possible
 * recommendations, each emitted when a commit-keyword count or a review-theme
 * count passes its threshold, in a fixed order.
 */
module Recommendations {
  import opened Counters
  import Commits
  import Reviews

  /** The recommendations, in the order the source tests and appends them. */
  datatype Recommendation =
    | StrongTypeScript | TypeScriptAdoption | TestingPriority | PerformanceTheme
    | CodeOrganizationTheme | ErrorHandlingTheme | ReactDominant

  const AllRecommendations: seq<Recommendation> :=
    [StrongTypeScript, TypeScriptAdoption, TestingPriority, PerformanceTheme,
     CodeOrganizationTheme, ErrorHandlingTheme, ReactDominant]

  /** The thresholds; each rule fires when its count is strictly above the value. */
  const StrongTypeScriptAbove: nat := 10
  const TypeScriptAdoptionAbove: nat := 5
  const TestingThemeAbove: nat := 5
  const TestingCommitsAbove: nat := 8
  const PerformanceThemeAbove: nat := 3
  const CodeOrganizationThemeAbove: nat := 5
  const ErrorHandlingThemeAbove: nat := 3
  const ReactCommitsAbove: nat := 10

  /** Position in the fixed output order. */
  function Rank(r: Recommendation): (k: nat)
    ensures k < |AllRecommendations| && AllRecommendations[k] == r
  {
    match r
    case StrongTypeScript => 0
    case TypeScriptAdoption => 1
    case TestingPriority => 2
    case PerformanceTheme => 3
    case CodeOrganizationTheme => 4
    case ErrorHandlingTheme => 5
    case ReactDominant => 6
  }

  /** The text the source appends for each recommendation. */
  function Message(r: Recommendation): string {
    match r
    case StrongTypeScript =>
      "**Strong TypeScript usage detected.** Enforce strict type checking and avoid `any` types. "
      + "Consider enabling `strictNullChecks` and `noImplicitAny` in tsconfig.json."
    case TypeScriptAdoption =>
      "**TypeScript adoption in progress.** Continue migrating JavaScript files to TypeScript. "
      + "Define interfaces for all props and function parameters."
    case TestingPriority =>
      "**Testing is a priority.** Ensure all new code includes tests. "
      + "PR reviews frequently mention testing - make it a first-class concern."
    case PerformanceTheme =>
      "**Performance optimization is a recurring theme.** Profile before optimizing. "
      + "Consider React.memo, useMemo, and code splitting for large components."
    case CodeOrganizationTheme =>
      "**Code organization is frequently discussed.** Follow established file structure patterns. "
      + "Keep related files together and maintain consistent directory organization."
    case ErrorHandlingTheme =>
      "**Error handling needs attention.** Implement consistent error handling patterns. "
      + "Use try-catch blocks, provide meaningful error messages, and handle edge cases."
    case ReactDominant =>
      "**React patterns are dominant.** Use functional components with hooks. "
      + "Avoid class components for new code. Follow React best practices for state management."
  }

  /**
   * When each recommendation is given, from the technology counters of the
   * commit analysis and the stored review-theme counts (a missing key reads 0).
   */
  predicate Recommended(r: Recommendation, tech: map<Commits.Tech, nat>, themes: map<Reviews.Theme, nat>) {
    match r
    case StrongTypeScript => Get(tech, Commits.TypeScript) > StrongTypeScriptAbove
    case TypeScriptAdoption => TypeScriptAdoptionAbove < Get(tech, Commits.TypeScript) <= StrongTypeScriptAbove
    case TestingPriority =>
      Get(themes, Reviews.Testing) > TestingThemeAbove || Get(tech, Commits.Testing) > TestingCommitsAbove
    case PerformanceTheme => Get(themes, Reviews.Performance) > PerformanceThemeAbove
    case CodeOrganizationTheme => Get(themes, Reviews.CodeOrganization) > CodeOrganizationThemeAbove
    case ErrorHandlingTheme => Get(themes, Reviews.ErrorHandling) > ErrorHandlingThemeAbove
    case ReactDominant => Get(tech, Commits.React) > ReactCommitsAbove
  }

  /** The recommendations among the first `n` whose rule fires, in the fixed order. */
  function Fired(tech: map<Commits.Tech, nat>, themes: map<Reviews.Theme, nat>, n: nat): seq<Recommendation>
    requires n <= |AllRecommendations|
  {
    if n == 0 then []
    else
      var r := AllRecommendations[n - 1];
      Fired(tech, themes, n - 1) + (if Recommended(r, tech, themes) then [r] else [])
  }

  /**
   * `_generate_recommendations`: the rules are tested in the fixed order and
   * each appends its recommendation when it fires.
   */
  method GenerateRecommendations(tech: map<Commits.Tech, nat>, themes: map<Reviews.Theme, nat>)
    returns (recs: seq<Recommendation>)
    ensures recs == Fired(tech, themes, |AllRecommendations|)
  {
    recs := [];
    var tsMentions := Get(tech, Commits.TypeScript);
    if tsMentions > StrongTypeScriptAbove {
      recs := recs + [StrongTypeScript];
    } else if tsMentions > TypeScriptAdoptionAbove {
      recs := recs + [TypeScriptAdoption];
    }
    assert Fired(tech, themes, 1) == if tsMentions > StrongTypeScriptAbove then [StrongTypeScript] else [];
    assert recs == Fired(tech, themes, 2);
    var testMentions := Get(tech, Commits.Testing);
    var testTheme := Get(themes, Reviews.Testing);
    if testTheme > TestingThemeAbove || testMentions > TestingCommitsAbove {
      recs := recs + [TestingPriority];
    }
    assert recs == Fired(tech, themes, 3);
    if Get(themes, Reviews.Performance) > PerformanceThemeAbove {
      recs := recs + [PerformanceTheme];
    }
    assert recs == Fired(tech, themes, 4);
    if Get(themes, Reviews.CodeOrganization) > CodeOrganizationThemeAbove {
      recs := recs + [CodeOrganizationTheme];
    }
    assert recs == Fired(tech, themes, 5);
    if Get(themes, Reviews.ErrorHandling) > ErrorHandlingThemeAbove {
      recs := recs + [ErrorHandlingTheme];
    }
    assert recs == Fired(tech, themes, 6);
    if Get(tech, Commits.React) > ReactCommitsAbove {
      recs := recs + [ReactDominant];
    }
  }

  /**
   * The full list: exactly the recommendations whose rule fires, in the
   * fixed order, never both TypeScript ones, so at most six.
   */
  lemma RecommendationsSound(tech: map<Commits.Tech, nat>, themes: map<Reviews.Theme, nat>)
    ensures var recs := Fired(tech, themes, |AllRecommendations|);
      && (forall r :: r in recs <==> Recommended(r, tech, themes))
      && (forall i, j :: 0 <= i < j < |recs| ==> Rank(recs[i]) < Rank(recs[j]))
      && !(StrongTypeScript in recs && TypeScriptAdoption in recs)
      && |recs| <= |AllRecommendations| - 1
  {
    FiredEmitted(tech, themes, |AllRecommendations|);
  }

  /**
   * The list after the rules of the recommendations ranked below `n` have
   * run: exactly those among them that fire, in rank order, holding at most
   * one TypeScript recommendation.
   */
  ghost predicate Emitted(recs: seq<Recommendation>, tech: map<Commits.Tech, nat>, themes: map<Reviews.Theme, nat>, n: nat) {
    && (forall r :: r in recs <==> Rank(r) < n && Recommended(r, tech, themes))
    && (forall i, j :: 0 <= i < j < |recs| ==> Rank(recs[i]) < Rank(recs[j]))
    && !(StrongTypeScript in recs && TypeScriptAdoption in recs)
    && |recs| <= (if n >= 2 then n - 1 else n)
  }

  /** After the first `n` rules, the list holds the recommendations that fire among them, in order, at most one TypeScript one. */
  lemma {:induction false} FiredEmitted(tech: map<Commits.Tech, nat>, themes: map<Reviews.Theme, nat>, n: nat)
    requires n <= |AllRecommendations|
    ensures Emitted(Fired(tech, themes, n), tech, themes, n)
  {
    if n > 0 {
      FiredEmitted(tech, themes, n - 1);
      EmitStep(Fired(tech, themes, n - 1), tech, themes, n - 1, Fired(tech, themes, n));
    }
  }

  /** One rule: its recommendation is appended exactly when it fires. */
  lemma EmitStep(recs: seq<Recommendation>, tech: map<Commits.Tech, nat>, themes: map<Reviews.Theme, nat>,
                 n: nat, recs': seq<Recommendation>)
    requires n < |AllRecommendations|
    requires Emitted(recs, tech, themes, n)
    requires var r := AllRecommendations[n]; recs' == if Recommended(r, tech, themes) then recs + [r] else recs
    ensures Emitted(recs', tech, themes, n + 1)
  {
    var r := AllRecommendations[n];
    assert Rank(r) == n;
    forall x ensures x in recs' <==> Rank(x) < n + 1 && Recommended(x, tech, themes) {
      if Rank(x) == n {
        assert x == r;
      }
    }
    if r == TypeScriptAdoption {
      assert forall x :: x in recs ==> x == StrongTypeScript;
      assert Recommended(r, tech, themes) ==> StrongTypeScript !in recs;
    }
  }

  /**
   * Raising a count never withdraws a recommendation, except that the
   * TypeScript adoption recommendation gives way to the strong one.
   */
  lemma Monotone(r: Recommendation, tech: map<Commits.Tech, nat>, themes: map<Reviews.Theme, nat>,
                 tech': map<Commits.Tech, nat>, themes': map<Reviews.Theme, nat>)
    requires forall t :: Get(tech, t) <= Get(tech', t)
    requires forall t :: Get(themes, t) <= Get(themes', t)
    requires Recommended(r, tech, themes)
    ensures r != TypeScriptAdoption ==> Recommended(r, tech', themes')
    ensures r == TypeScriptAdoption ==>
      Recommended(TypeScriptAdoption, tech', themes') || Recommended(StrongTypeScript, tech', themes')
  {
    match r
    case StrongTypeScript => assert Get(tech, Commits.TypeScript) <= Get(tech', Commits.TypeScript);
    case TypeScriptAdoption => assert Get(tech, Commits.TypeScript) <= Get(tech', Commits.TypeScript);
    case TestingPriority =>
      assert Get(tech, Commits.Testing) <= Get(tech', Commits.Testing);
      assert Get(themes, Reviews.Testing) <= Get(themes', Reviews.Testing);
    case PerformanceTheme => assert Get(themes, Reviews.Performance) <= Get(themes', Reviews.Performance);
    case CodeOrganizationTheme => assert Get(themes, Reviews.CodeOrganization) <= Get(themes', Reviews.CodeOrganization);
    case ErrorHandlingTheme => assert Get(themes, Reviews.ErrorHandling) <= Get(themes', Reviews.ErrorHandling);
    case ReactDominant => assert Get(tech, Commits.React) <= Get(tech', Commits.React);
  }

  /** With every counter at zero, as when no analysis produced data, nothing is recommended. */
  lemma NothingFromNothing(r: Recommendation)
    ensures !Recommended(r, map[], map[])
  {
  }
}

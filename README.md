# Guideline refresher, modelled in Dafny

This project models the analysis core of the guideline refresher skill
(`skills/guideline-refresher/refresh_guidelines.py`). The `GuidelineRefresher`
object collects metrics and findings about one area of a repository, then
writes a guidelines document from them. The model covers:

- **Commit classification** (`analyze_git_history`). The output of
  `git log --oneline` is split into commit lines, and each line's hash is
  dropped. Each message is lower-cased and tested against:
  - the five refactor keywords;
  - the six technology keyword groups.
  The result is the commit count, the refactor messages in order, and one
  counter per technology.
- **Review themes** (`analyze_pr_reviews`). A pull request is relevant when
  one of its file paths contains the area. Every non-empty review body of a
  relevant pull request is lower-cased and tested against eight theme
  pattern lists. For each theme it matches:
  - the theme's counter rises by one;
  - while the theme holds fewer than five samples, the body's first 300
    characters are stored.
- **File patterns** (`analyze_file_patterns`). There are two walks over the
  area's paths:
  - The first counts visible files and their suffixes. Hidden paths are
    skipped, and `most_common(10)` keeps the top suffixes.
  - The second classifies the stems of code files with the naming cascade:
    PascalCase, snake_case, kebab-case, camelCase, otherwise mixed.
- **Document generation** (`generate_updated_guidelines`). The model covers:
  - which `## ` sections are written;
  - the grouping of the first ten refactor messages into four categories;
  - the threshold rules of `_generate_recommendations`;
  - the "Changes from Previous Guidelines" comparison (`_compare_guidelines`).
    It takes the sorted set differences of the `## ` headings in both
    directions, counts the common headings, and reads back the previous
    commit count.
- **The area file name** (`area.replace('/', '_').replace('\\', '_')`).

The model is split as the source is:

- The keyword tests, the naming cascade, path splitting, string ordering and
  the heading diff are pure functions (modules `Text`, `Lines`, `Commits`,
  `Reviews`, `Naming`, `FileTypes`, `Order`, `Sections`).
- The counting loops are methods with loop invariants, proved against fold
  functions. Lemmas then prove what the folds mean.
- The object whose methods update `self.metrics` and `self.findings` in place
  is the class `Refresher.GuidelineRefresher`. Its fields hold the counters
  and the finding lists, and it keeps a `Valid()` invariant: every stored
  count is positive, and no theme has more than five samples.

Outside effects become parameters:

| Source call | Parameter |
|---|---|
| `git log` output | an `Option<string>` (None when the command fails) |
| `gh pr list` result | an `Option` of parsed pull requests (None when gh is missing, fails or its JSON does not parse) |
| The directory walk | a sequence of entries: the path's parts and whether it is a file |
| The previous guidelines file | an `Option<string>` |

## Model

| member | source | states |
|---|---|---|
| Counters.Inc | skills/guideline-refresher/refresh_guidelines.py:124 | `counter[k] += 1`: the count of `k` rises by one, every other count is unchanged, and `k` becomes a key |
| Text.LowerChar | skills/guideline-refresher/refresh_guidelines.py:103 | lower-casing one character yields no upper-case letter; upper-case letters become lower-case and all other characters are kept |
| Text.Lower | skills/guideline-refresher/refresh_guidelines.py:103 | `s.lower()` keeps the length and lower-cases each character in place |
| Text.LowerSlice | skills/guideline-refresher/refresh_guidelines.py:103 | lower-casing commutes with slicing |
| Text.MatchInAnyCase | skills/guideline-refresher/refresh_guidelines.py:103-106 | a keyword written in any letter case inside a message is found in the lower-cased message |
| Text.ReplaceChar | skills/guideline-refresher/refresh_guidelines.py:282 | single-character replace keeps the length, replaces exactly the occurrences of `a`, and leaves none behind |
| Text.Take | skills/guideline-refresher/refresh_guidelines.py:207 | `s[:n]` is the prefix of length `min(len(s), n)` |
| Text.TakeSnoc | skills/guideline-refresher/refresh_guidelines.py:206-207 | appending to a list capped at `n` adds the item only while the list is shorter than `n` |
| Lines.StripLeft | skills/guideline-refresher/refresh_guidelines.py:96 | the result is a suffix that does not start with whitespace, and everything dropped is whitespace |
| Lines.StripRight | skills/guideline-refresher/refresh_guidelines.py:96 | the result is a prefix that does not end with whitespace, and everything dropped is whitespace |
| Lines.Split | skills/guideline-refresher/refresh_guidelines.py:96 | `split('\n')` gives at least one piece, and no piece holds the separator |
| Lines.NonEmpty | skills/guideline-refresher/refresh_guidelines.py:96 | the filter `if line` keeps only non-empty pieces drawn from the input, and every non-empty piece appears |
| Lines.NonEmptySingle | skills/guideline-refresher/refresh_guidelines.py:96 | one piece is kept exactly when it is not empty |
| Lines.NonEmptyAppend | skills/guideline-refresher/refresh_guidelines.py:96 | the filter distributes over concatenation, so the kept pieces are the non-empty ones in input order, repeats included |
| Lines.JoinSplit | skills/guideline-refresher/refresh_guidelines.py:96 | joining the pieces of a split gives back the text |
| Lines.SplitJoin | skills/guideline-refresher/refresh_guidelines.py:96 | splitting joined separator-free pieces gives back the pieces |
| Lines.NonEmptyKeepsAll | skills/guideline-refresher/refresh_guidelines.py:96 | non-empty lines all pass the filter |
| Lines.StripUnchanged | skills/guideline-refresher/refresh_guidelines.py:96 | text without whitespace at either end is not changed by `strip()` |
| Commits.TechIndex | skills/guideline-refresher/refresh_guidelines.py:113-120 | each technology has a position in the keyword dictionary's order |
| Commits.TechIndexOf | skills/guideline-refresher/refresh_guidelines.py:122 | that position inverts indexing into the dictionary order |
| Commits.CommitLines | skills/guideline-refresher/refresh_guidelines.py:96 | every commit line is non-empty and holds no newline |
| Commits.CommitLinesRoundTrip | skills/guideline-refresher/refresh_guidelines.py:96 | lines written one per line and read back are the same lines |
| Commits.IndexOf | skills/guideline-refresher/refresh_guidelines.py:102 | the first position of a character: it holds the character, and none before it does |
| Commits.MessageOfSplit | skills/guideline-refresher/refresh_guidelines.py:102 | a line with a space is a space-free prefix, a space and the message; a line without one is its own message |
| Commits.MessageOfOneline | skills/guideline-refresher/refresh_guidelines.py:102 | for a `--oneline` line (hash, space, subject) the message is the subject |
| Commits.Messages | skills/guideline-refresher/refresh_guidelines.py:101-102 | one message per commit line, in order |
| Commits.RefactorMessages | skills/guideline-refresher/refresh_guidelines.py:105-110 | at most one refactor entry per commit |
| Commits.RefactorMessagesMembers | skills/guideline-refresher/refresh_guidelines.py:105-110 | a message is kept as a refactor commit if and only if it is a commit message containing a refactor keyword |
| Commits.RefactorMessagesAppend | skills/guideline-refresher/refresh_guidelines.py:101-110 | refactor messages are collected in input order, batch after batch |
| Commits.TechCountBound | skills/guideline-refresher/refresh_guidelines.py:122-124 | a technology counter rises at most once per commit, so `tech_X <= total_commits`, with equality exactly when every commit mentions it |
| Commits.TechCountAppend | skills/guideline-refresher/refresh_guidelines.py:122-124 | technology counts over consecutive batches of commits add up |
| Commits.TechMentionInAnyCase | skills/guideline-refresher/refresh_guidelines.py:122-124 | a technology keyword in any letter case counts the commit for that technology |
| Commits.TestsCountAsTypeScript | skills/guideline-refresher/refresh_guidelines.py:114 | the keyword "ts" is a plain substring test: "add unit tests" counts for both TypeScript and testing |
| Reviews.ThemeIndex | skills/guideline-refresher/refresh_guidelines.py:191-200 | each theme has a position in the pattern dictionary's order |
| Reviews.ThemeIndexOf | skills/guideline-refresher/refresh_guidelines.py:202 | that position inverts indexing into the dictionary order |
| Reviews.RelevantPrs | skills/guideline-refresher/refresh_guidelines.py:164-168 | the relevant pull requests are at most all of them |
| Reviews.RelevantPrsMembers | skills/guideline-refresher/refresh_guidelines.py:164-168 | a pull request is relevant if and only if it is listed and one of its file paths contains the area |
| Reviews.BodiesOf | skills/guideline-refresher/refresh_guidelines.py:183-184 | one body per review, in order |
| Reviews.ThemeSamples | skills/guideline-refresher/refresh_guidelines.py:202-207 | without the cap, a theme collects one sample per counting body, each a 300-character prefix of such a body |
| Reviews.Feedback | skills/guideline-refresher/refresh_guidelines.py:206-207 | a theme's stored samples keep the earlier ones as a prefix and never exceed five |
| Reviews.FeedbackStep | skills/guideline-refresher/refresh_guidelines.py:206-207 | one more body adds its truncated sample exactly when it counts for the theme and fewer than five are stored |
| Reviews.ThemeCountBound | skills/guideline-refresher/refresh_guidelines.py:183-204 | each non-empty body adds at most one to a theme; theme counts never exceed the number of non-empty bodies |
| Reviews.EmptyBodiesSkipped | skills/guideline-refresher/refresh_guidelines.py:185-186 | empty bodies change no theme count |
| Reviews.ThemeCountAppend | skills/guideline-refresher/refresh_guidelines.py:176-204 | theme counts over the reviews of consecutive pull requests add up |
| Reviews.ThemeMatchInAnyCase | skills/guideline-refresher/refresh_guidelines.py:188-203 | a theme pattern in any letter case counts a non-empty body for the theme |
| Reviews.ThemesFitTopTen | skills/guideline-refresher/refresh_guidelines.py:209 | there are eight themes, fewer than the ten `most_common(10)` keeps, so no theme is cut |
| Naming.LastDot | skills/guideline-refresher/refresh_guidelines.py:241 | the position of the last dot, or -1 when there is none |
| Naming.StemAndSuffix | skills/guideline-refresher/refresh_guidelines.py:255-256 | stem followed by suffix is the name; a suffix is a dot and at least one more character, with no other dot, after a non-empty stem |
| Naming.NamedStems | skills/guideline-refresher/refresh_guidelines.py:254-260 | the classified stems are non-empty stems of code files that are not index files, at most one per path |
| Naming.NamedStemsSnoc | skills/guideline-refresher/refresh_guidelines.py:254-260 | one more path adds its stem exactly when it is a classified code file |
| Naming.ConventionCountSnoc | skills/guideline-refresher/refresh_guidelines.py:262-272 | one more stem adds one to the count of its convention only |
| Naming.ConventionCountsSum | skills/guideline-refresher/refresh_guidelines.py:262-272 | every stem is counted under exactly one convention: the five counts sum to the number of stems |
| Naming.LowerWithBothSeparatorsIsSnake | skills/guideline-refresher/refresh_guidelines.py:265 | a lower-case stem with both `_` and `-` is snake_case, because the snake test comes first |
| Naming.NonLetterStartIsMixed | skills/guideline-refresher/refresh_guidelines.py:269-272 | a stem without separators that starts with a non-letter is mixed |
| Naming.ComposeClassify | skills/guideline-refresher/refresh_guidelines.py:263-270 | a name built from lower-case words in each of the four named conventions is classified as that convention |
| Naming.SingleWordIsCamel | skills/guideline-refresher/refresh_guidelines.py:269-270 | a single lower-case word is camelCase |
| FileTypes.VisibleFileCount | skills/guideline-refresher/refresh_guidelines.py:234-240 | the file total never exceeds the number of walked paths |
| FileTypes.Bump | skills/guideline-refresher/refresh_guidelines.py:243 | `file_types[suffix] += 1`: the suffix's count rises by one and no other count changes; a new key goes last and the keys stay distinct |
| FileTypes.SuffixTally | skills/guideline-refresher/refresh_guidelines.py:234-243 | the suffix counter has distinct keys, each a non-empty suffix with a positive count equal to the number of visible files with that suffix |
| FileTypes.WalkStep | skills/guideline-refresher/refresh_guidelines.py:234-243 | one more walked path updates the file total and the suffix counter on their own |
| FileTypes.HiddenRootHidesAll | skills/guideline-refresher/refresh_guidelines.py:236 | every part of the full path is tested, so a hidden directory above the area hides every file |
| FileTypes.SortDescending | skills/guideline-refresher/refresh_guidelines.py:245 | a permutation of the counter in descending count order |
| FileTypes.MostCommon | skills/guideline-refresher/refresh_guidelines.py:245 | `most_common(10)`: `min(10, len)` entries of the counter in descending count order, none of them smaller than any entry left out |
| FileTypes.MostCommonSubMultiset | skills/guideline-refresher/refresh_guidelines.py:245 | no entry is taken more often than the counter holds it, so the kept entries are distinct |
| Order.LessIrreflexive | skills/guideline-refresher/refresh_guidelines.py:489 | string order is irreflexive |
| Order.LessAsymmetric | skills/guideline-refresher/refresh_guidelines.py:489 | string order is asymmetric |
| Order.LessTransitive | skills/guideline-refresher/refresh_guidelines.py:489 | string order is transitive |
| Order.LessTotal | skills/guideline-refresher/refresh_guidelines.py:489 | any two different strings are ordered |
| Order.Sort | skills/guideline-refresher/refresh_guidelines.py:489 | `sorted` returns an ordered permutation of its input |
| Order.DistinctMinus | skills/guideline-refresher/refresh_guidelines.py:483-484 | exactly the elements not excluded, each once |
| Order.SortedMinus | skills/guideline-refresher/refresh_guidelines.py:483-495 | `sorted(set(s) - exclude)`: exactly the elements not excluded, in strictly increasing order |
| Sections.HeadingsOfLines | skills/guideline-refresher/refresh_guidelines.py:479 | at most one heading per line |
| Sections.HeadingsOfLinesMembers | skills/guideline-refresher/refresh_guidelines.py:479 | the headings are exactly the texts after "## " on the lines that have one |
| Sections.HeadingsOfDocument | skills/guideline-refresher/refresh_guidelines.py:479-481 | in a document written line by line, the headings found are exactly those of its `## ` lines |
| Sections.HeadingLineRoundTrip | skills/guideline-refresher/refresh_guidelines.py:481 | a written heading line reads back as its title |
| Sections.Diff | skills/guideline-refresher/refresh_guidelines.py:483-485 | added is new minus old, removed is old minus new, each strictly sorted, and common is the size of the intersection |
| Sections.SameHeadingsNoChange | skills/guideline-refresher/refresh_guidelines.py:483-485 | equal heading sets give nothing added or removed, and every heading is common |
| Sections.NoChangeSameHeadings | skills/guideline-refresher/refresh_guidelines.py:502 | nothing added and nothing removed means the heading sets are equal |
| Sections.DigitPrefix | skills/guideline-refresher/refresh_guidelines.py:506 | `\d+` is greedy: the longest all-digit prefix |
| Sections.Decimal | skills/guideline-refresher/refresh_guidelines.py:302 | the decimal digits of a count are a non-empty digit string |
| Sections.DecimalValue | skills/guideline-refresher/refresh_guidelines.py:506-508 | `int(str(n)) == n` |
| Sections.CommitCountRoundTrip | skills/guideline-refresher/refresh_guidelines.py:506-508 | a previous document stating "Total commits analyzed:** n" reads back n |
| Sections.BlocksWritten | skills/guideline-refresher/refresh_guidelines.py:487-510 | each part of the comparison is written exactly when its condition holds: new and removed sections when there are any, the updated count when non-zero, "structure maintained" when nothing was added or removed, the freshness line when the previous count was found |
| Sections.CompareMaintained | skills/guideline-refresher/refresh_guidelines.py:502-503 | "structure maintained" is written if and only if the old and new heading sets are equal |
| Changes.GenerateAsWritten | skills/guideline-refresher/refresh_guidelines.py:398-400 | without a previous document, the generator returns a first-version document |
| Changes.AsWrittenNeverReturns | skills/guideline-refresher/refresh_guidelines.py:480 | with a non-empty previous document, the generator and the comparison never return, at any call depth |
| Changes.ChangesSection | skills/guideline-refresher/refresh_guidelines.py:397-404 | a comparison is produced if and only if a non-empty previous document exists |
| Changes.ChangesSectionOneLevel | skills/guideline-refresher/refresh_guidelines.py:480-485 | the intended comparison is what the as-written recursion yields when the inner generation sees no previous document |
| Changes.RerunMaintained | skills/guideline-refresher/refresh_guidelines.py:499-503 | comparing against a previous document with the same headings reports "structure maintained" and every heading as updated |
| Evolution.InCategory | skills/guideline-refresher/refresh_guidelines.py:365-376 | a category's list has at most one entry per message |
| Evolution.InCategoryMembers | skills/guideline-refresher/refresh_guidelines.py:365-376 | a category's list holds exactly the messages of that category |
| Evolution.Categories | skills/guideline-refresher/refresh_guidelines.py:378 | the dictionary's keys are distinct categories |
| Evolution.CategoriesUsed | skills/guideline-refresher/refresh_guidelines.py:378 | a category is a key if and only if some message falls in it |
| Evolution.GroupsFor | skills/guideline-refresher/refresh_guidelines.py:378 | one group per key, holding that category's messages |
| Evolution.GroupedSizes | skills/guideline-refresher/refresh_guidelines.py:365-376 | every message lands in exactly one group: the group sizes sum to the number of messages |
| Evolution.FoldIsGrouped | skills/guideline-refresher/refresh_guidelines.py:365-376 | appending message by message builds one group per used category, in first-use order |
| Evolution.GroupedSnoc | skills/guideline-refresher/refresh_guidelines.py:370-376 | one more message joins the end of its category's group, or opens a new last group |
| Evolution.GroupedPartition | skills/guideline-refresher/refresh_guidelines.py:365-376 | the groups have distinct categories, each holds exactly the messages of its category, and every message has a group |
| Evolution.GroupRefactors | skills/guideline-refresher/refresh_guidelines.py:364-376 | the loop groups the first ten refactor messages, and the group sizes sum to `min(10, n)` |
| Evolution.AddToGroups | skills/guideline-refresher/refresh_guidelines.py:367-376 | one loop pass: `refactor_types[category].append(msg)` |
| Evolution.TypeBeatsTest | skills/guideline-refresher/refresh_guidelines.py:369-371 | a message naming both types and tests is a TypeScript migration, because that test comes first |
| Evolution.PrototypeIsTypeScript | skills/guideline-refresher/refresh_guidelines.py:369 | "type" is a substring test: "refactor prototype chain" is a TypeScript migration |
| Recommendations.GenerateRecommendations | skills/guideline-refresher/refresh_guidelines.py:413-472 | the method appends, in rule order, each recommendation whose threshold is passed |
| Recommendations.RecommendationsSound | skills/guideline-refresher/refresh_guidelines.py:418-472 | a recommendation is emitted if and only if its rule fires; output follows the fixed order; the two TypeScript ones never both appear; at most six |
| Recommendations.FiredEmitted | skills/guideline-refresher/refresh_guidelines.py:415-472 | after each rule, the list holds exactly the fired recommendations so far, in order |
| Recommendations.Monotone | skills/guideline-refresher/refresh_guidelines.py:418-470 | raising counts never withdraws a recommendation, except that "adoption in progress" may give way to "strong TypeScript": one of the two still fires |
| Recommendations.NothingFromNothing | skills/guideline-refresher/refresh_guidelines.py:418-466 | with all counters at zero nothing is recommended |
| Refresher.AreaFileName | skills/guideline-refresher/refresh_guidelines.py:282 | the file name has the area's length, no `/` or `\`, and each separator replaced by `_` |
| Refresher.AreaFileNameIdempotent | skills/guideline-refresher/refresh_guidelines.py:282 | normalising twice is normalising once |
| Refresher.AreaFileNameCollides | skills/guideline-refresher/refresh_guidelines.py:520-521 | "src/app", "src_app" and "src\app" share one guidelines file |
| Refresher.TechHits | skills/guideline-refresher/refresh_guidelines.py:122-123 | whether a message mentions each technology, in dictionary order |
| Refresher.TechCountUpTo | skills/guideline-refresher/refresh_guidelines.py:122-124 | after k passes of the technology loop, a counter has risen by one exactly when its technology is among the first k and mentioned |
| Refresher.PassTech | skills/guideline-refresher/refresh_guidelines.py:123-124 | one pass: the counter of a mentioned technology rises by one |
| Refresher.CountTechMentions | skills/guideline-refresher/refresh_guidelines.py:122-124 | the technology loop for one message |
| Refresher.TechLoopEffect | skills/guideline-refresher/refresh_guidelines.py:122-124 | the technology loop raises by one exactly the counters of the mentioned technologies |
| Refresher.ScannedRefactors | skills/guideline-refresher/refresh_guidelines.py:101-110 | the commit loop appends exactly the refactor messages, in order |
| Refresher.ScannedCounts | skills/guideline-refresher/refresh_guidelines.py:101-124 | each counter grows by the number of commits mentioning its technology |
| Refresher.ScanCommit | skills/guideline-refresher/refresh_guidelines.py:102-124 | one pass of the commit loop: the refactor test, then the technology loop |
| Refresher.ScanCommits | skills/guideline-refresher/refresh_guidelines.py:101-124 | the commit loop over the lines, on their messages |
| Refresher.ThemeCountUpTo | skills/guideline-refresher/refresh_guidelines.py:202-204 | after k passes of the theme loop, a counter has risen by one exactly when its theme is among the first k and matched |
| Refresher.ThemeSampleUpTo | skills/guideline-refresher/refresh_guidelines.py:202-207 | after k passes, a matched theme among the first k has stored the truncated body unless it already held five |
| Refresher.PassTheme | skills/guideline-refresher/refresh_guidelines.py:203-207 | one pass of the theme loop |
| Refresher.RecordThemes | skills/guideline-refresher/refresh_guidelines.py:202-207 | the theme loop for one body |
| Refresher.RecordThemesEffect | skills/guideline-refresher/refresh_guidelines.py:202-207 | each matched theme counts the body and stores it below five samples; the other themes are untouched; counters stay positive and samples bounded |
| Refresher.RecordBodyAgrees | skills/guideline-refresher/refresh_guidelines.py:183-207 | one review body, skipped or tested, keeps counters and samples in agreement with the bodies seen |
| Refresher.RecordBodiesAgrees | skills/guideline-refresher/refresh_guidelines.py:176-207 | the review loops keep each theme's counter equal to its count over the bodies seen, and its samples equal to the capped list of matching bodies |
| Refresher.RecordReviews | skills/guideline-refresher/refresh_guidelines.py:183-207 | the loop over one pull request's reviews |
| Refresher.ReviewThemes | skills/guideline-refresher/refresh_guidelines.py:174-207 | the theme counter counts, per theme, the non-empty bodies matching it; the samples are the earlier ones topped up to five with matching bodies, in order; counters positive, samples bounded |
| Refresher.CountFiles | skills/guideline-refresher/refresh_guidelines.py:230-243 | the first walk computes the visible-file total and the suffix counter |
| Refresher.VisitFile | skills/guideline-refresher/refresh_guidelines.py:235-243 | one path of the first walk: a visible file is counted, and its suffix too when it has one |
| Refresher.OutlineShape | skills/guideline-refresher/refresh_guidelines.py:300-404 | the document opens with the summary and ends with code examples and changes; in between come exactly the optional sections that have data, in fixed order, each once |
| Refresher.FilePatterns | skills/guideline-refresher/refresh_guidelines.py:230-275 | the two walks: file total, the ten most common suffixes, and naming counts that agree with the classified stems |
| Refresher.CountNaming | skills/guideline-refresher/refresh_guidelines.py:251-272 | the naming counter holds, per convention, the number of classified stems, only positive entries, and is empty exactly when no stem was classified |
| Refresher.VisitCodeFile | skills/guideline-refresher/refresh_guidelines.py:254-272 | one path of the second walk: a classified code file adds one to its convention |
| Refresher.GuidelineRefresher.constructor | skills/guideline-refresher/refresh_guidelines.py:17-23 | a refresher starts with no metrics and no findings |
| Refresher.GuidelineRefresher.AnalyzeGitHistory | skills/guideline-refresher/refresh_guidelines.py:96-130 | a failed `git log` sets the commit total to zero; otherwise the total, the refactor list and the technology counters follow the commit lines; other fields unchanged |
| Refresher.GuidelineRefresher.AnalyzeCommits | skills/guideline-refresher/refresh_guidelines.py:98-124 | commit total set; refactor messages appended in order; each technology counter raised by the number of commits mentioning it |
| Refresher.GuidelineRefresher.FilterRelevant | skills/guideline-refresher/refresh_guidelines.py:164-168 | the relevant pull requests, in input order |
| Refresher.GuidelineRefresher.AnalyzePrReviews | skills/guideline-refresher/refresh_guidelines.py:164-209 | the relevant-PR count is set; theme counts are replaced by the counts over the relevant bodies; samples are topped up to five; nothing changes when gh is unavailable |
| Refresher.GuidelineRefresher.AnalyzeFilePatterns | skills/guideline-refresher/refresh_guidelines.py:220-277 | a missing area changes nothing; otherwise the file total and the top ten suffixes are set, and naming counts are replaced only when some stem was classified |
| Refresher.GuidelineRefresher.GenerateUpdatedGuidelines | skills/guideline-refresher/refresh_guidelines.py:290-411 | the document carries the summary numbers, the sections the findings fill, the groups of the first ten refactor commits, the fired recommendations, and a comparison exactly when a previous document exists |
| Refresher.GuidelineRefresher.RerunMaintained | skills/guideline-refresher/refresh_guidelines.py:397-404 | regenerating over a previous document with the same headings reports the structure as maintained |

## Left out

- Running `git rev-parse`, `git log` and `gh` is not modelled, nor is decoding gh's JSON. Their results are parameters, and None stands for every failure path.
- The configuration file, its defaults and the depth check in `run` (lines 659-663) are left out. The chosen depth's `commit_days` and `pr_limit` (lines 672-673) only shape the `git log` and `gh` commands, whose outputs are parameters here. The configuration is also written into the document's "Analysis Period" line (line 298), which belongs to the rendered text, and it supplies the backup flag (line 524).
- The directory walk and `is_file` are not modelled. The walked paths are given as entries with their full parts.
- Reading and writing guideline files, the backup rename, the report and the command line are left out, because they are I/O.
- Timestamps are left out.
- Console output is left out, including the printed dominant naming pattern (lines 276-277).
- Markdown rendering is left out: the byte-exact template text, the percentages (floating point), the top-five cuts of displayed lists, and the cleaned example feedback. The document is modelled as its summary numbers, its section list, the refactor groups, the recommendations and the comparison blocks.
- Refresher.GuidelineRefresher.GenerateUpdatedGuidelines: takes the new document's headings from its section outline instead of matching `^## ` in the rendered text. An area name containing a newline followed by "## " would add a heading to the real text.
- Refresher.GuidelineRefresher.AnalyzePrReviews: the stored theme counts are a map, so the order `most_common(10)` gives them is not modelled. There are only eight themes, so no theme is cut (Reviews.ThemesFitTopTen).
- FileTypes.MostCommon: does not state that entries with equal counts keep first-seen order. The definition is a stable insertion sort and follows that order.
- Refresher.GuidelineRefresher.AnalyzeCommits: refactor commits are stored as their messages only. The constant `'type': 'refactor'` tag is dropped.
- The pull request's title and body (lines 177-181) are computed but never used, so they are not modelled.
- Text.Lower: lower-casing and the case tests cover ASCII letters only.
- Sections.DigitPrefix: reads the ASCII digits 0-9 only. Python's `\d` and `int()` also accept the other Unicode decimal digits. Such digits would make `re.search` at line 506 match where the model finds no count; the count the model writes itself is always ASCII.
- As written, the second walk (line 254) does not skip hidden paths. The model follows the code.
- As written, the hidden-part test (line 236) looks at every part of the absolute path. FileTypes.HiddenRootHidesAll shows the consequence.
- As written, the "ts" keyword matches "tests". Commits.TestsCountAsTypeScript shows this.

## Findings

| source | as written | input that shows it | evidently intended | confidence | as-written member | corrected member |
|---|---|---|---|---|---|---|
| skills/guideline-refresher/refresh_guidelines.py:480 | `_compare_guidelines` builds the new document by calling `generate_updated_guidelines`, which loads the same previous file (line 292) and calls `_compare_guidelines` again (lines 398-400); the two never return and the run ends in a recursion error | any area whose guidelines file already exists and is non-empty | compare the previous headings with those of the document being generated | not executed | Changes.AsWrittenNeverReturns | Changes.ChangesSection |

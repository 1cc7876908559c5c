/**
 * File naming conventions (skills/guideline-refresher/refresh_guidelines.py,
 * analyze_file_patterns): pathlib's split of a file name into stem and
 * suffix, which files are classified, and the fixed-precedence cascade that
 * gives each stem exactly one convention.
 */
module Naming {
  import opened Text
  import Lines

  datatype Convention = PascalCase | SnakeCase | KebabCase | CamelCase | Mixed

  /** The conventions in the order the cascade tests them. */
  const AllConventions: seq<Convention> := [PascalCase, SnakeCase, KebabCase, CamelCase, Mixed]

  const CodeExtensions: set<string> := {".ts", ".tsx", ".js", ".jsx", ".py", ".java", ".go", ".rs"}

  /**
   * One path yielded by the directory walk: the parts of the full path as
   * pathlib gives them (the last part is the entry's name) and whether it is
   * a regular file.
   */
  datatype Entry = Entry(parts: seq<string>, isFile: bool)

  function Name(e: Entry): string {
    if e.parts == [] then [] else e.parts[|e.parts| - 1]
  }

  /** `name.rfind('.')`. */
  function LastDot(name: string): (i: int)
    ensures -1 <= i < |name|
    ensures i >= 0 ==> name[i] == '.' && '.' !in name[i + 1..]
    ensures i == -1 ==> '.' !in name
    decreases |name|
  {
    if name == [] then -1
    else if name[|name| - 1] == '.' then |name| - 1
    else
      var init := name[..|name| - 1];
      var j := LastDot(init);
      assert name == init + [name[|name| - 1]];
      assert j >= 0 ==> name[j + 1..] == init[j + 1..] + [name[|name| - 1]];
      j
  }

  /**
   * pathlib's `(path.stem, path.suffix)`: the suffix runs from the last dot,
   * provided that dot is neither the first nor the last character.
   */
  function StemAndSuffix(name: string): (r: (string, string))
    ensures r.0 + r.1 == name
    ensures r.1 == [] ==> r.0 == name
    ensures r.1 != [] ==> r.0 != [] && |r.1| >= 2 && r.1[0] == '.' && '.' !in r.1[1..]
  {
    var i := LastDot(name);
    if 0 < i < |name| - 1 then (name[..i], name[i..]) else (name, [])
  }

  function Stem(name: string): string { StemAndSuffix(name).0 }

  function Suffix(name: string): string { StemAndSuffix(name).1 }

  /** `name.lower() in ['index', '__init__']`. */
  predicate IsIndexStem(stem: string) {
    Lower(stem) == "index" || Lower(stem) == "__init__"
  }

  /** A file whose stem the naming analysis classifies. */
  predicate IsNamedCodeFile(e: Entry) {
    e.isFile && Suffix(Name(e)) in CodeExtensions && !IsIndexStem(Stem(Name(e)))
  }

  /**
   * The naming cascade: the first test that holds wins, in the order
   * PascalCase, snake_case, kebab-case, camelCase, and anything else is mixed.
   */
  function Classify(stem: string): Convention
    requires stem != []
  {
    if IsUpperChar(stem[0]) && '_' !in stem && '-' !in stem then PascalCase
    else if '_' in stem && IsLowerStr(stem) then SnakeCase
    else if '-' in stem && IsLowerStr(stem) then KebabCase
    else if IsLowerChar(stem[0]) && '_' !in stem && '-' !in stem then CamelCase
    else Mixed
  }

  /** The stems the naming loop classifies, in walk order: never empty, so `name[0]` exists. */
  function NamedStems(entries: seq<Entry>): (stems: seq<string>)
    ensures |stems| <= |entries|
    ensures forall i :: 0 <= i < |stems| ==> stems[i] != []
    ensures forall i :: 0 <= i < |stems| ==>
      exists j :: 0 <= j < |entries| && IsNamedCodeFile(entries[j]) && stems[i] == Stem(Name(entries[j]))
    decreases |entries|
  {
    if entries == [] then []
    else
      var init := entries[..|entries| - 1];
      var last := entries[|entries| - 1];
      assert forall j :: 0 <= j < |init| ==> init[j] == entries[j];
      NamedStems(init) + (if IsNamedCodeFile(last) then [Stem(Name(last))] else [])
  }

  /** One more walked path adds its stem when it is a classified code file. */
  lemma NamedStemsSnoc(entries: seq<Entry>, e: Entry)
    ensures NamedStems(entries + [e]) == NamedStems(entries) + (if IsNamedCodeFile(e) then [Stem(Name(e))] else [])
  {
    var all := entries + [e];
    assert all[..|all| - 1] == entries;
  }

  /** The number of stems the cascade puts under convention `c`. */
  function ConventionCount(stems: seq<string>, c: Convention): nat
    requires forall i :: 0 <= i < |stems| ==> stems[i] != []
    decreases |stems|
  {
    if stems == [] then 0
    else
      ConventionCount(stems[..|stems| - 1], c) + (if Classify(stems[|stems| - 1]) == c then 1 else 0)
  }

  /** One more stem adds one to the count of its convention only. */
  lemma ConventionCountSnoc(stems: seq<string>, x: string, c: Convention)
    requires forall i :: 0 <= i < |stems| ==> stems[i] != []
    requires x != []
    ensures ConventionCount(stems + [x], c) == ConventionCount(stems, c) + (if Classify(x) == c then 1 else 0)
  {
    var all := stems + [x];
    assert all[..|all| - 1] == stems;
  }

  function SumOverConventions(stems: seq<string>): nat
    requires forall i :: 0 <= i < |stems| ==> stems[i] != []
  {
    ConventionCount(stems, PascalCase) + ConventionCount(stems, SnakeCase) + ConventionCount(stems, KebabCase)
    + ConventionCount(stems, CamelCase) + ConventionCount(stems, Mixed)
  }

  /** Every classified stem is counted under exactly one convention: the counts sum to the number of stems. */
  lemma {:induction false} ConventionCountsSum(stems: seq<string>)
    requires forall i :: 0 <= i < |stems| ==> stems[i] != []
    ensures SumOverConventions(stems) == |stems|
    decreases |stems|
  {
    if stems != [] {
      ConventionCountsSum(stems[..|stems| - 1]);
    }
  }

  /** An all-lower-case stem holding both `_` and `-` is snake_case: the snake test comes first. */
  lemma LowerWithBothSeparatorsIsSnake(stem: string)
    requires stem != [] && IsLowerStr(stem) && '_' in stem && '-' in stem
    ensures Classify(stem) == SnakeCase
  {
  }

  /** A stem without separators whose first character is not a letter is mixed. */
  lemma NonLetterStartIsMixed(stem: string)
    requires stem != [] && !IsUpperChar(stem[0]) && !IsLowerChar(stem[0])
    requires '_' !in stem && '-' !in stem
    ensures Classify(stem) == Mixed
  {
  }

  // An independent description of the four named conventions: names built
  // from lower-case words the way each convention writes them.

  /** A non-empty word of lower-case ASCII letters. */
  predicate IsWord(w: string) {
    w != [] && forall i | 0 <= i < |w| :: IsLowerChar(w[i])
  }

  predicate IsLetter(c: char) { IsUpperChar(c) || IsLowerChar(c) }

  function Capitalize(w: string): (r: string)
    requires IsWord(w)
    ensures |r| == |w| && IsUpperChar(r[0])
    ensures forall i :: 0 <= i < |r| ==> IsLetter(r[i])
  {
    [(w[0] as int - 32) as char] + w[1..]
  }

  /** The words capitalised and run together, as in `UserProfile`. */
  function Capitalized(words: seq<string>): (r: string)
    requires forall i :: 0 <= i < |words| ==> IsWord(words[i])
    ensures words != [] ==> r != [] && IsUpperChar(r[0])
    ensures forall i :: 0 <= i < |r| ==> IsLetter(r[i])
    decreases |words|
  {
    if words == [] then []
    else
      var head := Capitalize(words[0]);
      var tail := Capitalized(words[1..]);
      assert forall i :: 0 <= i < |head + tail| ==> (head + tail)[i] == if i < |head| then head[i] else tail[i - |head|];
      head + tail
  }

  /** Words joined by a separator hold only lower-case letters and that separator. */
  lemma {:induction false} JoinedWords(words: seq<string>, sep: char)
    requires |words| >= 1
    requires forall i :: 0 <= i < |words| ==> IsWord(words[i])
    ensures var s := Lines.Join(words, sep);
      s != [] && IsLowerChar(s[0]) && forall i :: 0 <= i < |s| ==> s[i] == sep || IsLowerChar(s[i])
    ensures |words| >= 2 ==> sep in Lines.Join(words, sep)
    decreases |words|
  {
    if |words| > 1 {
      JoinedWords(words[1..], sep);
      var tail := Lines.Join(words[1..], sep);
      var s := Lines.Join(words, sep);
      assert s == words[0] + [sep] + tail;
      assert s[|words[0]|] == sep;
      assert forall i :: 0 <= i < |s| ==> s[i] == if i < |words[0]| then words[0][i] else if i == |words[0]| then sep else tail[i - |words[0]| - 1];
    }
  }

  /** The words a name in convention `c` can be built from: snake and kebab need two words for a separator. */
  predicate Composable(words: seq<string>, c: Convention) {
    && words != []
    && (forall i :: 0 <= i < |words| ==> IsWord(words[i]))
    && c != Mixed
    && ((c == SnakeCase || c == KebabCase) ==> |words| >= 2)
  }

  /** The name convention `c` gives the words: `UserProfile`, `user_profile`, `user-profile`, `userProfile`. */
  function Compose(words: seq<string>, c: Convention): string
    requires Composable(words, c)
  {
    match c
    case PascalCase => Capitalized(words)
    case SnakeCase => Lines.Join(words, '_')
    case KebabCase => Lines.Join(words, '-')
    case CamelCase => words[0] + Capitalized(words[1..])
  }

  /** The cascade recognises every name written in one of the four conventions as that convention. */
  lemma ComposeClassify(words: seq<string>, c: Convention)
    requires Composable(words, c)
    ensures Compose(words, c) != [] && Classify(Compose(words, c)) == c
  {
    var s := Compose(words, c);
    match c
    case PascalCase =>
      assert forall i :: 0 <= i < |s| ==> s[i] != '_' && s[i] != '-';
    case SnakeCase =>
      JoinedWords(words, '_');
      assert IsLowerChar(s[0]);
    case KebabCase =>
      JoinedWords(words, '-');
      assert IsLowerChar(s[0]);
      assert '_' !in s;
    case CamelCase =>
      var tail := Capitalized(words[1..]);
      assert s == words[0] + tail;
      assert forall i :: 0 <= i < |s| ==> s[i] == if i < |words[0]| then words[0][i] else tail[i - |words[0]|];
      assert forall i :: 0 <= i < |s| ==> IsLetter(s[i]);
      assert IsLowerChar(s[0]);
  }

  /** A single lower-case word is camelCase, not snake_case or kebab-case. */
  lemma SingleWordIsCamel(w: string)
    requires IsWord(w)
    ensures Classify(w) == CamelCase
  {
    ComposeClassify([w], CamelCase);
    assert Compose([w], CamelCase) == w + [];
    assert w + [] == w;
  }
}

/**
 * The "Recent Evolution" grouping (skills/guideline-refresher/refresh_guidelines.py,
 * generate_updated_guidelines): the first ten refactor messages are put into
 * four categories by a fixed-precedence keyword test, and the categories are
 * listed in the order they were first used.
 */
module Evolution {
  import opened Text

  datatype RefactorCategory =
    | TypeScriptMigration | TestingImprovements | ComponentRefactoring | GeneralImprovements

  /** Number of refactor messages the grouping looks at (`[:10]`). */
  const GroupedRefactors: nat := 10

  /**
   * The category of a message: "typescript" or "type" first, then "test",
   * then "component" or "react", and anything else is a general improvement.
   */
  function CategoryOf(msg: string): RefactorCategory {
    var m := Lower(msg);
    if Contains(m, "typescript") || Contains(m, "type") then TypeScriptMigration
    else if Contains(m, "test") then TestingImprovements
    else if Contains(m, "component") || Contains(m, "react") then ComponentRefactoring
    else GeneralImprovements
  }

  /** One entry of the `refactor_types` dictionary. */
  datatype Group = Group(category: RefactorCategory, messages: seq<string>)

  predicate DistinctCategories(cats: seq<RefactorCategory>) {
    forall i, j :: 0 <= i < j < |cats| ==> cats[i] != cats[j]
  }

  /** The messages of one category, in input order. */
  function InCategory(msgs: seq<string>, c: RefactorCategory): (r: seq<string>)
    ensures |r| <= |msgs|
    decreases |msgs|
  {
    if msgs == [] then []
    else
      var last := msgs[|msgs| - 1];
      InCategory(msgs[..|msgs| - 1], c) + (if CategoryOf(last) == c then [last] else [])
  }

  /** A category's list holds exactly the messages of that category. */
  lemma {:induction false} InCategoryMembers(msgs: seq<string>, c: RefactorCategory, m: string)
    ensures m in InCategory(msgs, c) <==> m in msgs && CategoryOf(m) == c
    decreases |msgs|
  {
    if msgs != [] {
      var init := msgs[..|msgs| - 1];
      var last := msgs[|msgs| - 1];
      assert msgs == init + [last];
      InCategoryMembers(init, c, m);
    }
  }

  /** The categories used, each once, in the order their first message appears: the dictionary's key order. */
  function Categories(msgs: seq<string>): (cats: seq<RefactorCategory>)
    ensures DistinctCategories(cats)
    decreases |msgs|
  {
    if msgs == [] then []
    else
      var cats := Categories(msgs[..|msgs| - 1]);
      var c := CategoryOf(msgs[|msgs| - 1]);
      if c in cats then cats else cats + [c]
  }

  /** A category is listed exactly when some message falls in it. */
  lemma {:induction false} CategoriesUsed(msgs: seq<string>, c: RefactorCategory)
    ensures c in Categories(msgs) <==> exists m :: m in msgs && CategoryOf(m) == c
    decreases |msgs|
  {
    if msgs != [] {
      var init := msgs[..|msgs| - 1];
      var last := msgs[|msgs| - 1];
      assert forall m :: m in msgs <==> m in init || m == last;
      CategoriesUsed(init, c);
    }
  }

  /** The groups of the given categories, in that order. */
  function GroupsFor(msgs: seq<string>, cats: seq<RefactorCategory>): (groups: seq<Group>)
    ensures |groups| == |cats|
    ensures forall k :: 0 <= k < |cats| ==> groups[k] == Group(cats[k], InCategory(msgs, cats[k]))
    decreases |cats|
  {
    if cats == [] then []
    else
      var c := cats[|cats| - 1];
      GroupsFor(msgs, cats[..|cats| - 1]) + [Group(c, InCategory(msgs, c))]
  }

  /** `refactor_types` after grouping `msgs`. */
  function Grouped(msgs: seq<string>): seq<Group> {
    GroupsFor(msgs, Categories(msgs))
  }

  /** The total number of messages held by the groups. */
  function Sizes(groups: seq<Group>): nat
    decreases |groups|
  {
    if groups == [] then 0 else Sizes(groups[..|groups| - 1]) + |groups[|groups| - 1].messages|
  }

  /** One more message adds one to the group of its category, when that group is listed. */
  lemma {:induction false} SizesSnoc(msgs: seq<string>, m: string, cats: seq<RefactorCategory>)
    requires DistinctCategories(cats)
    ensures Sizes(GroupsFor(msgs + [m], cats)) ==
      Sizes(GroupsFor(msgs, cats)) + (if CategoryOf(m) in cats then 1 else 0)
    decreases |cats|
  {
    if cats != [] {
      var init := cats[..|cats| - 1];
      var c := cats[|cats| - 1];
      SizesSnoc(msgs, m, init);
      var all := msgs + [m];
      assert all[..|all| - 1] == msgs;
      assert CategoryOf(m) in cats <==> CategoryOf(m) in init || CategoryOf(m) == c;
      assert c !in init;
    }
  }

  /** Every message lands in exactly one group: the group sizes sum to the number of messages. */
  lemma {:induction false} GroupedSizes(msgs: seq<string>)
    ensures Sizes(Grouped(msgs)) == |msgs|
    decreases |msgs|
  {
    if msgs != [] {
      var init := msgs[..|msgs| - 1];
      var m := msgs[|msgs| - 1];
      assert msgs == init + [m];
      GroupedSizes(init);
      var cats := Categories(init);
      SizesSnoc(init, m, cats);
      if CategoryOf(m) !in cats {
        NewCategoryGroup(init, m, cats);
      }
    }
  }

  /** A message of a category not yet used opens a group holding just that message. */
  lemma NewCategoryGroup(init: seq<string>, m: string, cats: seq<RefactorCategory>)
    requires cats == Categories(init) && CategoryOf(m) !in cats
    ensures Sizes(GroupsFor(init + [m], cats + [CategoryOf(m)])) == Sizes(GroupsFor(init + [m], cats)) + 1
  {
    var c := CategoryOf(m);
    var msgs := init + [m];
    assert msgs[..|msgs| - 1] == init;
    UnusedCategory(init, c);
    assert InCategory(msgs, c) == [m];
    assert (cats + [c])[..|cats|] == cats;
  }

  /** A category no message falls in has no messages. */
  lemma UnusedCategory(msgs: seq<string>, c: RefactorCategory)
    requires c !in Categories(msgs)
    ensures InCategory(msgs, c) == []
  {
    CategoriesUsed(msgs, c);
    if InCategory(msgs, c) != [] {
      InCategoryMembers(msgs, c, InCategory(msgs, c)[0]);
    }
  }

  /** Grouping one more message extends its category's list and, for a new category, the key order. */
  lemma InCategorySnoc(s: seq<string>, x: string)
    ensures forall c :: InCategory(s + [x], c) == InCategory(s, c) + (if CategoryOf(x) == c then [x] else [])
  {
    assert (s + [x])[..|s|] == s;
  }

  lemma CategoriesSnoc(s: seq<string>, x: string)
    ensures Categories(s + [x]) == if CategoryOf(x) in Categories(s) then Categories(s) else Categories(s) + [CategoryOf(x)]
  {
    assert (s + [x])[..|s|] == s;
  }

  /** The position of the group of category `c`, or -1: the dictionary lookup. */
  function FindCategory(groups: seq<Group>, c: RefactorCategory): (k: int)
    ensures -1 <= k < |groups|
    ensures k >= 0 ==> groups[k].category == c
    ensures k == -1 ==> forall j :: 0 <= j < |groups| ==> groups[j].category != c
    decreases |groups|
  {
    if groups == [] then -1
    else if groups[|groups| - 1].category == c then |groups| - 1
    else FindCategory(groups[..|groups| - 1], c)
  }

  /** One step of the grouping loop: `refactor_types[category].append(msg)`. */
  function AddMessage(groups: seq<Group>, x: string): seq<Group> {
    var c := CategoryOf(x);
    var k := FindCategory(groups, c);
    if k >= 0 then groups[k := Group(c, groups[k].messages + [x])] else groups + [Group(c, [x])]
  }

  /** The dictionary the loop builds, message by message. */
  function Fold(msgs: seq<string>): seq<Group>
    decreases |msgs|
  {
    if msgs == [] then [] else AddMessage(Fold(msgs[..|msgs| - 1]), msgs[|msgs| - 1])
  }

  /** Building the dictionary step by step gives one group per used category, holding its messages. */
  lemma {:induction false} FoldIsGrouped(msgs: seq<string>)
    ensures Fold(msgs) == Grouped(msgs)
    decreases |msgs|
  {
    if msgs != [] {
      var init := msgs[..|msgs| - 1];
      assert msgs == init + [msgs[|msgs| - 1]];
      FoldIsGrouped(init);
      GroupedSnoc(init, msgs[|msgs| - 1]);
    }
  }

  /**
   * `refactor_types[category].append(msg)`: the message joins the group of
   * its category, or opens a new last group when the category is new.
   */
  lemma GroupedSnoc(s: seq<string>, x: string)
    ensures Grouped(s + [x]) == AddMessage(Grouped(s), x)
  {
    if CategoryOf(x) in Categories(s) {
      GroupedSnocKnown(s, x);
    } else {
      GroupedSnocNew(s, x);
    }
  }

  /** A message of a category not used before opens a new last group holding just that message. */
  lemma GroupedSnocNew(s: seq<string>, x: string)
    requires CategoryOf(x) !in Categories(s)
    ensures FindCategory(Grouped(s), CategoryOf(x)) == -1
    ensures Grouped(s + [x]) == Grouped(s) + [Group(CategoryOf(x), [x])]
  {
    NewCategoryMissing(s, CategoryOf(x));
    NewCategoryLast(s, x);
  }

  /** A category no message falls in has no group. */
  lemma NewCategoryMissing(s: seq<string>, c: RefactorCategory)
    requires c !in Categories(s)
    ensures FindCategory(Grouped(s), c) == -1
  {
    var g := Grouped(s);
    forall i | 0 <= i < |g| ensures g[i].category != c {
      assert g[i].category == Categories(s)[i];
    }
  }

  lemma NewCategoryLast(s: seq<string>, x: string)
    requires CategoryOf(x) !in Categories(s)
    ensures Grouped(s + [x]) == Grouped(s) + [Group(CategoryOf(x), [x])]
  {
    var c := CategoryOf(x);
    var cats := Categories(s);
    CategoriesSnoc(s, x);
    assert (cats + [c])[..|cats|] == cats;
    GroupsForUnaffected(s, x, cats);
    InCategorySnoc(s, x);
    UnusedCategory(s, c);
  }

  /** A message whose category is not among `cats` leaves their groups as they were. */
  lemma {:induction false} GroupsForUnaffected(s: seq<string>, x: string, cats: seq<RefactorCategory>)
    requires CategoryOf(x) !in cats
    ensures GroupsFor(s + [x], cats) == GroupsFor(s, cats)
    decreases |cats|
  {
    if cats != [] {
      var init := cats[..|cats| - 1];
      var last := cats[|cats| - 1];
      assert cats == init + [last];
      GroupsForUnaffected(s, x, init);
      InCategorySnoc(s, x);
      assert InCategory(s + [x], last) == InCategory(s, last);
    }
  }

  /** A message of a category already used goes to the end of that category's group. */
  lemma GroupedSnocKnown(s: seq<string>, x: string)
    requires CategoryOf(x) in Categories(s)
    ensures var k := FindCategory(Grouped(s), CategoryOf(x));
      k >= 0 && Grouped(s + [x]) == Grouped(s)[k := Group(CategoryOf(x), Grouped(s)[k].messages + [x])]
  {
    var c := CategoryOf(x);
    var cats := Categories(s);
    var g := Grouped(s);
    var j :| 0 <= j < |cats| && cats[j] == c;
    assert g[j].category == c;
    var k := FindCategory(g, c);
    assert cats[k] == c;
    KnownGroups(s, x);
    var gx := Grouped(s + [x]);
    forall i | 0 <= i < |g| && i != k ensures gx[i] == g[i] {
      assert cats[i] != c;
    }
    UpdatedAt(gx, g, k, Group(c, g[k].messages + [x]));
  }

  /** A list that agrees with `b` everywhere except at `k`, where it holds `v`, is `b[k := v]`. */
  lemma UpdatedAt(a: seq<Group>, b: seq<Group>, k: nat, v: Group)
    requires k < |b| && |a| == |b| && a[k] == v
    requires forall i :: 0 <= i < |b| && i != k ==> a[i] == b[i]
    ensures a == b[k := v]
  {
  }

  /** With a known category, only that category's group gains the message. */
  lemma KnownGroups(s: seq<string>, x: string)
    requires CategoryOf(x) in Categories(s)
    ensures |Grouped(s + [x])| == |Grouped(s)|
    ensures forall i :: 0 <= i < |Grouped(s)| ==>
      Grouped(s + [x])[i] ==
        (if Categories(s)[i] == CategoryOf(x) then Group(CategoryOf(x), Grouped(s)[i].messages + [x]) else Grouped(s)[i])
  {
    CategoriesSnoc(s, x);
    InCategorySnoc(s, x);
  }

  /** The groups have distinct categories, and each holds exactly the messages of its category. */
  lemma GroupedPartition(msgs: seq<string>)
    ensures forall i, j :: 0 <= i < j < |Grouped(msgs)| ==> Grouped(msgs)[i].category != Grouped(msgs)[j].category
    ensures forall k, m :: 0 <= k < |Grouped(msgs)| ==>
      (m in Grouped(msgs)[k].messages <==> m in msgs && CategoryOf(m) == Grouped(msgs)[k].category)
    ensures forall m :: m in msgs ==> exists k :: 0 <= k < |Grouped(msgs)| && Grouped(msgs)[k].category == CategoryOf(m)
  {
    forall k, m | 0 <= k < |Grouped(msgs)|
      ensures m in Grouped(msgs)[k].messages <==> m in msgs && CategoryOf(m) == Grouped(msgs)[k].category
    {
      GroupHolds(msgs, k, m);
    }
    forall m | m in msgs
      ensures exists k :: 0 <= k < |Grouped(msgs)| && Grouped(msgs)[k].category == CategoryOf(m)
    {
      var k := GroupOf(msgs, m);
    }
  }

  /** The `k`-th group holds exactly the messages of its category. */
  lemma GroupHolds(msgs: seq<string>, k: nat, m: string)
    requires k < |Grouped(msgs)|
    ensures m in Grouped(msgs)[k].messages <==> m in msgs && CategoryOf(m) == Grouped(msgs)[k].category
  {
    InCategoryMembers(msgs, Categories(msgs)[k], m);
  }

  /** Every message has the group of its category. */
  lemma GroupOf(msgs: seq<string>, m: string) returns (k: nat)
    requires m in msgs
    ensures k < |Grouped(msgs)| && Grouped(msgs)[k].category == CategoryOf(m)
  {
    var cats := Categories(msgs);
    CategoriesUsed(msgs, CategoryOf(m));
    k :| 0 <= k < |cats| && cats[k] == CategoryOf(m);
  }

  /**
   * The grouping loop: the first ten messages, each appended to the list of
   * its category, and then the lists in first-use order.
   */
  method GroupRefactors(commits: seq<string>) returns (groups: seq<Group>)
    ensures groups == Grouped(Take(commits, GroupedRefactors))
    ensures Sizes(groups) == if |commits| <= GroupedRefactors then |commits| else GroupedRefactors
  {
    var sample := Take(commits, GroupedRefactors);
    groups := [];
    var i := 0;
    while i < |sample|
      invariant 0 <= i <= |sample|
      invariant groups == Fold(sample[..i])
    {
      assert sample[..i + 1][..i] == sample[..i];
      groups := AddToGroups(groups, sample[i]);
      i := i + 1;
    }
    assert sample[..i] == sample;
    FoldIsGrouped(sample);
    GroupedSizes(sample);
  }

  /**
   * The body of the grouping loop: `refactor_types[category].append(msg)`.
   * It runs the step that `AddMessage` specifies; `GroupedSnoc` and
   * `FoldIsGrouped` state what the step means for the groups.
   */
  method AddToGroups(groups: seq<Group>, msg: string) returns (groups': seq<Group>)
    ensures groups' == AddMessage(groups, msg)
  {
    var c := CategoryOf(msg);
    var k := FindCategory(groups, c);
    if k >= 0 {
      groups' := groups[k := Group(c, groups[k].messages + [msg])];
    } else {
      groups' := groups + [Group(c, [msg])];
    }
  }

  /** The TypeScript test comes first: a message naming both types and tests is a TypeScript migration. */
  lemma TypeBeatsTest(msg: string)
    requires Contains(Lower(msg), "type") && Contains(Lower(msg), "test")
    ensures CategoryOf(msg) == TypeScriptMigration
  {
  }

  /** "type" is a plain substring test: "prototype" counts as a TypeScript migration. */
  lemma PrototypeIsTypeScript()
    ensures CategoryOf("refactor prototype chain") == TypeScriptMigration
  {
    var m := Lower("refactor prototype chain");
    assert m == "refactor prototype chain";
    assert MatchesAt(m, "type", 14);
  }
}

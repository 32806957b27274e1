/**
 * The search filter and expansion toggle of the requirement tree view
 * (src/components/ui/requirement-tree.tsx). Categories hold subcategories,
 * subcategories hold requirements. The filter keeps, case-insensitively, the
 * requirements whose id or name contains the search text, the subcategories
 * whose name contains it or that kept a requirement, and the categories whose
 * name contains it or that kept a subcategory; on the way it collects the ids
 * of the tree items to expand.
 */
module RequirementTree {
  import opened Seqs

  datatype Requirement = Requirement(dbId: string, id: string, name: string)
  datatype Subcategory = Subcategory(subcategoryName: string, subcategoryId: string, requirements: seq<Requirement>)
  datatype Category = Category(categoryName: string, categoryId: string, subcategories: seq<Subcategory>)

  /* ---------- case-insensitive substring search ---------- */

  /** `toLowerCase` on one character (ASCII letters only). */
  function LowerChar(c: char): char {
    if 'A' <= c <= 'Z' then (c as int + 32) as char else c
  }

  /** `toLowerCase`: each ASCII capital becomes its lower-case letter, every other character is kept. */
  function ToLower(s: string): (r: string)
    ensures |r| == |s|
    ensures forall i :: 0 <= i < |s| ==> !('A' <= r[i] <= 'Z')
    ensures forall i :: 0 <= i < |s| && 'A' <= s[i] <= 'Z' ==> r[i] as int == s[i] as int + 32
    ensures forall i :: 0 <= i < |s| && !('A' <= s[i] <= 'Z') ==> r[i] == s[i]
  {
    var r := Map(s, LowerChar);
    assert forall i | 0 <= i < |s| :: r[i] == LowerChar(s[i]);
    r
  }

  predicate StartsWith(s: string, t: string) {
    |t| <= |s| && s[..|t|] == t
  }

  /** `s.includes(t)`. */
  predicate Includes(s: string, t: string): (b: bool)
    ensures |t| == 0 ==> b
    ensures b ==> |t| <= |s|
    decreases |s|
  {
    StartsWith(s, t) || (|s| > 0 && Includes(s[1..], t))
  }

  predicate OccursAt(s: string, t: string, k: int)
    requires 0 <= k <= |s| - |t|
  {
    s[k..k + |t|] == t
  }

  /** `includes` finds `t` exactly when `t` occurs in `s` at some position. */
  lemma {:induction false} IncludesIff(s: string, t: string)
    ensures Includes(s, t) <==> exists k :: 0 <= k <= |s| - |t| && OccursAt(s, t, k)
    decreases |s|
  {
    if |s| > 0 {
      IncludesIff(s[1..], t);
      if Includes(s[1..], t) {
        var k :| 0 <= k <= |s[1..]| - |t| && OccursAt(s[1..], t, k);
        assert OccursAt(s, t, k + 1);
      }
      if StartsWith(s, t) {
        assert OccursAt(s, t, 0);
      }
      if !StartsWith(s, t) && exists k :: 0 <= k <= |s| - |t| && OccursAt(s, t, k) {
        var k :| 0 <= k <= |s| - |t| && OccursAt(s, t, k);
        assert k != 0;
        assert s[1..][k - 1..k - 1 + |t|] == s[k..k + |t|];
        assert OccursAt(s[1..], t, k - 1);
      }
    } else if |t| == 0 {
      assert OccursAt(s, t, 0);
    }
  }

  /** `text.toLowerCase().includes(filter.toLowerCase())`. */
  predicate TextMatches(text: string, filter: string): (b: bool)
    ensures b <==> exists k :: 0 <= k <= |text| - |filter| && OccursAt(ToLower(text), ToLower(filter), k)
  {
    IncludesIff(ToLower(text), ToLower(filter));
    Includes(ToLower(text), ToLower(filter))
  }

  /** Every text contains the empty filter. */
  lemma EmptyFilterMatches(text: string)
    ensures TextMatches(text, "")
  {
    assert ToLower("") == "";
  }

  /* ---------- the three levels of the filter ---------- */

  /** The requirement filter of line 66: its id or its name contains the filter. */
  predicate RequirementMatches(r: Requirement, filter: string) {
    TextMatches(r.id, filter) || TextMatches(r.name, filter)
  }

  function RequirementFilter(filter: string): Requirement -> bool {
    r => RequirementMatches(r, filter)
  }

  /** `subcategory.requirements.filter(...)`: the requirements that match, and all of them. */
  function FilterRequirements(requirements: seq<Requirement>, filter: string): (r: seq<Requirement>)
    ensures |r| <= |requirements|
    ensures forall x :: x in r ==> x in requirements && RequirementMatches(x, filter)
    ensures forall x :: x in requirements && RequirementMatches(x, filter) ==> x in r
  {
    FilterSound(requirements, RequirementFilter(filter));
    FilterComplete(requirements, RequirementFilter(filter));
    Filter(requirements, RequirementFilter(filter))
  }

  /** `{ ...subcategory, requirements: filteredRequirements }`. */
  function PruneSubcategory(s: Subcategory, filter: string): (r: Subcategory)
    ensures r.subcategoryName == s.subcategoryName && r.subcategoryId == s.subcategoryId
    ensures forall x :: x in r.requirements ==> x in s.requirements && RequirementMatches(x, filter)
  {
    s.(requirements := FilterRequirements(s.requirements, filter))
  }

  function SubcategoryPruner(filter: string): Subcategory -> Subcategory {
    s => PruneSubcategory(s, filter)
  }

  /** The subcategory filter of line 78, applied to a pruned subcategory. */
  predicate SubcategoryKept(s: Subcategory, filter: string) {
    TextMatches(s.subcategoryName, filter) || |s.requirements| > 0
  }

  function SubcategoryKeeper(filter: string): Subcategory -> bool {
    s => SubcategoryKept(s, filter)
  }

  /** The `.map(...).filter(...)` of lines 63-78: pruned subcategories that pass the test of line 78. */
  function FilterSubcategories(subcategories: seq<Subcategory>, filter: string): (r: seq<Subcategory>)
    ensures |r| <= |subcategories|
    ensures forall k :: k in r ==> SubcategoryKept(k, filter)
  {
    FilterSound(Map(subcategories, SubcategoryPruner(filter)), SubcategoryKeeper(filter));
    Filter(Map(subcategories, SubcategoryPruner(filter)), SubcategoryKeeper(filter))
  }

  /** `{ ...category, subcategories: filteredSubcategories }`. */
  function PruneCategory(c: Category, filter: string): (r: Category)
    ensures r.categoryName == c.categoryName && r.categoryId == c.categoryId
    ensures |r.subcategories| <= |c.subcategories|
    ensures forall k :: k in r.subcategories ==> SubcategoryKept(k, filter)
  {
    c.(subcategories := FilterSubcategories(c.subcategories, filter))
  }

  function CategoryPruner(filter: string): Category -> Category {
    c => PruneCategory(c, filter)
  }

  /** The category filter of line 89, applied to a pruned category. */
  predicate CategoryKept(c: Category, filter: string) {
    TextMatches(c.categoryName, filter) || |c.subcategories| > 0
  }

  function CategoryKeeper(filter: string): Category -> bool {
    c => CategoryKept(c, filter)
  }

  /** The `filtered` value of the memo. */
  function FilteredCategories(categories: seq<Category>, filter: string): (r: seq<Category>)
    ensures |r| <= |categories|
    ensures forall k :: k in r ==> CategoryKept(k, filter)
  {
    FilterSound(Map(categories, CategoryPruner(filter)), CategoryKeeper(filter));
    Filter(Map(categories, CategoryPruner(filter)), CategoryKeeper(filter))
  }

  /* ---------- the expansion list ---------- */

  /** The pushes of line 70 for the subcategories of category `categoryId`, in order. */
  function SubcategoryExpansion(categoryId: string, subcategories: seq<Subcategory>, filter: string): (r: seq<string>)
    ensures |r| <= 2 * |subcategories|
    decreases |subcategories|
  {
    if subcategories == [] then []
    else
      var last := subcategories[|subcategories| - 1];
      SubcategoryExpansion(categoryId, subcategories[..|subcategories| - 1], filter) +
      (if |FilterRequirements(last.requirements, filter)| > 0 then [categoryId, last.subcategoryId] else [])
  }

  /** One more subcategory adds its own pushes at the end. */
  lemma SubcategoryExpansionSnoc(categoryId: string, subcategories: seq<Subcategory>, s: Subcategory, filter: string)
    ensures SubcategoryExpansion(categoryId, subcategories + [s], filter) ==
            SubcategoryExpansion(categoryId, subcategories, filter) +
            (if |FilterRequirements(s.requirements, filter)| > 0 then [categoryId, s.subcategoryId] else [])
  {
    var longer := subcategories + [s];
    assert longer[..|longer| - 1] == subcategories && longer[|longer| - 1] == s;
  }

  /** The pushes made while one category is filtered: those of its subcategories, then line 81. */
  function CategoryExpansion(c: Category, filter: string): (r: seq<string>)
    ensures |r| <= 2 * |c.subcategories| + 1
  {
    SubcategoryExpansion(c.categoryId, c.subcategories, filter) +
    (if |FilterSubcategories(c.subcategories, filter)| > 0 then [c.categoryId] else [])
  }

  /** The `newExpandedItems` the memo hands to `setExpandedItems`. */
  function ExpandedItems(categories: seq<Category>, filter: string): (r: seq<string>)
    ensures forall x :: x in r ==> exists c :: c in categories && x in CategoryExpansion(c, filter)
    decreases |categories|
  {
    if categories == [] then []
    else ExpandedItems(categories[..|categories| - 1], filter) + CategoryExpansion(categories[|categories| - 1], filter)
  }

  /** One more subcategory is kept, pruned, at the end when it passes the test of line 78. */
  lemma FilterSubcategoriesSnoc(subcategories: seq<Subcategory>, s: Subcategory, filter: string)
    ensures FilterSubcategories(subcategories + [s], filter) ==
            FilterSubcategories(subcategories, filter) +
            (if SubcategoryKept(PruneSubcategory(s, filter), filter) then [PruneSubcategory(s, filter)] else [])
  {
    MapSnoc(subcategories, s, SubcategoryPruner(filter));
    FilterSnoc(Map(subcategories, SubcategoryPruner(filter)), PruneSubcategory(s, filter), SubcategoryKeeper(filter));
  }

  /** One more category is kept, pruned, at the end when it passes the test of line 89. */
  lemma FilteredCategoriesSnoc(categories: seq<Category>, c: Category, filter: string)
    ensures FilteredCategories(categories + [c], filter) ==
            FilteredCategories(categories, filter) +
            (if CategoryKept(PruneCategory(c, filter), filter) then [PruneCategory(c, filter)] else [])
  {
    MapSnoc(categories, c, CategoryPruner(filter));
    FilterSnoc(Map(categories, CategoryPruner(filter)), PruneCategory(c, filter), CategoryKeeper(filter));
  }

  /** One more category adds its own pushes at the end. */
  lemma ExpandedItemsSnoc(categories: seq<Category>, c: Category, filter: string)
    ensures ExpandedItems(categories + [c], filter) == ExpandedItems(categories, filter) + CategoryExpansion(c, filter)
  {
    var longer := categories + [c];
    assert longer[..|longer| - 1] == categories && longer[|longer| - 1] == c;
  }

  /**
   * The `.map` callback of lines 62-87 for one category: filter its
   * subcategories, pushing ids as it goes, and return the pruned category with
   * the ids it pushed.
   */
  method VisitCategory(category: Category, filter: string) returns (pruned: Category, pushed: seq<string>)
    ensures pruned == PruneCategory(category, filter)
    ensures pushed == CategoryExpansion(category, filter)
  {
    var subcategories := category.subcategories;
    var filteredSubcategories: seq<Subcategory> := [];
    pushed := [];
    var j := 0;
    while j < |subcategories|
      invariant 0 <= j <= |subcategories|
      invariant filteredSubcategories == FilterSubcategories(subcategories[..j], filter)
      invariant pushed == SubcategoryExpansion(category.categoryId, subcategories[..j], filter)
    {
      var subcategory := subcategories[j];
      assert subcategories[..j + 1] == subcategories[..j] + [subcategory];
      SubcategoryExpansionSnoc(category.categoryId, subcategories[..j], subcategory, filter);
      var filteredRequirements := FilterRequirements(subcategory.requirements, filter);
      if |filteredRequirements| > 0 {
        pushed := pushed + [category.categoryId, subcategory.subcategoryId];
      }
      var prunedSubcategory := subcategory.(requirements := filteredRequirements);
      if SubcategoryKept(prunedSubcategory, filter) {
        filteredSubcategories := filteredSubcategories + [prunedSubcategory];
      }
      FilterSubcategoriesSnoc(subcategories[..j], subcategory, filter);
      j := j + 1;
    }
    assert subcategories[..j] == subcategories;
    if |filteredSubcategories| > 0 {
      pushed := pushed + [category.categoryId];
    }
    pruned := category.(subcategories := filteredSubcategories);
  }

  /**
   * The `filteredCategories` memo (lines 58-93): map every category through
   * VisitCategory, appending what it pushes to the expansion list, and keep the
   * pruned categories that pass the test of line 89.
   */
  method ComputeFilteredCategories(categories: seq<Category>, filter: string)
    returns (filtered: seq<Category>, expandedItems: seq<string>)
    ensures filtered == FilteredCategories(categories, filter)
    ensures expandedItems == ExpandedItems(categories, filter)
  {
    filtered, expandedItems := [], [];
    var i := 0;
    while i < |categories|
      invariant 0 <= i <= |categories|
      invariant filtered == FilteredCategories(categories[..i], filter)
      invariant expandedItems == ExpandedItems(categories[..i], filter)
    {
      var category := categories[i];
      assert categories[..i + 1] == categories[..i] + [category];
      ExpandedItemsSnoc(categories[..i], category, filter);
      var pruned, pushed := VisitCategory(category, filter);
      expandedItems := expandedItems + pushed;
      if CategoryKept(pruned, filter) {
        filtered := filtered + [pruned];
      }
      FilteredCategoriesSnoc(categories[..i], category, filter);
      i := i + 1;
    }
    assert categories[..i] == categories;
  }

  /* ---------- what the filter promises ---------- */

  /** Some requirement of `s` has an id or name containing the filter. */
  ghost predicate HasMatchingRequirement(s: Subcategory, filter: string) {
    exists r :: r in s.requirements && RequirementMatches(r, filter)
  }

  /** A subcategory survives the filter: its name matches, or one of its requirements does. */
  ghost predicate SubcategoryIncluded(s: Subcategory, filter: string) {
    TextMatches(s.subcategoryName, filter) || HasMatchingRequirement(s, filter)
  }

  /** A category survives the filter: its name matches, or one of its subcategories survives. */
  ghost predicate CategoryIncluded(c: Category, filter: string) {
    TextMatches(c.categoryName, filter) || exists s :: s in c.subcategories && SubcategoryIncluded(s, filter)
  }

  /**
   * A pruned subcategory keeps its name and id, and exactly the requirements
   * that match, each as often as before and in their original order.
   */
  lemma PrunedRequirements(s: Subcategory, filter: string)
    ensures var kept := PruneSubcategory(s, filter);
            kept.subcategoryName == s.subcategoryName && kept.subcategoryId == s.subcategoryId &&
            (forall r :: r in kept.requirements ==> RequirementMatches(r, filter)) &&
            (forall r :: r in s.requirements && RequirementMatches(r, filter) ==> r in kept.requirements) &&
            (forall r :: RequirementMatches(r, filter) ==> multiset(kept.requirements)[r] == multiset(s.requirements)[r]) &&
            IsSubsequence(kept.requirements, s.requirements)
  {
    var p := RequirementFilter(filter);
    FilterSound(s.requirements, p);
    FilterComplete(s.requirements, p);
    FilterCount(s.requirements, p);
    FilterIsSubsequence(s.requirements, p);
  }

  /** `filteredRequirements.length > 0` exactly when a requirement matches. */
  lemma HasMatchingIff(s: Subcategory, filter: string)
    ensures |FilterRequirements(s.requirements, filter)| > 0 <==> HasMatchingRequirement(s, filter)
  {
    FilterNonEmpty(s.requirements, RequirementFilter(filter));
  }

  /** The subcategory test of line 78 on the pruned subcategory is SubcategoryIncluded on the original. */
  lemma SubcategoryKeptIff(s: Subcategory, filter: string)
    ensures SubcategoryKept(PruneSubcategory(s, filter), filter) <==> SubcategoryIncluded(s, filter)
  {
    HasMatchingIff(s, filter);
  }

  /**
   * A subcategory is kept (pruned) exactly when it is SubcategoryIncluded;
   * whatever is kept is the pruned form of an original, in the original order.
   */
  lemma FilterSubcategoriesCorrect(subcategories: seq<Subcategory>, filter: string)
    ensures var kept := FilterSubcategories(subcategories, filter);
            (forall s :: s in subcategories ==> (PruneSubcategory(s, filter) in kept <==> SubcategoryIncluded(s, filter))) &&
            (forall k :: k in kept ==> exists s :: s in subcategories && k == PruneSubcategory(s, filter) && SubcategoryIncluded(s, filter)) &&
            IsSubsequence(kept, Map(subcategories, SubcategoryPruner(filter))) &&
            forall k :: multiset(kept)[k] ==
                          if SubcategoryKept(k, filter) then multiset(Map(subcategories, SubcategoryPruner(filter)))[k] else 0
  {
    var pruned := Map(subcategories, SubcategoryPruner(filter));
    FilterCount(pruned, SubcategoryKeeper(filter));
    FilterIsSubsequence(pruned, SubcategoryKeeper(filter));
    KeptSubcategoriesIncluded(subcategories, filter);
    KeptSubcategoriesOrigin(subcategories, filter);
  }

  /** A subcategory's pruned form is kept exactly when the subcategory is SubcategoryIncluded. */
  lemma KeptSubcategoriesIncluded(subcategories: seq<Subcategory>, filter: string)
    ensures forall s :: s in subcategories ==>
              (PruneSubcategory(s, filter) in FilterSubcategories(subcategories, filter) <==> SubcategoryIncluded(s, filter))
  {
    var pruned := Map(subcategories, SubcategoryPruner(filter));
    var kept := FilterSubcategories(subcategories, filter);
    FilterSound(pruned, SubcategoryKeeper(filter));
    FilterComplete(pruned, SubcategoryKeeper(filter));
    forall s | s in subcategories
      ensures PruneSubcategory(s, filter) in kept <==> SubcategoryIncluded(s, filter)
    {
      var i :| 0 <= i < |subcategories| && subcategories[i] == s;
      assert pruned[i] == PruneSubcategory(s, filter);
      SubcategoryKeptIff(s, filter);
    }
  }

  /** Every kept subcategory is the pruned form of an included original. */
  lemma KeptSubcategoriesOrigin(subcategories: seq<Subcategory>, filter: string)
    ensures forall k :: k in FilterSubcategories(subcategories, filter) ==>
              exists s :: s in subcategories && k == PruneSubcategory(s, filter) && SubcategoryIncluded(s, filter)
  {
    var pruned := Map(subcategories, SubcategoryPruner(filter));
    var kept := FilterSubcategories(subcategories, filter);
    FilterSound(pruned, SubcategoryKeeper(filter));
    forall k | k in kept
      ensures exists s :: s in subcategories && k == PruneSubcategory(s, filter) && SubcategoryIncluded(s, filter)
    {
      var i :| 0 <= i < |pruned| && pruned[i] == k;
      SubcategoryKeptIff(subcategories[i], filter);
      assert subcategories[i] in subcategories;
    }
  }

  /** `filteredSubcategories.length > 0` exactly when some subcategory is SubcategoryIncluded. */
  lemma KeptSubcategoriesIff(subcategories: seq<Subcategory>, filter: string)
    ensures |FilterSubcategories(subcategories, filter)| > 0 <==>
              exists s :: s in subcategories && SubcategoryIncluded(s, filter)
  {
    FilterSubcategoriesCorrect(subcategories, filter);
    var kept := FilterSubcategories(subcategories, filter);
    if |kept| > 0 {
      assert kept[0] in kept;
    }
  }

  /** The category test of line 89 on the pruned category is CategoryIncluded on the original. */
  lemma CategoryKeptIff(c: Category, filter: string)
    ensures CategoryKept(PruneCategory(c, filter), filter) <==> CategoryIncluded(c, filter)
  {
    KeptSubcategoriesIff(c.subcategories, filter);
  }

  /**
   * A category is kept exactly when it is CategoryIncluded; every kept
   * category is an original one with the same name and id and with only its
   * subcategories filtered, in the original order.
   */
  lemma FilteredCategoriesCorrect(categories: seq<Category>, filter: string)
    ensures var kept := FilteredCategories(categories, filter);
            (forall c :: c in categories ==> (PruneCategory(c, filter) in kept <==> CategoryIncluded(c, filter))) &&
            (forall k :: k in kept ==>
               exists c :: c in categories && CategoryIncluded(c, filter) &&
                 k.categoryName == c.categoryName && k.categoryId == c.categoryId &&
                 k.subcategories == FilterSubcategories(c.subcategories, filter)) &&
            IsSubsequence(kept, Map(categories, CategoryPruner(filter))) &&
            forall k :: multiset(kept)[k] ==
                          if CategoryKept(k, filter) then multiset(Map(categories, CategoryPruner(filter)))[k] else 0
  {
    var pruned := Map(categories, CategoryPruner(filter));
    FilterCount(pruned, CategoryKeeper(filter));
    FilterIsSubsequence(pruned, CategoryKeeper(filter));
    KeptCategoriesIncluded(categories, filter);
    KeptCategoriesOrigin(categories, filter);
  }

  /** A category's pruned form is kept exactly when the category is CategoryIncluded. */
  lemma KeptCategoriesIncluded(categories: seq<Category>, filter: string)
    ensures forall c :: c in categories ==>
              (PruneCategory(c, filter) in FilteredCategories(categories, filter) <==> CategoryIncluded(c, filter))
  {
    var pruned := Map(categories, CategoryPruner(filter));
    var kept := FilteredCategories(categories, filter);
    FilterSound(pruned, CategoryKeeper(filter));
    FilterComplete(pruned, CategoryKeeper(filter));
    forall c | c in categories
      ensures PruneCategory(c, filter) in kept <==> CategoryIncluded(c, filter)
    {
      var i :| 0 <= i < |categories| && categories[i] == c;
      assert pruned[i] == PruneCategory(c, filter);
      CategoryKeptIff(c, filter);
    }
  }

  /** Every kept category is an included original with only its subcategories filtered. */
  lemma KeptCategoriesOrigin(categories: seq<Category>, filter: string)
    ensures forall k :: k in FilteredCategories(categories, filter) ==>
              exists c :: c in categories && CategoryIncluded(c, filter) &&
                k.categoryName == c.categoryName && k.categoryId == c.categoryId &&
                k.subcategories == FilterSubcategories(c.subcategories, filter)
  {
    var pruned := Map(categories, CategoryPruner(filter));
    var kept := FilteredCategories(categories, filter);
    FilterSound(pruned, CategoryKeeper(filter));
    forall k | k in kept
      ensures exists c :: c in categories && CategoryIncluded(c, filter) &&
                k.categoryName == c.categoryName && k.categoryId == c.categoryId &&
                k.subcategories == FilterSubcategories(c.subcategories, filter)
    {
      var i :| 0 <= i < |pruned| && pruned[i] == k;
      CategoryKeptIff(categories[i], filter);
      assert categories[i] in categories;
    }
  }

  /** With an empty filter every category, subcategory and requirement is kept unchanged. */
  lemma EmptyFilterKeepsAll(categories: seq<Category>)
    ensures FilteredCategories(categories, "") == categories
  {
    forall text: string ensures TextMatches(text, "") {
      EmptyFilterMatches(text);
    }
    forall c | c in categories ensures PruneCategory(c, "") == c {
      forall s | s in c.subcategories ensures PruneSubcategory(s, "") == s {
        FilterAll(s.requirements, RequirementFilter(""));
      }
      var pruned := Map(c.subcategories, SubcategoryPruner(""));
      assert pruned == c.subcategories;
      FilterAll(pruned, SubcategoryKeeper(""));
    }
    var pruned := Map(categories, CategoryPruner(""));
    assert pruned == categories;
    FilterAll(pruned, CategoryKeeper(""));
  }

  /** A subcategory kept for its name alone is kept with an empty requirement list. */
  lemma NameMatchKeepsEmptySubcategory()
    ensures var subcategory := Subcategory("Access", "s1", [Requirement("db1", "R1", "Go")]);
            FilterSubcategories([subcategory], "acc") == [Subcategory("Access", "s1", [])]
  {
    var requirement := Requirement("db1", "R1", "Go");
    var subcategory := Subcategory("Access", "s1", [requirement]);
    assert ToLower("acc") == "acc" by {
      assert ToLower("acc") == [LowerChar('a'), LowerChar('c'), LowerChar('c')];
    }
    assert ToLower("R1") == "r1" by {
      assert ToLower("R1") == [LowerChar('R'), LowerChar('1')];
    }
    assert ToLower("Go") == "go" by {
      assert ToLower("Go") == [LowerChar('G'), LowerChar('o')];
    }
    assert !Includes("r1", "acc") && !Includes("go", "acc") by {
      assert !Includes("1", "acc") && !Includes("o", "acc") by {
        assert !Includes("", "acc");
        assert "1"[1..] == "" && "o"[1..] == "";
      }
      assert "r1"[1..] == "1" && "go"[1..] == "o";
    }
    assert !RequirementFilter("acc")(requirement);
    assert FilterRequirements([requirement], "acc") == [] by {
      assert [requirement][..0] == [];
    }
    var pruned := PruneSubcategory(subcategory, "acc");
    assert pruned == Subcategory("Access", "s1", []);
    assert ToLower("Access") == "access" by {
      assert ToLower("Access") == [LowerChar('A'), LowerChar('c'), LowerChar('c'), LowerChar('e'), LowerChar('s'), LowerChar('s')];
    }
    assert StartsWith("access", "acc");
    assert SubcategoryKeeper("acc")(pruned);
    assert Map([subcategory], SubcategoryPruner("acc")) == [pruned];
    assert [pruned][..0] == [];
  }

  /* ---------- what the expansion list holds ---------- */

  /** The ids pushed for the subcategories of one category. */
  lemma SubcategoryExpansionMembers(categoryId: string, subcategories: seq<Subcategory>, filter: string)
    ensures forall x :: x in SubcategoryExpansion(categoryId, subcategories, filter) <==>
              exists j :: 0 <= j < |subcategories| && HasMatchingRequirement(subcategories[j], filter) &&
                          (x == categoryId || x == subcategories[j].subcategoryId)
  {
    forall x ensures x in SubcategoryExpansion(categoryId, subcategories, filter) <==>
                     exists j :: 0 <= j < |subcategories| && HasMatchingRequirement(subcategories[j], filter) &&
                                 (x == categoryId || x == subcategories[j].subcategoryId)
    {
      if x in SubcategoryExpansion(categoryId, subcategories, filter) {
        SubcategoryExpansionSound(categoryId, subcategories, filter, x);
      }
      if exists j :: 0 <= j < |subcategories| && HasMatchingRequirement(subcategories[j], filter) &&
                     (x == categoryId || x == subcategories[j].subcategoryId) {
        var j :| 0 <= j < |subcategories| && HasMatchingRequirement(subcategories[j], filter) &&
                 (x == categoryId || x == subcategories[j].subcategoryId);
        SubcategoryExpansionComplete(categoryId, subcategories, filter, j, x);
      }
    }
  }

  /** Every id pushed inside a category is its id or the id of a subcategory with a matching requirement. */
  lemma {:induction false} SubcategoryExpansionSound(categoryId: string, subcategories: seq<Subcategory>, filter: string, x: string)
    requires x in SubcategoryExpansion(categoryId, subcategories, filter)
    ensures exists j :: 0 <= j < |subcategories| && HasMatchingRequirement(subcategories[j], filter) &&
                        (x == categoryId || x == subcategories[j].subcategoryId)
    decreases |subcategories|
  {
    var init := subcategories[..|subcategories| - 1];
    var last := subcategories[|subcategories| - 1];
    assert subcategories == init + [last];
    SubcategoryExpansionSnoc(categoryId, init, last, filter);
    if x in SubcategoryExpansion(categoryId, init, filter) {
      SubcategoryExpansionSound(categoryId, init, filter, x);
      var j :| 0 <= j < |init| && HasMatchingRequirement(init[j], filter) &&
               (x == categoryId || x == init[j].subcategoryId);
      assert subcategories[j] == init[j];
    } else {
      HasMatchingIff(last, filter);
      assert HasMatchingRequirement(subcategories[|subcategories| - 1], filter);
    }
  }

  /** A subcategory with a matching requirement pushes the category id and its own id. */
  lemma {:induction false} SubcategoryExpansionComplete(categoryId: string, subcategories: seq<Subcategory>, filter: string,
                                                        j: int, x: string)
    requires 0 <= j < |subcategories| && HasMatchingRequirement(subcategories[j], filter)
    requires x == categoryId || x == subcategories[j].subcategoryId
    ensures x in SubcategoryExpansion(categoryId, subcategories, filter)
    decreases |subcategories|
  {
    var init := subcategories[..|subcategories| - 1];
    var last := subcategories[|subcategories| - 1];
    assert subcategories == init + [last];
    SubcategoryExpansionSnoc(categoryId, init, last, filter);
    if j < |init| {
      assert init[j] == subcategories[j];
      SubcategoryExpansionComplete(categoryId, init, filter, j, x);
    } else {
      assert j == |subcategories| - 1;
      HasMatchingIff(last, filter);
    }
  }

  /** What one category pushes is in the expansion list. */
  lemma {:induction false} ExpandedItemsComplete(categories: seq<Category>, filter: string, i: int, x: string)
    requires 0 <= i < |categories| && x in CategoryExpansion(categories[i], filter)
    ensures x in ExpandedItems(categories, filter)
    decreases |categories|
  {
    var init := categories[..|categories| - 1];
    if i < |init| {
      assert init[i] == categories[i];
      ExpandedItemsComplete(init, filter, i, x);
    } else {
      assert i == |categories| - 1;
    }
    ExpandedItemsSplit(categories, filter, x);
  }

  /** An id is in the list exactly when the earlier categories or the last one pushed it. */
  lemma ExpandedItemsSplit(categories: seq<Category>, filter: string, x: string)
    requires categories != []
    ensures x in ExpandedItems(categories, filter) <==>
              x in ExpandedItems(categories[..|categories| - 1], filter) ||
              x in CategoryExpansion(categories[|categories| - 1], filter)
  {
  }

  /** The subcategory pushes come in pairs: the category id, then a subcategory id. */
  lemma {:induction false} SubcategoryExpansionPairs(categoryId: string, subcategories: seq<Subcategory>, filter: string)
    ensures |SubcategoryExpansion(categoryId, subcategories, filter)| % 2 == 0
    ensures forall i :: 0 <= i < |SubcategoryExpansion(categoryId, subcategories, filter)| && i % 2 == 0 ==>
                          SubcategoryExpansion(categoryId, subcategories, filter)[i] == categoryId
    decreases |subcategories|
  {
    if subcategories != [] {
      var init := subcategories[..|subcategories| - 1];
      SubcategoryExpansionPairs(categoryId, init, filter);
      var prefix := SubcategoryExpansion(categoryId, init, filter);
      var r := SubcategoryExpansion(categoryId, subcategories, filter);
      var last := subcategories[|subcategories| - 1];
      if |FilterRequirements(last.requirements, filter)| > 0 {
        assert r == prefix + [categoryId, last.subcategoryId];
        forall i | 0 <= i < |r| && i % 2 == 0 ensures r[i] == categoryId {
          if i < |prefix| {
            assert r[i] == prefix[i];
          } else {
            assert i == |prefix|;
          }
        }
      } else {
        assert r == prefix;
      }
    }
  }

  /** The ids pushed while all categories are filtered: the union of what each category pushes. */
  lemma ExpandedItemsMembers(categories: seq<Category>, filter: string)
    ensures forall x :: x in ExpandedItems(categories, filter) <==>
              exists i :: 0 <= i < |categories| && x in CategoryExpansion(categories[i], filter)
  {
    forall x ensures x in ExpandedItems(categories, filter) <==>
                     exists i :: 0 <= i < |categories| && x in CategoryExpansion(categories[i], filter)
    {
      if x in ExpandedItems(categories, filter) {
        var c :| c in categories && x in CategoryExpansion(c, filter);
        var i :| 0 <= i < |categories| && categories[i] == c;
      }
      if exists i :: 0 <= i < |categories| && x in CategoryExpansion(categories[i], filter) {
        var i :| 0 <= i < |categories| && x in CategoryExpansion(categories[i], filter);
        ExpandedItemsComplete(categories, filter, i, x);
      }
    }
  }

  /**
   * Whenever a subcategory has a matching requirement, its category id and
   * its own id are in the expansion list, and the id of every category with a
   * surviving subcategory is in it.
   */
  lemma ExpansionComplete(categories: seq<Category>, filter: string)
    ensures forall i, j :: (0 <= i < |categories| && 0 <= j < |categories[i].subcategories| &&
                            HasMatchingRequirement(categories[i].subcategories[j], filter)) ==>
              categories[i].categoryId in ExpandedItems(categories, filter) &&
              categories[i].subcategories[j].subcategoryId in ExpandedItems(categories, filter)
    ensures forall i :: (0 <= i < |categories| &&
                         exists s :: s in categories[i].subcategories && SubcategoryIncluded(s, filter)) ==>
              categories[i].categoryId in ExpandedItems(categories, filter)
  {
    ExpandedItemsMembers(categories, filter);
    forall i | 0 <= i < |categories|
      ensures forall j :: (0 <= j < |categories[i].subcategories| &&
                           HasMatchingRequirement(categories[i].subcategories[j], filter)) ==>
                categories[i].categoryId in CategoryExpansion(categories[i], filter) &&
                categories[i].subcategories[j].subcategoryId in CategoryExpansion(categories[i], filter)
      ensures (exists s :: s in categories[i].subcategories && SubcategoryIncluded(s, filter)) ==>
                categories[i].categoryId in CategoryExpansion(categories[i], filter)
    {
      SubcategoryExpansionMembers(categories[i].categoryId, categories[i].subcategories, filter);
      KeptSubcategoriesIff(categories[i].subcategories, filter);
    }
  }

  /**
   * Nothing else is in the expansion list: each id in it is the id of a
   * category with a surviving subcategory, or of a subcategory with a matching requirement.
   */
  lemma ExpansionSound(categories: seq<Category>, filter: string)
    ensures forall x :: x in ExpandedItems(categories, filter) ==>
              exists i :: 0 <= i < |categories| &&
                ((x == categories[i].categoryId &&
                  exists s :: s in categories[i].subcategories && SubcategoryIncluded(s, filter)) ||
                 (exists j :: 0 <= j < |categories[i].subcategories| &&
                    x == categories[i].subcategories[j].subcategoryId &&
                    HasMatchingRequirement(categories[i].subcategories[j], filter)))
  {
    forall x | x in ExpandedItems(categories, filter)
      ensures exists i :: 0 <= i < |categories| &&
                ((x == categories[i].categoryId &&
                  exists s :: s in categories[i].subcategories && SubcategoryIncluded(s, filter)) ||
                 (exists j :: 0 <= j < |categories[i].subcategories| &&
                    x == categories[i].subcategories[j].subcategoryId &&
                    HasMatchingRequirement(categories[i].subcategories[j], filter)))
    {
      var c :| c in categories && x in CategoryExpansion(c, filter);
      var i :| 0 <= i < |categories| && categories[i] == c;
      if x in SubcategoryExpansion(c.categoryId, c.subcategories, filter) {
        SubcategoryExpansionSound(c.categoryId, c.subcategories, filter, x);
        var j :| 0 <= j < |c.subcategories| && HasMatchingRequirement(c.subcategories[j], filter) &&
                 (x == c.categoryId || x == c.subcategories[j].subcategoryId);
        assert c.subcategories[j] in c.subcategories && SubcategoryIncluded(c.subcategories[j], filter);
      } else {
        KeptSubcategoriesIff(c.subcategories, filter);
      }
    }
  }

  /** The list may hold an id twice: a category with a matching requirement is pushed before and after its subcategory. */
  lemma ExpansionMayRepeat()
    ensures var categories := [Category("Security", "c1", [Subcategory("Access", "s1", [Requirement("db1", "R1", "Login")])])];
            ExpandedItems(categories, "login") == ["c1", "s1", "c1"]
  {
    var requirement := Requirement("db1", "R1", "Login");
    var subcategory := Subcategory("Access", "s1", [requirement]);
    var categories := [Category("Security", "c1", [subcategory])];
    assert ToLower("Login") == "login" by {
      assert LowerChar('L') == 'l';
      assert ToLower("Login") == [LowerChar('L'), LowerChar('o'), LowerChar('g'), LowerChar('i'), LowerChar('n')];
    }
    assert ToLower("login") == "login" by {
      assert ToLower("login") == [LowerChar('l'), LowerChar('o'), LowerChar('g'), LowerChar('i'), LowerChar('n')];
    }
    assert StartsWith("login", "login");
    assert RequirementMatches(requirement, "login");
    assert RequirementFilter("login")(requirement);
    assert FilterRequirements([requirement], "login") == [requirement] by {
      assert [requirement][..0] == [];
    }
    assert SubcategoryExpansion("c1", [subcategory], "login") == ["c1", "s1"] by {
      assert [subcategory][..0] == [];
    }
    var pruned := PruneSubcategory(subcategory, "login");
    assert Map([subcategory], SubcategoryPruner("login")) == [pruned];
    assert SubcategoryKeeper("login")(pruned);
    assert FilterSubcategories([subcategory], "login") == [pruned] by {
      assert [pruned][..0] == [];
    }
    assert categories[..0] == [];
  }

  /* ---------- the expansion toggle ---------- */

  function Differs(nodeId: string): string -> bool {
    id => id != nodeId
  }

  /**
   * `handleItemExpansionToggle` (line 96): a present id is removed, every
   * occurrence of it, with the other ids kept as they were and in order; an
   * absent id is appended.
   */
  function ToggleExpansion(expanded: seq<string>, nodeId: string): (r: seq<string>)
    ensures nodeId in expanded ==>
              nodeId !in r && IsSubsequence(r, expanded) &&
              forall x :: x != nodeId ==> multiset(r)[x] == multiset(expanded)[x]
    ensures nodeId !in expanded ==> r == expanded + [nodeId]
  {
    if nodeId in expanded then
      FilterSound(expanded, Differs(nodeId));
      FilterCount(expanded, Differs(nodeId));
      FilterIsSubsequence(expanded, Differs(nodeId));
      Filter(expanded, Differs(nodeId))
    else
      expanded + [nodeId]
  }

  /** Toggling an absent id twice gives back the original list. */
  lemma ToggleAbsentTwice(expanded: seq<string>, nodeId: string)
    requires nodeId !in expanded
    ensures ToggleExpansion(ToggleExpansion(expanded, nodeId), nodeId) == expanded
  {
    FilterSnoc(expanded, nodeId, Differs(nodeId));
    FilterAll(expanded, Differs(nodeId));
  }

  /** Toggling a present id twice leaves it once, at the end. */
  lemma TogglePresentTwice(expanded: seq<string>, nodeId: string)
    requires nodeId in expanded
    ensures ToggleExpansion(ToggleExpansion(expanded, nodeId), nodeId) == Filter(expanded, Differs(nodeId)) + [nodeId]
  {
  }
}

/**
 * The computations of the resume preview
 * (src/components/preview/ResumePreview.tsx): date ranges and the grouping
 * of skills by category. The skills form (src/components/forms/SkillsForm.tsx)
 * groups its skills with the same code, so it shares this grouping.
 */
module ResumePreview {
  import opened Types
  import opened Arrays

  // ---------------------------------------------------------------- dates

  /**
   * `formatDate`: the empty string stays empty; any other string goes through
   * the locale's month-and-year formatting, which is the parameter `locale`.
   */
  function FormatDate(locale: string -> string, dateString: string): (r: string)
    ensures dateString == "" ==> r == ""
  {
    if dateString == "" then "" else locale(dateString)
  }

  /** `formatDateRange`, with `current` defaulting to false as in the source. */
  function FormatDateRange(locale: string -> string, startDate: string, endDate: string,
                           current: bool := false): string
  {
    FormatDate(locale, startDate) + " - " + (if current then "Present" else FormatDate(locale, endDate))
  }

  /** The range shown for a work-experience entry. */
  function ExperienceDates(locale: string -> string, x: Experience): string {
    FormatDateRange(locale, x.startDate, x.endDate, x.current)
  }

  /** The range shown for an education entry: the flag is left at its default. */
  function EducationDates(locale: string -> string, x: Education): string {
    FormatDateRange(locale, x.startDate, x.endDate)
  }

  /** A current position is shown as running to "Present", whatever end date is stored. */
  lemma CurrentExperienceShowsPresent(locale: string -> string, x: Experience, otherEnd: string)
    requires x.current
    ensures ExperienceDates(locale, x) == FormatDate(locale, x.startDate) + " - Present"
    ensures ExperienceDates(locale, x) == ExperienceDates(locale, x.(endDate := otherEnd))
  {
  }

  /** A past position, and every education entry, shows its formatted end date. */
  lemma EndDateShownUnlessCurrent(locale: string -> string, x: Experience, y: Education)
    ensures !x.current ==>
      ExperienceDates(locale, x) == FormatDate(locale, x.startDate) + " - " + FormatDate(locale, x.endDate)
    ensures EducationDates(locale, y) == FormatDate(locale, y.startDate) + " - " + FormatDate(locale, y.endDate)
    ensures y.startDate == "" && y.endDate == "" ==> EducationDates(locale, y) == " - "
  {
  }

  // ---------------------------------------------------------------- grouping

  /** One entry of `Object.entries(skillsByCategory)`. */
  datatype Group = Group(category: Category, skills: seq<Skill>)

  function CategoryIs(c: Category): Skill -> bool {
    (s: Skill) => s.category == c
  }

  /** The skills of category `c`, in their original order. */
  function InCategory(skills: seq<Skill>, c: Category): seq<Skill> {
    Filter(skills, CategoryIs(c))
  }

  lemma InCategorySnoc(skills: seq<Skill>, x: Skill, c: Category)
    ensures InCategory(skills + [x], c) == InCategory(skills, c) + (if x.category == c then [x] else [])
  {
    FilterSnoc(skills, x, CategoryIs(c));
  }

  lemma InCategoryMembers(skills: seq<Skill>, c: Category)
    ensures forall x :: x in InCategory(skills, c) <==> x in skills && x.category == c
  {
    FilterMembers(skills, CategoryIs(c));
  }

  /** The categories that occur in `skills`, each once, in the order they first occur. */
  function Categories(skills: seq<Skill>): seq<Category> {
    if skills == [] then []
    else
      var prev := Categories(skills[..|skills| - 1]);
      var c := skills[|skills| - 1].category;
      if c in prev then prev else prev + [c]
  }

  /** A category is listed exactly when some skill has it. */
  lemma {:induction false} CategoriesMembers(skills: seq<Skill>)
    ensures forall c :: c in Categories(skills) <==> exists i :: 0 <= i < |skills| && skills[i].category == c
  {
    if skills != [] {
      var init := skills[..|skills| - 1];
      CategoriesMembers(init);
      assert forall i :: 0 <= i < |init| ==> init[i] == skills[i];
    }
  }

  /** No category is listed twice. */
  lemma {:induction false} CategoriesDistinct(skills: seq<Skill>)
    ensures forall i, j :: 0 <= i < j < |Categories(skills)| ==> Categories(skills)[i] != Categories(skills)[j]
  {
    if skills != [] {
      var prev := Categories(skills[..|skills| - 1]);
      var c := skills[|skills| - 1].category;
      CategoriesDistinct(skills[..|skills| - 1]);
      var cats := Categories(skills);
      assert cats == if c in prev then prev else prev + [c];
      forall i, j | 0 <= i < j < |cats| ensures cats[i] != cats[j] {
        if j < |prev| {
          assert cats[i] == prev[i] && cats[j] == prev[j];
        } else {
          assert cats[i] == prev[i] && prev[i] in prev;
        }
      }
    }
  }

  /** A category that no skill has has no skills. */
  lemma InCategoryOfAbsent(skills: seq<Skill>, c: Category)
    requires c !in Categories(skills)
    ensures InCategory(skills, c) == []
  {
    CategoriesMembers(skills);
    assert forall i :: 0 <= i < |skills| ==> !CategoryIs(c)(skills[i]);
  }

  /** The grouping the preview iterates over: one group per category, in first-seen order. */
  function Groups(skills: seq<Skill>): seq<Group> {
    var cats := Categories(skills);
    seq(|cats|, i requires 0 <= i < |cats| => Group(cats[i], InCategory(skills, cats[i])))
  }

  /**
   * `skills.reduce(...)` followed by `Object.entries`. The accumulator object
   * is a map from category to skills together with its property keys in
   * creation order, which is the order `Object.entries` lists string keys in
   * (OrdinaryOwnPropertyKeys, section 10.1.11.1 of ECMA-262).
   */
  method GroupByCategory(skills: seq<Skill>) returns (groups: seq<Group>)
    ensures groups == Groups(skills)
  {
    var keys: seq<Category> := [];
    var acc: map<Category, seq<Skill>> := map[];
    for i := 0 to |skills|
      invariant keys == Categories(skills[..i])
      invariant acc.Keys == set c | c in keys
      invariant forall c :: c in acc ==> acc[c] == InCategory(skills[..i], c)
    {
      var skill := skills[i];
      ghost var done := skills[..i];
      assert skills[..i + 1] == done + [skill];
      assert (done + [skill])[..i] == done;
      forall c | c in acc ensures acc[c] + (if skill.category == c then [skill] else []) == InCategory(skills[..i + 1], c) {
        InCategorySnoc(done, skill, c);
      }
      if skill.category !in acc {
        InCategoryOfAbsent(done, skill.category);
        InCategorySnoc(done, skill, skill.category);
        acc := acc[skill.category := []];
        keys := keys + [skill.category];
      }
      acc := acc[skill.category := acc[skill.category] + [skill]];
    }
    assert skills[..|skills|] == skills;
    groups := seq(|keys|, i requires 0 <= i < |keys| => Group(keys[i], acc[keys[i]]));
  }

  /** The sum of the group sizes. */
  function TotalSize(groups: seq<Group>): nat {
    if groups == [] then 0 else |groups[0].skills| + TotalSize(groups[1..])
  }

  lemma {:induction false} TotalSizeSnoc(groups: seq<Group>, g: Group)
    ensures TotalSize(groups + [g]) == TotalSize(groups) + |g.skills|
  {
    if groups != [] {
      assert (groups + [g])[1..] == groups[1..] + [g];
      TotalSizeSnoc(groups[1..], g);
    }
  }

  lemma {:induction false} TotalSizeUpdate(groups: seq<Group>, j: nat, g: Group)
    requires j < |groups|
    ensures TotalSize(groups[j := g]) == TotalSize(groups) - |groups[j].skills| + |g.skills|
  {
    if j > 0 {
      assert groups[j := g][1..] == groups[1..][j - 1 := g];
      TotalSizeUpdate(groups[1..], j - 1, g);
    }
  }

  /** The `i`-th group is the category listed `i`-th with its skills. */
  lemma GroupsAt(skills: seq<Skill>)
    ensures |Groups(skills)| == |Categories(skills)|
    ensures forall i :: 0 <= i < |Groups(skills)| ==>
      Groups(skills)[i] == Group(Categories(skills)[i], InCategory(skills, Categories(skills)[i]))
  {
  }

  /** Reducing one more skill into the grouping either extends the group of its category or opens a new one at the end. */
  lemma GroupsSnoc(skills: seq<Skill>, x: Skill)
    ensures var g := Groups(skills);
      var cats := Categories(skills);
      if x.category in cats then
        exists j :: 0 <= j < |g| && g[j].category == x.category &&
                    Groups(skills + [x]) == g[j := Group(x.category, g[j].skills + [x])]
      else Groups(skills + [x]) == g + [Group(x.category, [x])]
  {
    var s' := skills + [x];
    assert s'[..|s'| - 1] == skills;
    var g := Groups(skills);
    var g' := Groups(s');
    var cats := Categories(skills);
    GroupsAt(skills);
    GroupsAt(s');
    forall i | 0 <= i < |cats| ensures InCategory(s', cats[i]) == InCategory(skills, cats[i]) + (if x.category == cats[i] then [x] else []) {
      InCategorySnoc(skills, x, cats[i]);
    }
    if x.category in cats {
      var j :| 0 <= j < |cats| && cats[j] == x.category;
      CategoriesDistinct(skills);
      var h := g[j := Group(x.category, g[j].skills + [x])];
      assert Categories(s') == cats;
      assert |g'| == |h|;
      forall i | 0 <= i < |h| ensures g'[i] == h[i] {
        if i != j {
          assert cats[i] != x.category;
        }
      }
      assert g' == h;
    } else {
      InCategoryOfAbsent(skills, x.category);
      InCategorySnoc(skills, x, x.category);
      var h := g + [Group(x.category, [x])];
      assert Categories(s') == cats + [x.category];
      assert |g'| == |h|;
      forall i | 0 <= i < |h| ensures g'[i] == h[i] {
      }
      assert g' == h;
    }
  }

  /**
   * The grouping is a partition of `skills` by category: a skill is in a group
   * exactly when its category is the group's key, keys are distinct (so each
   * skill is in exactly one group), no group is empty, and each group is the
   * skills of its key in their original order.
   */
  lemma GroupsPartition(skills: seq<Skill>)
    ensures var g := Groups(skills);
      && (forall i, j :: 0 <= i < j < |g| ==> g[i].category != g[j].category)
      && (forall x :: x in skills ==> exists i :: 0 <= i < |g| && g[i].category == x.category)
      && (forall i, x :: 0 <= i < |g| ==> (x in g[i].skills <==> x in skills && x.category == g[i].category))
      && (forall i :: 0 <= i < |g| ==> g[i].skills != [])
      && (forall i :: 0 <= i < |g| ==> g[i].skills == InCategory(skills, g[i].category))
  {
    var g := Groups(skills);
    var cats := Categories(skills);
    GroupsAt(skills);
    CategoriesDistinct(skills);
    CategoriesMembers(skills);
    forall i | 0 <= i < |g| ensures forall x :: x in g[i].skills <==> x in skills && x.category == g[i].category {
      InCategoryMembers(skills, cats[i]);
    }
    forall x | x in skills ensures exists i :: 0 <= i < |g| && g[i].category == x.category {
      var k :| 0 <= k < |skills| && skills[k] == x;
      assert x.category in cats;
      var i :| 0 <= i < |cats| && cats[i] == x.category;
      assert g[i].category == x.category;
    }
    forall i | 0 <= i < |g| ensures g[i].skills != [] {
      assert cats[i] in cats;
      var k :| 0 <= k < |skills| && skills[k].category == cats[i];
      InCategoryMembers(skills, cats[i]);
      assert skills[k] in g[i].skills;
    }
  }

  /** The group sizes add up to the number of skills. */
  lemma {:induction false} GroupSizesSum(skills: seq<Skill>)
    ensures TotalSize(Groups(skills)) == |skills|
  {
    if skills != [] {
      var init := skills[..|skills| - 1];
      var last := skills[|skills| - 1];
      assert skills == init + [last];
      GroupSizesSum(init);
      GroupsSnoc(init, last);
      var gi := Groups(init);
      if last.category in Categories(init) {
        var j :| 0 <= j < |gi| && gi[j].category == last.category &&
                 Groups(skills) == gi[j := Group(last.category, gi[j].skills + [last])];
        TotalSizeUpdate(gi, j, Group(last.category, gi[j].skills + [last]));
      } else {
        TotalSizeSnoc(gi, Group(last.category, [last]));
      }
    }
  }

  /** The position of the first skill of category `c`, or -1. */
  function FirstOccurrence(skills: seq<Skill>, c: Category): int {
    FindIndex(skills, CategoryIs(c))
  }

  /** A listed category occurs; an unlisted one does not. */
  lemma FirstOccurrenceListed(skills: seq<Skill>, c: Category)
    ensures 0 <= FirstOccurrence(skills, c) <==> c in Categories(skills)
  {
    CategoriesMembers(skills);
  }

  /** Categories are listed in the order in which they first occur among the skills. */
  lemma {:induction false} CategoriesInFirstSeenOrder(skills: seq<Skill>)
    ensures forall i, j :: 0 <= i < j < |Categories(skills)| ==>
      0 <= FirstOccurrence(skills, Categories(skills)[i]) < FirstOccurrence(skills, Categories(skills)[j])
  {
    if skills != [] {
      var init := skills[..|skills| - 1];
      var last := skills[|skills| - 1];
      assert skills == init + [last];
      CategoriesInFirstSeenOrder(init);
      var prev := Categories(init);
      forall i | 0 <= i < |prev|
        ensures 0 <= FirstOccurrence(init, prev[i]) == FirstOccurrence(skills, prev[i]) < |init|
      {
        FirstOccurrenceListed(init, prev[i]);
        FindIndexSnoc(init, last, CategoryIs(prev[i]));
      }
      if last.category !in prev {
        FirstOccurrenceListed(init, last.category);
        FindIndexSnoc(init, last, CategoryIs(last.category));
      }
      var cats := Categories(skills);
      assert cats == if last.category in prev then prev else prev + [last.category];
      forall i, j | 0 <= i < j < |cats|
        ensures 0 <= FirstOccurrence(skills, cats[i]) < FirstOccurrence(skills, cats[j])
      {
        assert cats[i] == prev[i];
        if j < |prev| {
          assert cats[j] == prev[j];
        }
      }
    } else {
      assert Categories(skills) == [];
    }
  }

  /** The groups come in the order in which their categories first occur among the skills. */
  lemma GroupsInFirstSeenOrder(skills: seq<Skill>)
    ensures forall i :: 0 <= i < |Groups(skills)| ==> 0 <= FirstOccurrence(skills, Groups(skills)[i].category)
    ensures forall i, j :: 0 <= i < j < |Groups(skills)| ==>
      FirstOccurrence(skills, Groups(skills)[i].category) < FirstOccurrence(skills, Groups(skills)[j].category)
  {
    CategoriesInFirstSeenOrder(skills);
    GroupsAt(skills);
    forall i | 0 <= i < |Groups(skills)| ensures 0 <= FirstOccurrence(skills, Groups(skills)[i].category) {
      FirstOccurrenceListed(skills, Categories(skills)[i]);
    }
  }
}

/** Important links: bookmarked URLs with a category, a visit counter that
    each click raises, the six most visited, and the per-category sections. */
module Links {
  import opened Seqs
  import opened Text

  /** `visitCount` and `lastVisited` may be missing on stored links. */
  datatype Link = Link(
    id: int,
    title: string,
    url: string,
    category: string,
    createdAt: int,
    visitCount: Option<nat>,
    lastVisited: Option<int>)

  datatype LinkForm = LinkForm(title: string, url: string, category: string)

  function LinkId(l: Link): int {
    l.id
  }

  /** `link.visitCount || 0`. */
  function Visits(l: Link): nat {
    l.visitCount.GetOr(0)
  }

  /** `handleLinkClick`: the clicked link's count goes up by one and it
      records the click time; the other links are unchanged. */
  function HandleLinkClick(ls: seq<Link>, id: int, now: int): (r: seq<Link>)
    ensures |r| == |ls|
    ensures forall i :: 0 <= i < |ls| && ls[i].id != id ==> r[i] == ls[i]
    ensures forall i :: 0 <= i < |ls| && ls[i].id == id ==>
      && Visits(r[i]) == Visits(ls[i]) + 1
      && r[i] == ls[i].(visitCount := r[i].visitCount, lastVisited := Some(now))
  {
    seq(|ls|, i requires 0 <= i < |ls| =>
      if ls[i].id == id then ls[i].(visitCount := Some(Visits(ls[i]) + 1), lastVisited := Some(now))
      else ls[i])
  }

  function TotalVisits(ls: seq<Link>): nat {
    if ls == [] then 0 else Visits(ls[0]) + TotalVisits(ls[1..])
  }

  function HasLinkId(id: int): Link -> bool {
    (l: Link) => l.id == id
  }

  /** A click adds one visit per link carrying the id, so with unique ids
      the total rises by exactly one. */
  lemma {:induction false} ClickAddsVisits(ls: seq<Link>, id: int, now: int)
    ensures TotalVisits(HandleLinkClick(ls, id, now)) == TotalVisits(ls) + Count(ls, HasLinkId(id))
  {
    if ls != [] {
      var r := HandleLinkClick(ls, id, now);
      assert r[1..] == HandleLinkClick(ls[1..], id, now);
      ClickAddsVisits(ls[1..], id, now);
    }
  }

  /** `addLink`: both title and url must be non-blank; the new link has the
      trimmed fields, no visits and no last visit, and is appended. */
  function AddLink(ls: seq<Link>, form: LinkForm, id: int, now: int): (r: seq<Link>)
    ensures IsBlank(form.title) || IsBlank(form.url) ==> r == ls
    ensures !IsBlank(form.title) && !IsBlank(form.url) ==>
      && |r| == |ls| + 1
      && r[..|ls|] == ls
      && r[|ls|] == Link(id, Trim(form.title), Trim(form.url), Trim(form.category), now, Some(0), None)
      && Visits(r[|ls|]) == 0
  {
    var title, url := Trim(form.title), Trim(form.url);
    if title != "" && url != "" then
      ls + [Link(id, title, url, Trim(form.category), now, Some(0), None)]
    else ls
  }

  /** `deleteLink`. */
  function DeleteLink(ls: seq<Link>, id: int): (r: seq<Link>)
    ensures forall l :: l in r <==> l in ls && l.id != id
    ensures forall l :: multiset(r)[l] == if l.id != id then multiset(ls)[l] else 0
    ensures IsSubsequence(r, ls)
  {
    WithoutId(ls, LinkId, id)
  }

  lemma DeleteLinkIdempotent(ls: seq<Link>, id: int)
    ensures DeleteLink(DeleteLink(ls, id), id) == DeleteLink(ls, id)
  {
    WithoutIdIdempotent(ls, LinkId, id);
  }

  // ---------------------------------------------------------------------
  // Most visited.

  /** `link.visitCount > 0` (a missing count compares false). */
  predicate WasVisited(l: Link) {
    Visits(l) > 0
  }

  function Visited(): Link -> bool {
    l => WasVisited(l)
  }

  /** The comparator `(b.visitCount || 0) - (a.visitCount || 0)`: more
      visits first. */
  predicate MoreVisited(a: Link, b: Link) {
    Visits(a) >= Visits(b)
  }

  function ByVisits(): (Link, Link) -> bool {
    (a, b) => MoreVisited(a, b)
  }

  lemma ByVisitsIsTotalPreorder()
    ensures TotalPreorder(ByVisits())
  {
  }

  const TopCount: nat := 6

  /** `getTopVisitedLinks`: at most six visited links, most visited first;
      a visited link is left out only when six links at least as visited
      were taken. */
  function TopVisited(ls: seq<Link>): (r: seq<Link>)
    ensures |r| <= TopCount
    ensures forall l :: l in r ==> l in ls && WasVisited(l)
    ensures forall i, j :: 0 <= i < j < |r| ==> Visits(r[i]) >= Visits(r[j])
    ensures forall l :: l in ls && WasVisited(l) && l !in r ==>
      |r| == TopCount && forall m :: m in r ==> Visits(m) >= Visits(l)
    ensures forall y :: Filter(r, Tie(ByVisits(), y)) <= Filter(Filter(ls, Visited()), Tie(ByVisits(), y))
  {
    ByVisitsIsTotalPreorder();
    var sorted := SortBy(Filter(ls, Visited()), ByVisits());
    forall y ensures Filter(Take(sorted, TopCount), Tie(ByVisits(), y)) <= Filter(Filter(ls, Visited()), Tie(ByVisits(), y)) {
      FilterTakePrefix(sorted, TopCount, Tie(ByVisits(), y));
    }
    TopVisitedSorted(sorted);
    TopVisitedMembers(ls, sorted);
    TopVisitedIsTop(ls, sorted);
    Take(sorted, TopCount)
  }

  lemma TopVisitedSorted(sorted: seq<Link>)
    requires SortedBy(sorted, ByVisits())
    ensures forall i, j :: 0 <= i < j < |Take(sorted, TopCount)| ==>
      Visits(Take(sorted, TopCount)[i]) >= Visits(Take(sorted, TopCount)[j])
  {
    var r := Take(sorted, TopCount);
    forall i, j | 0 <= i < j < |r| ensures Visits(r[i]) >= Visits(r[j]) {
      assert ByVisits()(sorted[i], sorted[j]);
    }
  }

  lemma TopVisitedMembers(ls: seq<Link>, sorted: seq<Link>)
    requires multiset(sorted) == multiset(Filter(ls, Visited()))
    ensures forall l :: l in Take(sorted, TopCount) ==> l in ls && WasVisited(l)
  {
    forall l | l in Take(sorted, TopCount) ensures l in ls && WasVisited(l) {
      var i :| 0 <= i < |Take(sorted, TopCount)| && Take(sorted, TopCount)[i] == l;
      assert l in multiset(sorted);
      assert l in Filter(ls, Visited());
    }
  }

  lemma TopVisitedIsTop(ls: seq<Link>, sorted: seq<Link>)
    requires multiset(sorted) == multiset(Filter(ls, Visited()))
    requires SortedBy(sorted, ByVisits())
    ensures forall l :: l in ls && WasVisited(l) && l !in Take(sorted, TopCount) ==>
      |Take(sorted, TopCount)| == TopCount && forall m :: m in Take(sorted, TopCount) ==> Visits(m) >= Visits(l)
  {
    forall l | l in ls && WasVisited(l) && l !in Take(sorted, TopCount)
      ensures |Take(sorted, TopCount)| == TopCount && forall m :: m in Take(sorted, TopCount) ==> Visits(m) >= Visits(l)
    {
      assert l in Filter(ls, Visited());
      assert l in multiset(sorted);
      TakeOfSortedIsTop(sorted, TopCount, ByVisits(), l);
      forall m | m in Take(sorted, TopCount) ensures Visits(m) >= Visits(l) {
        assert ByVisits()(m, l);
      }
    }
  }

  // ---------------------------------------------------------------------
  // Sections.

  function CategoryOf(l: Link): string {
    l.category
  }

  function CategoryList(ls: seq<Link>): (cs: seq<string>)
    ensures |cs| == |ls|
    ensures forall i :: 0 <= i < |ls| ==> cs[i] == ls[i].category
  {
    seq(|ls|, i requires 0 <= i < |ls| => ls[i].category)
  }

  function NonEmpty(): string -> bool {
    s => s != ""
  }

  /** `categories`: the distinct non-empty categories, ordered by the
      position of the first link that uses each. */
  function Categories(ls: seq<Link>): (cs: seq<string>)
    ensures NoDuplicates(cs)
    ensures forall c :: c in cs <==> c != "" && exists l :: l in ls && l.category == c
    ensures forall c :: c in cs ==> c in CategoryList(ls)
    ensures forall i, j :: 0 <= i < j < |cs| ==>
      FirstPos(CategoryList(ls), cs[i]) < FirstPos(CategoryList(ls), cs[j])
  {
    var all := CategoryList(ls);
    forall c | c != "" && (exists l :: l in ls && l.category == c) ensures c in all {
      var l :| l in ls && l.category == c;
      var i :| 0 <= i < |ls| && ls[i] == l;
      assert all[i] == c;
    }
    var cs := Dedup(Filter(all, NonEmpty()));
    forall i, j | 0 <= i < j < |cs| ensures FirstPos(all, cs[i]) < FirstPos(all, cs[j]) {
      FilterFirstPos(all, NonEmpty(), cs[i], cs[j]);
    }
    cs
  }

  function InCategory(c: string): Link -> bool {
    (l: Link) => l.category == c
  }

  function Uncategorized(): Link -> bool {
    (l: Link) => l.category == ""
  }

  /** The links listed under a category heading, in list order. */
  function Section(ls: seq<Link>, c: string): (r: seq<Link>)
    ensures forall l :: l in r <==> l in ls && l.category == c
  {
    Filter(ls, InCategory(c))
  }

  /** The links listed under "Uncategorized". */
  function UncategorizedSection(ls: seq<Link>): (r: seq<Link>)
    ensures forall l :: l in r <==> l in ls && l.category == ""
  {
    Filter(ls, Uncategorized())
  }

  /** Every link is listed in exactly one section: under its own category
      heading when it has one, otherwise under "Uncategorized". */
  lemma SectionsPartition(ls: seq<Link>, l: Link)
    requires l in ls
    ensures l.category == "" ==>
      l in UncategorizedSection(ls) && forall c :: c in Categories(ls) ==> l !in Section(ls, c)
    ensures l.category != "" ==>
      && l !in UncategorizedSection(ls)
      && l.category in Categories(ls)
      && forall c :: c in Categories(ls) ==> (l in Section(ls, c) <==> c == l.category)
  {
  }

  /** The sections hold every link once: their sizes add up to the list's. */
  lemma {:induction false} SectionSizes(ls: seq<Link>, cs: seq<string>)
    requires NoDuplicates(cs)
    requires forall c :: c in cs ==> c != ""
    requires forall l :: l in ls && l.category != "" ==> l.category in cs
    ensures SectionTotal(ls, cs) + |UncategorizedSection(ls)| == |ls|
    decreases |cs|
  {
    if cs == [] {
      FilterKeepsAll(ls, Uncategorized());
    } else {
      var c := cs[|cs| - 1];
      var rest := cs[..|cs| - 1];
      var others := Filter(ls, NotInCategory(c));
      assert c !in rest by {
        forall k | 0 <= k < |rest| ensures rest[k] != c {
          assert rest[k] == cs[k];
        }
      }
      assert NoDuplicates(rest) by {
        forall i, j | 0 <= i < j < |rest| ensures rest[i] != rest[j] {
          assert rest[i] == cs[i] && rest[j] == cs[j];
        }
      }
      assert forall d :: d in rest ==> d in cs;
      forall l | l in others && l.category != "" ensures l.category in rest {
        assert l.category in cs && l.category != c;
      }
      SectionSizes(others, rest);
      assert SectionTotal(ls, cs) == SectionTotal(ls, rest) + |Section(ls, c)|;
      SectionTotalOthers(ls, rest, c);
      FilterPartition(ls, InCategory(c), NotInCategory(c));
      assert c in cs;
      FilterNested(ls, NotInCategory(c), Uncategorized());
    }
  }

  /** The displayed sections together list `|ls|` links. */
  lemma DisplayedSectionSizes(ls: seq<Link>)
    ensures SectionTotal(ls, Categories(ls)) + |UncategorizedSection(ls)| == |ls|
  {
    SectionSizes(ls, Categories(ls));
  }

  function NotInCategory(c: string): Link -> bool {
    (l: Link) => l.category != c
  }

  /** The sizes of the sections `cs`, summed. */
  function SectionTotal(ls: seq<Link>, cs: seq<string>): nat {
    if cs == [] then 0 else SectionTotal(ls, cs[..|cs| - 1]) + |Section(ls, cs[|cs| - 1])|
  }

  /** Removing the links of category `c` does not change the sections of
      the other categories. */
  lemma {:induction false} SectionTotalOthers(ls: seq<Link>, cs: seq<string>, c: string)
    requires c !in cs
    ensures SectionTotal(Filter(ls, NotInCategory(c)), cs) == SectionTotal(ls, cs)
  {
    if cs != [] {
      var d := cs[|cs| - 1];
      assert forall e :: e in cs[..|cs| - 1] ==> e in cs;
      SectionTotalOthers(ls, cs[..|cs| - 1], c);
      FilterNested(ls, NotInCategory(c), InCategory(d));
    }
  }

  /** Filtering by a predicate implied by a second one, then by the second,
      is filtering by the second alone. */
  lemma FilterNested(ls: seq<Link>, outer: Link -> bool, inner: Link -> bool)
    requires forall l :: inner(l) ==> outer(l)
    ensures Filter(Filter(ls, outer), inner) == Filter(ls, inner)
  {
    FilterMonotone(ls, inner, outer);
  }
}

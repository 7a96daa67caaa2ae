/** Notes: titled texts with tags, a pin flag, a mood and a stored word
    count; search by text and tags, four sort orders, the tag cloud and
    the relative modification date. */
module Notes {
  import opened Seqs
  import opened Text
  import Elapsed

  /** `weather` is always `null` and is not modelled. Timestamps are
      milliseconds. */
  datatype Note = Note(
    id: int,
    title: string,
    content: string,
    tags: seq<string>,
    isPinned: bool,
    createdAt: int,
    modifiedAt: int,
    wordCount: nat,
    mood: Option<string>)

  /** The `updates` object: each field is present or absent; `mood` may be
      set to `null`. */
  datatype NotePatch = NotePatch(
    title: Option<string>,
    content: Option<string>,
    tags: Option<seq<string>>,
    isPinned: Option<bool>,
    mood: Option<Option<string>>)

  const NoChange := NotePatch(None, None, None, None, None)

  const UntitledNote: string := "Untitled Note"

  function NoteId(n: Note): int {
    n.id
  }

  /** The stored word count agrees with the content. */
  predicate CountIsCurrent(n: Note) {
    n.wordCount == WordCount(n.content)
  }

  /** `createNote`: a fresh empty note goes to the front. */
  function CreateNote(ns: seq<Note>, id: int, now: int): (r: seq<Note>)
    ensures |r| == |ns| + 1 && r[1..] == ns
    ensures r[0].id == id && r[0].title == UntitledNote && r[0].content == ""
    ensures r[0].tags == [] && !r[0].isPinned && r[0].wordCount == 0 && r[0].mood == None
    ensures r[0].createdAt == now && r[0].modifiedAt == now
    ensures CountIsCurrent(r[0])
  {
    WordCountBlank("");
    [Note(id, UntitledNote, "", [], false, now, now, 0, None)] + ns
  }

  /** `{...note, ...updates, modifiedAt}` with the word count given. */
  function Patched(n: Note, p: NotePatch, now: int, wordCount: nat): Note {
    Note(
      n.id,
      p.title.GetOr(n.title),
      p.content.GetOr(n.content),
      p.tags.GetOr(n.tags),
      p.isPinned.GetOr(n.isPinned),
      n.createdAt,
      now,
      wordCount,
      p.mood.GetOr(n.mood))
  }

  /** The word count as `updateNote` computes it: recounted only when the
      new content is truthy, so clearing the content keeps the old count. */
  function WordCountAsWritten(n: Note, p: NotePatch): nat {
    if p.content.Some? && p.content.value != "" then WordCount(p.content.value) else n.wordCount
  }

  /** `updateNote` as written. */
  function UpdateNoteAsWritten(ns: seq<Note>, id: int, p: NotePatch, now: int): (r: seq<Note>)
    ensures |r| == |ns|
    ensures forall i :: 0 <= i < |ns| && ns[i].id != id ==> r[i] == ns[i]
    ensures forall i :: 0 <= i < |ns| && ns[i].id == id ==> r[i] == Patched(ns[i], p, now, WordCountAsWritten(ns[i], p))
  {
    seq(|ns|, i requires 0 <= i < |ns| =>
      if ns[i].id == id then Patched(ns[i], p, now, WordCountAsWritten(ns[i], p)) else ns[i])
  }

  /** Clearing the content of a note with words leaves its old count:
      the stored count no longer agrees with the (empty) content. */
  lemma ClearingContentLeavesStaleCount(ns: seq<Note>, id: int, now: int, i: nat)
    requires i < |ns| && ns[i].id == id && ns[i].wordCount > 0
    ensures UpdateNoteAsWritten(ns, id, NoChange.(content := Some("")), now)[i].content == ""
    ensures UpdateNoteAsWritten(ns, id, NoChange.(content := Some("")), now)[i].wordCount == ns[i].wordCount
    ensures !CountIsCurrent(UpdateNoteAsWritten(ns, id, NoChange.(content := Some("")), now)[i])
  {
    WordCountBlank("");
  }

  /** The count `updateNote` evidently intends: recounted whenever the
      content is part of the update. */
  function WordCountOf(n: Note, p: NotePatch): nat {
    if p.content.Some? then WordCount(p.content.value) else n.wordCount
  }

  /** `updateNote` with the intended count: the notes with the id take the
      patch and the current time; the others are unchanged; an unknown id
      changes nothing. */
  function UpdateNote(ns: seq<Note>, id: int, p: NotePatch, now: int): (r: seq<Note>)
    ensures |r| == |ns|
    ensures forall i :: 0 <= i < |ns| && ns[i].id != id ==> r[i] == ns[i]
    ensures forall i :: 0 <= i < |ns| && ns[i].id == id ==>
      && r[i].id == id && r[i].createdAt == ns[i].createdAt && r[i].modifiedAt == now
      && r[i].title == p.title.GetOr(ns[i].title)
      && r[i].content == p.content.GetOr(ns[i].content)
      && r[i].tags == p.tags.GetOr(ns[i].tags)
      && r[i].isPinned == p.isPinned.GetOr(ns[i].isPinned)
      && r[i].mood == p.mood.GetOr(ns[i].mood)
      && (p.content.Some? ==> r[i].wordCount == WordCount(p.content.value))
      && (p.content.None? ==> r[i].wordCount == ns[i].wordCount)
    ensures (forall n :: n in ns ==> n.id != id) ==> r == ns
  {
    seq(|ns|, i requires 0 <= i < |ns| =>
      if ns[i].id == id then Patched(ns[i], p, now, WordCountOf(ns[i], p)) else ns[i])
  }

  /** Every update keeps every stored count current. */
  lemma UpdateNoteKeepsCountsCurrent(ns: seq<Note>, id: int, p: NotePatch, now: int)
    requires forall n :: n in ns ==> CountIsCurrent(n)
    ensures forall n :: n in UpdateNote(ns, id, p, now) ==> CountIsCurrent(n)
  {
    var r := UpdateNote(ns, id, p, now);
    forall n | n in r ensures CountIsCurrent(n) {
      var i :| 0 <= i < |r| && r[i] == n;
      assert ns[i] in ns;
    }
  }

  /** The two definitions differ only when the update clears the content. */
  lemma UpdateNoteDiffersOnlyOnClear(ns: seq<Note>, id: int, p: NotePatch, now: int)
    requires p.content != Some("")
    ensures UpdateNoteAsWritten(ns, id, p, now) == UpdateNote(ns, id, p, now)
  {
  }

  /** `deleteNote`. */
  function DeleteNote(ns: seq<Note>, id: int): (r: seq<Note>)
    ensures forall n :: n in r <==> n in ns && n.id != id
    ensures forall n :: multiset(r)[n] == if n.id != id then multiset(ns)[n] else 0
    ensures IsSubsequence(r, ns)
  {
    WithoutId(ns, NoteId, id)
  }

  lemma DeleteNoteIdempotent(ns: seq<Note>, id: int)
    ensures DeleteNote(DeleteNote(ns, id), id) == DeleteNote(ns, id)
  {
    WithoutIdIdempotent(ns, NoteId, id);
  }

  // ---------------------------------------------------------------------
  // Pin and tags.

  /** The position of the first note with the id. */
  function FirstIndex(ns: seq<Note>, id: int): (r: Option<nat>)
    ensures r.Some? ==> r.value < |ns| && ns[r.value].id == id && forall j :: 0 <= j < r.value ==> ns[j].id != id
    ensures r.None? ==> forall n :: n in ns ==> n.id != id
  {
    if ns == [] then None
    else if ns[0].id == id then Some(0)
    else
      assert forall n :: n in ns ==> n == ns[0] || n in ns[1..];
      match FirstIndex(ns[1..], id)
      case None => None
      case Some(k) => Some(k + 1)
  }

  /** `notes.find(n => n.id === id)`. */
  function FindNote(ns: seq<Note>, id: int): (r: Option<Note>)
    ensures r.Some? <==> FirstIndex(ns, id).Some?
    ensures r.Some? ==> r.value == ns[FirstIndex(ns, id).value]
  {
    match FirstIndex(ns, id)
    case None => None
    case Some(k) => Some(ns[k])
  }

  predicate UniqueIds(ns: seq<Note>) {
    forall i, j :: 0 <= i < |ns| && 0 <= j < |ns| && ns[i].id == ns[j].id ==> i == j
  }

  /** `togglePin`: the pin flag becomes the negation of the first matching
      note's flag (`!undefined` is `true` for an unknown id, which then
      matches nothing). */
  function TogglePin(ns: seq<Note>, id: int, now: int): (r: seq<Note>)
    ensures |r| == |ns|
    ensures UniqueIds(ns) ==> forall i :: 0 <= i < |ns| && ns[i].id == id ==> r[i].isPinned == !ns[i].isPinned
    ensures forall i :: 0 <= i < |ns| && ns[i].id != id ==> r[i] == ns[i]
    ensures forall i :: 0 <= i < |ns| && ns[i].id == id ==>
      && FindNote(ns, id).Some?
      && r[i] == ns[i].(isPinned := !FindNote(ns, id).value.isPinned, modifiedAt := now)
  {
    var pinned := match FindNote(ns, id) case Some(n) => n.isPinned case None => false;
    UpdateNote(ns, id, NoChange.(isPinned := Some(!pinned)), now)
  }

  /** Pinning twice restores every flag. */
  lemma TogglePinTwice(ns: seq<Note>, id: int, now: int, later: int)
    requires UniqueIds(ns)
    ensures forall i :: 0 <= i < |ns| ==> TogglePin(TogglePin(ns, id, now), id, later)[i].isPinned == ns[i].isPinned
  {
    var once := TogglePin(ns, id, now);
    assert UniqueIds(once) by {
      forall i, j | 0 <= i < |once| && 0 <= j < |once| && once[i].id == once[j].id ensures i == j {
        assert once[i].id == ns[i].id && once[j].id == ns[j].id;
      }
    }
  }

  /** `addTag`: appends the tag to the first matching note's tags when it
      is not already there. */
  function AddTag(ns: seq<Note>, id: int, tag: string, now: int): (r: seq<Note>)
    ensures FindNote(ns, id).None? || tag in FindNote(ns, id).value.tags ==> r == ns
    ensures FindNote(ns, id).Some? && tag !in FindNote(ns, id).value.tags ==>
      r == UpdateNote(ns, id, NoChange.(tags := Some(FindNote(ns, id).value.tags + [tag])), now)
  {
    match FindNote(ns, id)
    case None => ns
    case Some(n) =>
      if tag in n.tags then ns else UpdateNote(ns, id, NoChange.(tags := Some(n.tags + [tag])), now)
  }

  /** With unique ids, a duplicate-free tag list stays duplicate-free and
      gains the tag. */
  lemma AddTagKeepsTagsDistinct(ns: seq<Note>, id: int, tag: string, now: int)
    requires UniqueIds(ns)
    requires forall n :: n in ns ==> NoDuplicates(n.tags)
    ensures forall n :: n in AddTag(ns, id, tag, now) ==> NoDuplicates(n.tags)
    ensures forall i :: 0 <= i < |ns| && ns[i].id == id ==> tag in AddTag(ns, id, tag, now)[i].tags
  {
    var r := AddTag(ns, id, tag, now);
    match FindNote(ns, id)
    case None =>
    case Some(f) =>
      var k := FirstIndex(ns, id).value;
      forall n | n in r ensures NoDuplicates(n.tags) {
        var i :| 0 <= i < |r| && r[i] == n;
        assert ns[i] in ns;
        if ns[i].id == id && tag !in f.tags {
          assert i == k;
          var ts := f.tags + [tag];
          forall a, b | 0 <= a < b < |ts| ensures ts[a] != ts[b] {
            if b == |ts| - 1 {
              assert ts[a] in f.tags;
            }
          }
        }
      }
      forall i | 0 <= i < |ns| && ns[i].id == id ensures tag in r[i].tags {
        assert i == k;
      }
  }

  function IsNot(tag: string): string -> bool {
    t => t != tag
  }

  /** `removeTag`: the first matching note's tags without the tag. */
  function RemoveTag(ns: seq<Note>, id: int, tag: string, now: int): (r: seq<Note>)
    ensures FindNote(ns, id).None? ==> r == ns
    ensures FindNote(ns, id).Some? ==>
      r == UpdateNote(ns, id, NoChange.(tags := Some(Filter(FindNote(ns, id).value.tags, IsNot(tag)))), now)
  {
    match FindNote(ns, id)
    case None => ns
    case Some(n) => UpdateNote(ns, id, NoChange.(tags := Some(Filter(n.tags, IsNot(tag)))), now)
  }

  /** After removal the tag is gone from the note and its other tags keep
      their order. */
  lemma RemoveTagRemovesAll(ns: seq<Note>, id: int, tag: string, now: int)
    requires UniqueIds(ns)
    ensures forall i :: 0 <= i < |ns| && ns[i].id == id ==>
      && tag !in RemoveTag(ns, id, tag, now)[i].tags
      && IsSubsequence(RemoveTag(ns, id, tag, now)[i].tags, ns[i].tags)
      && forall t :: t in ns[i].tags && t != tag ==> t in RemoveTag(ns, id, tag, now)[i].tags
  {
    var r := RemoveTag(ns, id, tag, now);
    forall i | 0 <= i < |ns| && ns[i].id == id ensures
      && tag !in r[i].tags
      && IsSubsequence(r[i].tags, ns[i].tags)
      && forall t :: t in ns[i].tags && t != tag ==> t in r[i].tags
    {
      var f := FindNote(ns, id).value;
      var k := FirstIndex(ns, id).value;
      assert i == k;
      FilterIsSubsequence(f.tags, IsNot(tag));
    }
  }

  // ---------------------------------------------------------------------
  // Search, sort and tag cloud.

  /** A note matches when the query occurs (ignoring case) in its title or
      content, and, when tags are selected, it carries one of them. */
  predicate Matches(n: Note, query: string, selected: seq<string>) {
    && (ContainsIgnoringCase(n.title, query) || ContainsIgnoringCase(n.content, query))
    && (selected == [] || exists tag :: tag in selected && tag in n.tags)
  }

  function MatchesBy(query: string, selected: seq<string>): Note -> bool {
    n => Matches(n, query, selected)
  }

  datatype SortMode = ByModified | ByCreated | ByTitle | ByWordCount

  /** The comparator of each mode as a "goes first or ties" relation:
      newest first by date, most words first, titles by the locale order
      given. */
  predicate Before(mode: SortMode, titleLe: (string, string) -> bool, a: Note, b: Note) {
    match mode
    case ByCreated => a.createdAt >= b.createdAt
    case ByTitle => titleLe(a.title, b.title)
    case ByWordCount => a.wordCount >= b.wordCount
    case ByModified => a.modifiedAt >= b.modifiedAt
  }

  function OrderFor(mode: SortMode, titleLe: (string, string) -> bool): (Note, Note) -> bool {
    (a, b) => Before(mode, titleLe, a, b)
  }

  lemma OrderIsTotalPreorder(mode: SortMode, titleLe: (string, string) -> bool)
    requires TotalPreorder(titleLe)
    ensures TotalPreorder(OrderFor(mode, titleLe))
  {
    var le := OrderFor(mode, titleLe);
    forall a, b ensures le(a, b) || le(b, a) {
      if mode.ByTitle? {
        assert titleLe(a.title, b.title) || titleLe(b.title, a.title);
      }
    }
    forall a, b, c | le(a, b) && le(b, c) ensures le(a, c) {
      if mode.ByTitle? {
        assert titleLe(a.title, b.title) && titleLe(b.title, c.title);
      }
    }
  }

  /** `filteredNotes`: the matching notes, each as often as in the
      collection, ordered by the selected mode (`localeCompare` is the
      total order `titleLe`). */
  function FilteredNotes(ns: seq<Note>, query: string, selected: seq<string>, mode: SortMode,
                         titleLe: (string, string) -> bool): (r: seq<Note>)
    requires TotalPreorder(titleLe)
    ensures forall n :: n in r <==> n in ns && Matches(n, query, selected)
    ensures multiset(r) == multiset(Filter(ns, MatchesBy(query, selected)))
    ensures forall i, j :: 0 <= i < j < |r| ==> Before(mode, titleLe, r[i], r[j])
    ensures forall y :: Filter(r, Tie(OrderFor(mode, titleLe), y))
                     == Filter(Filter(ns, MatchesBy(query, selected)), Tie(OrderFor(mode, titleLe), y))
  {
    OrderIsTotalPreorder(mode, titleLe);
    var matching := Filter(ns, MatchesBy(query, selected));
    var r := SortBy(matching, OrderFor(mode, titleLe));
    SortedMatches(ns, matching, r, query, selected, mode, titleLe);
    r
  }

  lemma SortedMatches(ns: seq<Note>, matching: seq<Note>, r: seq<Note>, query: string, selected: seq<string>,
                      mode: SortMode, titleLe: (string, string) -> bool)
    requires matching == Filter(ns, MatchesBy(query, selected))
    requires multiset(r) == multiset(matching)
    requires SortedBy(r, OrderFor(mode, titleLe))
    ensures forall n :: n in r <==> n in ns && Matches(n, query, selected)
    ensures forall i, j :: 0 <= i < j < |r| ==> Before(mode, titleLe, r[i], r[j])
  {
    forall n ensures n in r <==> n in ns && Matches(n, query, selected) {
      assert n in r <==> n in multiset(r);
      assert n in matching <==> n in multiset(matching);
    }
    forall i, j | 0 <= i < j < |r| ensures Before(mode, titleLe, r[i], r[j]) {
      assert OrderFor(mode, titleLe)(r[i], r[j]);
    }
  }

  /** With no query and no selected tag, every note is listed. */
  lemma EmptySearchListsAll(ns: seq<Note>, mode: SortMode, titleLe: (string, string) -> bool)
    requires TotalPreorder(titleLe)
    ensures multiset(FilteredNotes(ns, "", [], mode, titleLe)) == multiset(ns)
  {
    forall n | n in ns ensures Matches(n, "", []) {
      assert StartsWith(ToLower(n.title), ToLower(""));
      PrefixIsContained(ToLower(n.title), ToLower(""));
    }
    FilterKeepsAll(ns, MatchesBy("", []));
  }

  /** `notes.flatMap(note => note.tags)`. */
  function AllTagUses(ns: seq<Note>): (r: seq<string>)
    ensures forall t :: t in r <==> exists n :: n in ns && t in n.tags
  {
    if ns == [] then []
    else
      var rest := AllTagUses(ns[1..]);
      assert forall n :: n in ns <==> n == ns[0] || n in ns[1..];
      ns[0].tags + rest
  }

  function ByCodePoints(): (string, string) -> bool {
    (a, b) => LexLe(a, b)
  }

  /** `allTags`: every tag in use, once, in ascending order of Unicode code
      points (the default `sort()` compares UTF-16 code units instead; the
      two orders agree except between a character above U+FFFF and one in
      U+E000..U+FFFF). */
  function AllTags(ns: seq<Note>): (r: seq<string>)
    ensures forall t :: t in r <==> exists n :: n in ns && t in n.tags
    ensures NoDuplicates(r)
    ensures forall i, j :: 0 <= i < j < |r| ==> LexLe(r[i], r[j]) && r[i] != r[j]
  {
    LexLeIsTotalPreorder();
    var distinct := Dedup(AllTagUses(ns));
    SortedTags(distinct);
    SortBy(distinct, ByCodePoints())
  }

  lemma SortedTags(distinct: seq<string>)
    requires NoDuplicates(distinct)
    requires TotalPreorder(ByCodePoints())
    ensures forall t :: t in SortBy(distinct, ByCodePoints()) <==> t in distinct
    ensures NoDuplicates(SortBy(distinct, ByCodePoints()))
    ensures forall i, j :: 0 <= i < j < |SortBy(distinct, ByCodePoints())| ==>
      LexLe(SortBy(distinct, ByCodePoints())[i], SortBy(distinct, ByCodePoints())[j])
  {
    var r := SortBy(distinct, ByCodePoints());
    assert forall t :: t in r <==> t in multiset(distinct);
    SortedDistinct(distinct, r);
    forall i, j | 0 <= i < j < |r| ensures LexLe(r[i], r[j]) {
      assert ByCodePoints()(r[i], r[j]);
    }
  }

  /** A permutation of a duplicate-free sequence is duplicate-free. */
  lemma SortedDistinct(s: seq<string>, r: seq<string>)
    requires NoDuplicates(s)
    requires multiset(r) == multiset(s)
    ensures NoDuplicates(r)
  {
    forall x | x in multiset(s) ensures multiset(s)[x] == 1 {
      NoDuplicatesCountsOnce(s, x);
    }
    forall i, j | 0 <= i < j < |r| ensures r[i] != r[j] {
      if r[i] == r[j] {
        var x := r[i];
        assert x in multiset(s);
        TwoOccurrences(r, i, j);
      }
    }
  }

  lemma {:induction false} NoDuplicatesCountsOnce(s: seq<string>, x: string)
    requires NoDuplicates(s)
    ensures multiset(s)[x] <= 1
  {
    if s != [] {
      var rest := s[..|s| - 1];
      assert s == rest + [s[|s| - 1]];
      assert NoDuplicates(rest) by {
        forall a, b | 0 <= a < b < |rest| ensures rest[a] != rest[b] {
          assert rest[a] == s[a] && rest[b] == s[b];
        }
      }
      NoDuplicatesCountsOnce(rest, x);
      if x == s[|s| - 1] {
        assert x !in rest by {
          forall k | 0 <= k < |rest| ensures rest[k] != x {
            assert rest[k] == s[k];
          }
        }
      }
    }
  }

  lemma TwoOccurrences(r: seq<string>, i: nat, j: nat)
    requires i < j < |r| && r[i] == r[j]
    ensures multiset(r)[r[i]] >= 2
  {
    assert r == r[..i] + [r[i]] + r[i + 1..j] + [r[j]] + r[j + 1..];
  }

  // ---------------------------------------------------------------------

  /** `formatDate`: minutes, hours, or days under a week, else the date. */
  function FormatDate(modifiedAt: int, now: int): (l: Elapsed.Label)
    ensures now - modifiedAt < 7 * Elapsed.DayMs ==> l == Elapsed.Relative(now - modifiedAt)
    ensures now - modifiedAt >= 7 * Elapsed.DayMs ==> l == Elapsed.OnDate(modifiedAt)
    ensures l.DaysAgo? ==> 1 <= l.days < 7
  {
    var rel := Elapsed.Relative(now - modifiedAt);
    if rel.DaysAgo? && rel.days >= 7 then Elapsed.OnDate(modifiedAt) else rel
  }
}

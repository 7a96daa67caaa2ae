/** Sequence utilities shared by every collection of the dashboard: the
    whole-collection transforms (filter, delete-by-id, de-duplicate, stable
    sort, take a prefix) that the components apply to their records. */
module Seqs {

  datatype Option<+T> = None | Some(value: T) {
    function GetOr(default: T): T {
      match this
      case Some(v) => v
      case None => default
    }
  }

  /** `a` is `b` with some elements left out, the rest kept in order. */
  predicate IsSubsequence<T(==)>(a: seq<T>, b: seq<T>)
    decreases |b|
  {
    a == [] || (b != [] && if a[0] == b[0] then IsSubsequence(a[1..], b[1..]) else IsSubsequence(a, b[1..]))
  }

  /** `Array.prototype.filter`. */
  function Filter<T(!new)>(s: seq<T>, keep: T -> bool): (r: seq<T>)
    ensures |r| <= |s|
    ensures forall x :: x in r <==> x in s && keep(x)
  {
    if s == [] then []
    else
      assert s == [s[0]] + s[1..];
      if keep(s[0]) then [s[0]] + Filter(s[1..], keep)
      else Filter(s[1..], keep)
  }

  /** Filtering keeps every kept element as often as `s` holds it, and
      no other element. */
  lemma {:induction false} FilterMultiset<T(!new)>(s: seq<T>, keep: T -> bool)
    ensures forall x :: multiset(Filter(s, keep))[x] == if keep(x) then multiset(s)[x] else 0
  {
    if s != [] {
      FilterMultiset(s[1..], keep);
      assert s == [s[0]] + s[1..];
      assert multiset(s) == multiset{s[0]} + multiset(s[1..]);
      if keep(s[0]) {
        assert multiset(Filter(s, keep)) == multiset{s[0]} + multiset(Filter(s[1..], keep));
      }
    }
  }

  lemma {:induction false} FilterIsSubsequence<T(!new)>(s: seq<T>, keep: T -> bool)
    ensures IsSubsequence(Filter(s, keep), s)
  {
    if s != [] {
      FilterIsSubsequence(s[1..], keep);
      var f := Filter(s, keep);
      if !keep(s[0]) && f != [] {
        assert f[0] in f;
      }
    }
  }

  lemma {:induction false} FilterAppend<T(!new)>(a: seq<T>, b: seq<T>, keep: T -> bool)
    ensures Filter(a + b, keep) == Filter(a, keep) + Filter(b, keep)
  {
    if a != [] {
      assert (a + b)[1..] == a[1..] + b;
      FilterAppend(a[1..], b, keep);
    } else {
      assert a + b == b;
    }
  }

  lemma {:induction false} FilterIdempotent<T(!new)>(s: seq<T>, keep: T -> bool)
    ensures Filter(Filter(s, keep), keep) == Filter(s, keep)
  {
    if s != [] {
      FilterIdempotent(s[1..], keep);
    }
  }

  /** Filtering by `keep` and by its negation splits `s` in two. */
  lemma FilterPartition<T(!new)>(s: seq<T>, keep: T -> bool, drop: T -> bool)
    requires forall x :: keep(x) <==> !drop(x)
    ensures |Filter(s, keep)| + |Filter(s, drop)| == |s|
    ensures multiset(Filter(s, keep)) + multiset(Filter(s, drop)) == multiset(s)
  {
    FilterSplit(s, keep, drop);
  }

  lemma {:induction false} FilterSplit<T(!new)>(s: seq<T>, keep: T -> bool, drop: T -> bool)
    requires forall x :: keep(x) <==> !drop(x)
    ensures multiset(Filter(s, keep)) + multiset(Filter(s, drop)) == multiset(s)
  {
    if s != [] {
      var x, t := s[0], s[1..];
      FilterSplit(t, keep, drop);
      assert multiset(s) == multiset{x} + multiset(t) by {
        assert s == [x] + t;
      }
      if keep(x) {
        assert Filter(s, keep) == [x] + Filter(t, keep);
        assert Filter(s, drop) == Filter(t, drop);
      } else {
        assert Filter(s, keep) == Filter(t, keep);
        assert Filter(s, drop) == [x] + Filter(t, drop);
      }
    }
  }

  /** Filtering with a stronger predicate keeps a sub-collection. */
  lemma {:induction false} FilterMonotone<T(!new)>(s: seq<T>, strong: T -> bool, weak: T -> bool)
    requires forall x :: x in s && strong(x) ==> weak(x)
    ensures |Filter(s, strong)| <= |Filter(s, weak)|
    ensures Filter(s, strong) == Filter(Filter(s, weak), strong)
  {
    if s != [] {
      FilterMonotone(s[1..], strong, weak);
    }
  }

  /** Two predicates no element satisfies together select at most |s| elements between them. */
  lemma {:induction false} FilterDisjoint<T(!new)>(s: seq<T>, p: T -> bool, q: T -> bool)
    requires forall x :: x in s ==> !(p(x) && q(x))
    ensures |Filter(s, p)| + |Filter(s, q)| <= |s|
  {
    if s != [] {
      FilterDisjoint(s[1..], p, q);
    }
  }

  /** Number of elements satisfying `p`: `s.filter(p).length`. */
  function Count<T(!new)>(s: seq<T>, p: T -> bool): (n: nat)
    ensures n <= |s|
  {
    |Filter(s, p)|
  }

  /** `Count` over a sequence grown at the end. */
  lemma CountSnoc<T(!new)>(s: seq<T>, x: T, p: T -> bool)
    ensures Count(s + [x], p) == Count(s, p) + (if p(x) then 1 else 0)
  {
    FilterAppend(s, [x], p);
    assert [x][1..] == [];
  }

  /** No element satisfies `p`: the count is zero. */
  lemma CountNone<T(!new)>(s: seq<T>, p: T -> bool)
    requires forall x :: x in s ==> !p(x)
    ensures Count(s, p) == 0
  {
    NonEmptyHasMember(Filter(s, p));
  }

  /** Filters that agree on the elements of `s` select the same elements. */
  lemma {:induction false} FilterCongruent<T(!new)>(s: seq<T>, p: T -> bool, q: T -> bool)
    requires forall x :: x in s ==> p(x) == q(x)
    ensures Filter(s, p) == Filter(s, q)
  {
    if s != [] {
      assert s[0] in s;
      assert forall x :: x in s[1..] ==> x in s;
      FilterCongruent(s[1..], p, q);
    }
  }

  /** Deletion by id, as every component does it: `s.filter(x => x.id !== id)`. */
  function WithoutId<T(!new)>(s: seq<T>, idOf: T -> int, id: int): (r: seq<T>)
    ensures forall x :: x in r <==> x in s && idOf(x) != id
    ensures forall x :: multiset(r)[x] == if idOf(x) != id then multiset(s)[x] else 0
    ensures IsSubsequence(r, s)
    ensures (forall x :: x in s ==> idOf(x) != id) ==> r == s
  {
    FilterIsSubsequence(s, KeepOthers(idOf, id));
    FilterKeepsAll(s, KeepOthers(idOf, id));
    FilterMultiset(s, KeepOthers(idOf, id));
    Filter(s, KeepOthers(idOf, id))
  }

  function KeepOthers<T>(idOf: T -> int, id: int): T -> bool {
    x => idOf(x) != id
  }

  lemma {:induction false} FilterKeepsAll<T(!new)>(s: seq<T>, keep: T -> bool)
    ensures (forall x :: x in s ==> keep(x)) ==> Filter(s, keep) == s
  {
    if s != [] {
      FilterKeepsAll(s[1..], keep);
    }
  }

  /** Deleting the same id twice is the same as deleting it once. */
  lemma WithoutIdIdempotent<T(!new)>(s: seq<T>, idOf: T -> int, id: int)
    ensures WithoutId(WithoutId(s, idOf, id), idOf, id) == WithoutId(s, idOf, id)
  {
    FilterIdempotent(s, KeepOthers(idOf, id));
  }

  lemma NonEmptyHasMember<T>(s: seq<T>)
    ensures s != [] ==> s[0] in s
  {
  }

  predicate NoDuplicates<T(==)>(s: seq<T>) {
    forall i, j :: 0 <= i < j < |s| ==> s[i] != s[j]
  }

  /** Position of the first occurrence of `x` in `s`. */
  function FirstPos<T(==)>(s: seq<T>, x: T): (i: nat)
    requires x in s
    ensures i < |s| && s[i] == x && x !in s[..i]
  {
    if s[0] == x then 0
    else
      assert s == [s[0]] + s[1..];
      var i := FirstPos(s[1..], x) + 1;
      assert s[..i] == [s[0]] + s[1..][..i - 1];
      i
  }

  /** The first occurrence of an element of a prefix lies in the prefix. */
  lemma FirstPosPrefix<T>(s: seq<T>, m: nat, x: T)
    requires m <= |s| && x in s[..m]
    ensures FirstPos(s, x) == FirstPos(s[..m], x)
  {
    var i, j := FirstPos(s[..m], x), FirstPos(s, x);
    assert s[..m][..i] == s[..i];
    assert forall k :: 0 <= k < i ==> s[..i][k] == s[k];
    assert forall k :: 0 <= k < j ==> s[..j][k] == s[k];
  }

  /** Filtering keeps the order of first occurrences of the kept elements. */
  lemma {:induction false} FilterFirstPos<T(!new)>(s: seq<T>, keep: T -> bool, x: T, y: T)
    requires x in s && y in s && keep(x) && keep(y)
    ensures x in Filter(s, keep) && y in Filter(s, keep)
    ensures FirstPos(Filter(s, keep), x) < FirstPos(Filter(s, keep), y) <==> FirstPos(s, x) < FirstPos(s, y)
  {
    var f := Filter(s, keep);
    assert s == [s[0]] + s[1..];
    if s[0] != x && s[0] != y {
      FilterFirstPos(s[1..], keep, x, y);
      if keep(s[0]) {
        assert f == [s[0]] + Filter(s[1..], keep);
        assert f[1..] == Filter(s[1..], keep);
      }
    } else {
      assert f[0] == s[0];
    }
  }

  /** `[...new Set(s)]`: each element once, in the order of its first
      occurrence. */
  function Dedup<T(==,!new)>(s: seq<T>): (r: seq<T>)
    ensures NoDuplicates(r)
    ensures forall x :: x in r <==> x in s
    ensures forall i, j {:trigger FirstPos(s, r[i]), FirstPos(s, r[j])} :: 0 <= i < j < |r| ==> FirstPos(s, r[i]) < FirstPos(s, r[j])
    ensures |r| <= |s|
    decreases |s|
  {
    if s == [] then []
    else
      var n := |s|;
      var prefix, last := s[..n - 1], s[n - 1];
      var rest := Dedup(prefix);
      assert s == prefix + [last];
      forall x | x in rest ensures FirstPos(s, x) == FirstPos(prefix, x) < n - 1 {
        FirstPosPrefix(s, n - 1, x);
      }
      if last in rest then rest
      else
        assert FirstPos(s, last) == n - 1 by {
          assert forall k :: 0 <= k < n - 1 ==> prefix[k] == s[k];
        }
        var r := rest + [last];
        assert forall i :: 0 <= i < |rest| ==> r[i] == rest[i] && rest[i] in rest;
        r
  }

  /** Appending an element not yet seen to a list that is its own `Dedup`
      gives a list that is its own `Dedup`. */
  lemma DedupSnocFresh<T(!new)>(prefix: seq<T>, last: T)
    requires Dedup(prefix) == prefix && last !in prefix
    ensures Dedup(prefix + [last]) == prefix + [last]
  {
    assert (prefix + [last])[..|prefix|] == prefix;
  }

  /** Dropping the last element of a list without repeats leaves a list
      without repeats that does not hold that element. */
  lemma NoDuplicatesPrefix<T>(s: seq<T>)
    requires s != [] && NoDuplicates(s)
    ensures NoDuplicates(s[..|s| - 1]) && s[|s| - 1] !in s[..|s| - 1]
  {
    assert forall k :: 0 <= k < |s| - 1 ==> s[..|s| - 1][k] == s[k];
  }

  /** A list without repeats is its own `[...new Set(s)]`. */
  lemma {:induction false} DedupOfDistinct<T(!new)>(s: seq<T>)
    requires NoDuplicates(s)
    ensures Dedup(s) == s
    decreases |s|
  {
    if s != [] {
      var n := |s|;
      var prefix, last := s[..n - 1], s[n - 1];
      NoDuplicatesPrefix(s);
      DedupOfDistinct(prefix);
      assert s == prefix + [last];
      DedupSnocFresh(prefix, last);
    }
  }

  /** `s.map(f)`. */
  function MapSeq<A, B>(s: seq<A>, f: A -> B): (r: seq<B>)
    ensures |r| == |s|
    ensures forall i :: 0 <= i < |s| ==> r[i] == f(s[i])
  {
    seq(|s|, i requires 0 <= i < |s| => f(s[i]))
  }

  /** `s.slice(0, n)`. */
  function Take<T>(s: seq<T>, n: nat): (r: seq<T>)
    ensures |r| == if |s| < n then |s| else n
    ensures r == s[..|r|]
  {
    if |s| <= n then s else s[..n]
  }

  /** Filtering a prefix gives a prefix of the filter. */
  lemma FilterTakePrefix<T(!new)>(s: seq<T>, n: nat, keep: T -> bool)
    ensures Filter(Take(s, n), keep) <= Filter(s, keep)
  {
    var t := Take(s, n);
    assert s == t + s[|t|..];
    FilterAppend(t, s[|t|..], keep);
  }

  // ---------------------------------------------------------------------
  // Stable sorting under a total preorder (JavaScript's Array.prototype.sort
  // is stable, so for a consistent comparator its result is the unique
  // stable ordering, which insertion sort computes).

  ghost predicate TotalPreorder<T(!new)>(le: (T, T) -> bool) {
    && (forall a, b :: le(a, b) || le(b, a))
    && (forall a, b, c :: le(a, b) && le(b, c) ==> le(a, c))
  }

  predicate SortedBy<T>(s: seq<T>, le: (T, T) -> bool) {
    forall i, j :: 0 <= i < j < |s| ==> le(s[i], s[j])
  }

  /** Places `x` after every element not strictly above it. */
  function Insert<T(!new)>(x: T, s: seq<T>, le: (T, T) -> bool): (r: seq<T>)
    ensures multiset(r) == multiset(s) + multiset{x}
    ensures |r| == |s| + 1
  {
    if s == [] then [x]
    else if !le(s[0], x) then [x] + s
    else
      assert s == [s[0]] + s[1..];
      [s[0]] + Insert(x, s[1..], le)
  }

  lemma {:induction false} InsertSorted<T(!new)>(x: T, s: seq<T>, le: (T, T) -> bool)
    requires TotalPreorder(le)
    requires SortedBy(s, le)
    ensures SortedBy(Insert(x, s, le), le)
  {
    if s == [] {
    } else if !le(s[0], x) {
      assert le(x, s[0]);
      var r := [x] + s;
      forall i, j | 0 <= i < j < |r| ensures le(r[i], r[j]) {
        if i == 0 && j > 1 {
          assert le(s[0], s[j - 1]);
        }
      }
    } else {
      var tail := Insert(x, s[1..], le);
      InsertSorted(x, s[1..], le);
      InsertLowerBound(x, s[1..], le, s[0]);
      var r := [s[0]] + tail;
      forall i, j | 0 <= i < j < |r| ensures le(r[i], r[j]) {
        if i == 0 {
          assert r[j] == tail[j - 1];
        } else {
          assert r[i] == tail[i - 1] && r[j] == tail[j - 1];
        }
      }
    }
  }

  /** A lower bound of `x` and of every element of `s` bounds the result. */
  lemma {:induction false} InsertLowerBound<T(!new)>(x: T, s: seq<T>, le: (T, T) -> bool, y: T)
    requires le(y, x)
    requires forall k :: 0 <= k < |s| ==> le(y, s[k])
    ensures forall k :: 0 <= k < |Insert(x, s, le)| ==> le(y, Insert(x, s, le)[k])
  {
    if s != [] && le(s[0], x) {
      InsertLowerBound(x, s[1..], le, y);
    }
  }

  /** The elements `le` ranks level with `x`. */
  function Tie<T>(le: (T, T) -> bool, x: T): T -> bool {
    y => le(x, y) && le(y, x)
  }

  /** Inserting into a sorted sequence puts `x` after every element level
      with it. */
  lemma {:induction false} InsertStable<T(!new)>(x: T, s: seq<T>, le: (T, T) -> bool, y: T)
    requires TotalPreorder(le)
    requires SortedBy(s, le)
    ensures Filter(Insert(x, s, le), Tie(le, y)) == Filter(s, Tie(le, y)) + Filter([x], Tie(le, y))
  {
    var tie := Tie(le, y);
    if s == [] {
    } else if !le(s[0], x) {
      InsertAhead(x, s, le, y);
    } else {
      SortedTail(s, le);
      InsertStable(x, s[1..], le, y);
      assert s == [s[0]] + s[1..];
      InsertBehind(x, s[0], s[1..], le, y);
    }
  }

  lemma SortedTail<T>(s: seq<T>, le: (T, T) -> bool)
    requires s != [] && SortedBy(s, le)
    ensures SortedBy(s[1..], le)
  {
    assert forall k :: 0 <= k < |s| - 1 ==> s[1..][k] == s[k + 1];
  }

  /** When `x` goes behind the head `h`, the head's place in the ties is
      unchanged. */
  lemma InsertBehind<T(!new)>(x: T, h: T, t: seq<T>, le: (T, T) -> bool, y: T)
    requires le(h, x)
    requires Filter(Insert(x, t, le), Tie(le, y)) == Filter(t, Tie(le, y)) + Filter([x], Tie(le, y))
    ensures Filter(Insert(x, [h] + t, le), Tie(le, y)) == Filter([h] + t, Tie(le, y)) + Filter([x], Tie(le, y))
  {
    assert ([h] + t)[0] == h && ([h] + t)[1..] == t;
    FilterCons(h, Insert(x, t, le), t, [x], Tie(le, y));
  }

  /** Putting the same head in front of both sides keeps a filtered
      `rest == tail + extra` split. */
  lemma FilterCons<T(!new)>(h: T, rest: seq<T>, tail: seq<T>, extra: seq<T>, keep: T -> bool)
    requires Filter(rest, keep) == Filter(tail, keep) + Filter(extra, keep)
    ensures Filter([h] + rest, keep) == Filter([h] + tail, keep) + Filter(extra, keep)
  {
    var a, b, c := Filter([h], keep), Filter(tail, keep), Filter(extra, keep);
    calc {
      Filter([h] + rest, keep);
    == { FilterAppend([h], rest, keep); }
      a + (b + c);
    ==
      (a + b) + c;
    == { FilterAppend([h], tail, keep); }
      Filter([h] + tail, keep) + c;
    }
  }

  /** When `x` goes in front of a sorted sequence, no element level with
      it follows. */
  lemma InsertAhead<T(!new)>(x: T, s: seq<T>, le: (T, T) -> bool, y: T)
    requires TotalPreorder(le)
    requires SortedBy(s, le)
    requires s != [] && !le(s[0], x)
    ensures Filter([x] + s, Tie(le, y)) == Filter(s, Tie(le, y)) + Filter([x], Tie(le, y))
  {
    var tie := Tie(le, y);
    FilterAppend([x], s, tie);
    if tie(x) {
      forall k | 0 <= k < |s| ensures !tie(s[k]) {
        if k > 0 {
          assert le(s[0], s[k]);
        }
      }
      FilterNone(s, tie);
    }
  }

  lemma FilterNone<T(!new)>(s: seq<T>, keep: T -> bool)
    requires forall k :: 0 <= k < |s| ==> !keep(s[k])
    ensures Filter(s, keep) == []
  {
    CountNone(s, keep);
  }

  /** One step of the insertion sort keeps every run of level elements in
      input order. */
  lemma SortStep<T(!new)>(prefix: seq<T>, x: T, sorted: seq<T>, le: (T, T) -> bool)
    requires TotalPreorder(le)
    requires SortedBy(sorted, le)
    requires forall y :: Filter(sorted, Tie(le, y)) == Filter(prefix, Tie(le, y))
    ensures forall y :: Filter(Insert(x, sorted, le), Tie(le, y)) == Filter(prefix + [x], Tie(le, y))
  {
    forall y ensures Filter(Insert(x, sorted, le), Tie(le, y)) == Filter(prefix + [x], Tie(le, y)) {
      InsertStable(x, sorted, le, y);
      FilterAppend(prefix, [x], Tie(le, y));
    }
  }

  /** `Array.prototype.sort` with a consistent comparator: sorted, a
      permutation, and stable (elements ranked level keep their input
      order). */
  function SortBy<T(!new)>(s: seq<T>, le: (T, T) -> bool): (r: seq<T>)
    requires TotalPreorder(le)
    ensures SortedBy(r, le)
    ensures multiset(r) == multiset(s)
    ensures |r| == |s|
    ensures forall y :: Filter(r, Tie(le, y)) == Filter(s, Tie(le, y))
  {
    if s == [] then []
    else
      var prefix, last := s[..|s| - 1], s[|s| - 1];
      assert s == prefix + [last];
      var sorted := SortBy(prefix, le);
      InsertSorted(last, sorted, le);
      SortStep(prefix, last, sorted, le);
      Insert(last, sorted, le)
  }

  /** The first `n` elements of a sorted sequence are its top: an element
      left out comes after every element taken, and is only left out when
      `n` elements were taken. */
  lemma TakeOfSortedIsTop<T>(s: seq<T>, n: nat, le: (T, T) -> bool, x: T)
    requires SortedBy(s, le)
    requires x in s && x !in Take(s, n)
    ensures |Take(s, n)| == n
    ensures forall y :: y in Take(s, n) ==> le(y, x)
  {
    var j :| 0 <= j < |s| && s[j] == x;
    forall y | y in Take(s, n) ensures le(y, x) {
      var i :| 0 <= i < |Take(s, n)| && Take(s, n)[i] == y;
      assert s[i] == y;
    }
  }

  // ---------------------------------------------------------------------
  // Ascending enumeration of a finite set of naturals.

  predicate StrictlyIncreasing(s: seq<nat>) {
    forall i, j :: 0 <= i < j < |s| ==> s[i] < s[j]
  }

  predicate IsLeast(m: nat, s: set<nat>) {
    m in s && forall y :: y in s ==> m <= y
  }

  lemma {:induction false} HasMinimum(s: set<nat>)
    requires s != {}
    ensures exists m :: IsLeast(m, s)
    decreases |s|
  {
    var x :| x in s;
    var rest := s - {x};
    if rest == {} {
      assert s == {x};
      assert IsLeast(x, s);
    } else {
      HasMinimum(rest);
      var m :| IsLeast(m, rest);
      var least := if x < m then x else m;
      forall y | y in s ensures least <= y {
        if y != x {
          assert y in rest;
        }
      }
      assert IsLeast(least, s);
    }
  }

  function MinOf(s: set<nat>): (m: nat)
    requires s != {}
    ensures m in s && forall y :: y in s ==> m <= y
  {
    HasMinimum(s);
    var m :| IsLeast(m, s);
    m
  }

  function SortedSeq(s: set<nat>): (r: seq<nat>)
    ensures forall x :: x in r <==> x in s
    ensures |r| == |s|
    decreases s
  {
    if s == {} then [] else [MinOf(s)] + SortedSeq(s - {MinOf(s)})
  }

  lemma {:induction false} SortedSeqIncreasing(s: set<nat>)
    ensures StrictlyIncreasing(SortedSeq(s))
    decreases s
  {
    if s != {} {
      var m := MinOf(s);
      var rest := SortedSeq(s - {m});
      SortedSeqIncreasing(s - {m});
      forall k | 0 <= k < |rest| ensures m < rest[k] {
        assert rest[k] in s - {m};
      }
      var r := [m] + rest;
      forall i, j | 0 <= i < j < |r| ensures r[i] < r[j] {
        if i > 0 {
          assert r[i] == rest[i - 1] && r[j] == rest[j - 1];
        }
      }
    }
  }

  lemma SortedSeqSingleton(x: nat)
    ensures SortedSeq({x}) == [x]
  {
    assert MinOf({x}) == x;
    assert {x} - {x} == {};
  }

  // ---------------------------------------------------------------------

  function Sum(s: seq<nat>): nat {
    if s == [] then 0 else Sum(s[..|s| - 1]) + s[|s| - 1]
  }
}

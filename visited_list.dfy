/**
 * The session's list of recently viewed article ids, most recent first, as
 * `view_countup` rebuilds it on every counted read: `list.unshift(id).uniq[0, 50]`.
 */
module VisitedList {
  import opened Ids

  /** How many ids the session keeps: the `50` of `uniq[0, 50]`. */
  const Capacity: nat := 50

  predicate NoDuplicates(s: seq<ArticleId>)
  {
    forall i, j :: 0 <= i < j < |s| ==> s[i] != s[j]
  }

  /** The shape of every list `view_countup` stores: duplicate-free and within the window. */
  predicate SessionList(s: seq<ArticleId>)
  {
    NoDuplicates(s) && |s| <= Capacity
  }

  /**
   * Ruby's `Array#uniq`: scanning from the left, an element is kept unless an
   * equal one has already been kept, so the first occurrence of each id survives.
   */
  function Uniq(s: seq<ArticleId>): (u: seq<ArticleId>)
    ensures NoDuplicates(u)
    ensures forall x :: x in u <==> x in s
    ensures |u| <= |s|
    decreases |s|
  {
    if s == [] then []
    else
      var init := s[..|s| - 1];
      assert s == init + [s[|s| - 1]];
      var kept := Uniq(init);
      if s[|s| - 1] in kept then kept else kept + [s[|s| - 1]]
  }

  /** Ruby's `a[0, n]`: the first `n` elements, or all of them when there are fewer. */
  function Take(s: seq<ArticleId>, n: nat): (t: seq<ArticleId>)
    ensures t <= s
    ensures |t| == if |s| <= n then |s| else n
    ensures forall x :: x in t ==> x in s
  {
    if |s| <= n then s else s[..n]
  }

  /**
   * The visited list after viewing `id`: `list.unshift(id).uniq[0, 50]`.
   * The viewed id comes first, no id appears twice, and the window holds at most
   * `Capacity` ids, all of them the viewed one or ids that were already listed.
   */
  function Push(list: seq<ArticleId>, id: ArticleId): (r: seq<ArticleId>)
    ensures 0 < |r| <= Capacity
    ensures r[0] == id
    ensures NoDuplicates(r)
    ensures forall x :: x in r ==> x == id || x in list
  {
    UniqExtends([id], list);
    assert Uniq([id]) == [id] by {
      assert [id][..0] == [];
    }
    Take(Uniq([id] + list), Capacity)
  }

  /** The list after viewing `ids` in turn, starting from `list`. */
  function Replay(list: seq<ArticleId>, ids: seq<ArticleId>): (r: seq<ArticleId>)
    ensures ids != [] ==> 0 < |r| <= Capacity && r[0] == ids[|ids| - 1] && NoDuplicates(r)
    decreases |ids|
  {
    if ids == [] then list else Replay(Push(list, ids[0]), ids[1..])
  }

  /** `s` with every occurrence of `x` taken out, the rest in order. */
  function Without(s: seq<ArticleId>, x: ArticleId): (r: seq<ArticleId>)
    ensures x !in r
    ensures forall y :: y != x ==> (y in r <==> y in s)
    ensures |r| == |s| - multiset(s)[x]
    ensures x !in s ==> r == s
    ensures NoDuplicates(s) ==> NoDuplicates(r)
    decreases |s|
  {
    if s == [] then []
    else
      var init := s[..|s| - 1];
      assert s == init + [s[|s| - 1]];
      var rest := Without(init, x);
      assert NoDuplicates(s) ==> NoDuplicates(init) && s[|s| - 1] !in init;
      if s[|s| - 1] == x then rest else rest + [s[|s| - 1]]
  }

  /** The index of the first occurrence of `x` in `s`. */
  function FirstIndex(s: seq<ArticleId>, x: ArticleId): (i: nat)
    requires x in s
    ensures i < |s| && s[i] == x && x !in s[..i]
    decreases |s|
  {
    if s[0] == x then 0
    else
      assert s == [s[0]] + s[1..];
      var j := FirstIndex(s[1..], x);
      assert s[..1 + j] == [s[0]] + s[1..][..j];
      1 + j
  }

  // ---------------------------------------------------------------------------
  // Ruby's uniq

  lemma FirstIndexIs(s: seq<ArticleId>, x: ArticleId, i: nat)
    requires i < |s| && s[i] == x && x !in s[..i]
    ensures FirstIndex(s, x) == i
  {
  }

  /** Uniq only ever appends: what it keeps of a prefix stays a prefix of what it keeps of the whole. */
  lemma {:induction false} UniqExtends(a: seq<ArticleId>, b: seq<ArticleId>)
    ensures Uniq(a) <= Uniq(a + b)
    decreases |b|
  {
    if b == [] {
      assert a + b == a;
    } else {
      var b' := b[..|b| - 1];
      assert (a + b)[..|a + b| - 1] == a + b';
      UniqExtends(a, b');
    }
  }

  /** A list without duplicates is its own uniq. */
  lemma {:induction false} UniqOfDistinct(s: seq<ArticleId>)
    requires NoDuplicates(s)
    ensures Uniq(s) == s
    decreases |s|
  {
    if s != [] {
      var init := s[..|s| - 1];
      UniqOfDistinct(init);
      assert s == init + [s[|s| - 1]];
    }
  }

  /** Uniq keeps the first occurrences, in the order they first occur. */
  lemma {:induction false} UniqFirstOccurrenceOrder(s: seq<ArticleId>)
    ensures forall i, j :: 0 <= i < j < |Uniq(s)| ==> FirstIndex(s, Uniq(s)[i]) < FirstIndex(s, Uniq(s)[j])
    decreases |s|
  {
    if s != [] {
      var init := s[..|s| - 1];
      var y := s[|s| - 1];
      assert s == init + [y];
      var kept := Uniq(init);
      UniqFirstOccurrenceOrder(init);
      forall x | x in init
        ensures FirstIndex(s, x) == FirstIndex(init, x)
      {
        var k := FirstIndex(init, x);
        assert s[..k] == init[..k];
        FirstIndexIs(s, x, k);
      }
      if y !in kept {
        assert s[..|init|] == init;
        FirstIndexIs(s, y, |init|);
      }
    }
  }

  lemma {:induction false} WithoutConcat(a: seq<ArticleId>, b: seq<ArticleId>, x: ArticleId)
    ensures Without(a + b, x) == Without(a, x) + Without(b, x)
    decreases |b|
  {
    if b == [] {
      assert a + b == a;
    } else {
      var b' := b[..|b| - 1];
      assert (a + b)[..|a + b| - 1] == a + b';
      WithoutConcat(a, b', x);
    }
  }

  /** Uniq of a list headed by `x`: `x`, then the uniq of the rest with `x` removed. */
  lemma {:induction false} UniqCons(x: ArticleId, s: seq<ArticleId>)
    ensures Uniq([x] + s) == [x] + Uniq(Without(s, x))
    decreases |s|
  {
    if s == [] {
      assert [x][..0] == [];
    } else {
      var init := s[..|s| - 1];
      var y := s[|s| - 1];
      assert ([x] + s)[..|[x] + s| - 1] == [x] + init;
      UniqCons(x, init);
      var w := Without(init, x);
      if y != x {
        assert Without(s, x) == w + [y];
        assert (w + [y])[..|w + [y]| - 1] == w;
      }
    }
  }

  // ---------------------------------------------------------------------------
  // view_countup's list

  /**
   * On a list without duplicates that fits the window (every list `Push` builds),
   * the viewed id moves to the front and every other id keeps its place in order;
   * only when the id is new and the window is full does anything else go: the last entry.
   */
  lemma PushShape(list: seq<ArticleId>, id: ArticleId)
    requires SessionList(list)
    ensures Push(list, id) ==
      if id in list then [id] + Without(list, id)
      else if |list| < Capacity then [id] + list
      else [id] + list[..Capacity - 1]
  {
    UniqCons(id, list);
    UniqOfDistinct(Without(list, id));
    if id in list {
      assert multiset(list)[id] >= 1;
    } else if |list| == Capacity {
      assert ([id] + list)[..Capacity] == [id] + list[..Capacity - 1];
    }
  }

  /**
   * Which ids the window keeps: the viewed one and every id already listed, except
   * the last entry when the id is new and the window was full.
   */
  lemma PushKeeps(list: seq<ArticleId>, id: ArticleId)
    requires SessionList(list)
    ensures forall x :: x in Push(list, id) <==>
      x == id || (x in list && !(id !in list && |list| == Capacity && x == list[Capacity - 1]))
  {
    PushShape(list, id);
    if id !in list && |list| == Capacity {
      var front := list[..Capacity - 1];
      assert list == front + [list[Capacity - 1]];
      assert list[Capacity - 1] !in front;
    }
  }

  /** Whatever the old list, the ids after the viewed one keep the order in which they first occurred in it. */
  lemma PushKeepsOrder(list: seq<ArticleId>, id: ArticleId)
    ensures forall i :: 1 <= i < |Push(list, id)| ==> Push(list, id)[i] in list
    ensures forall i, j :: 1 <= i < j < |Push(list, id)| ==>
      FirstIndex(list, Push(list, id)[i]) < FirstIndex(list, Push(list, id)[j])
  {
    var s := [id] + list;
    var u := Uniq(s);
    var r := Push(list, id);
    UniqFirstOccurrenceOrder(s);
    forall x | x in list && x != id
      ensures FirstIndex(s, x) == 1 + FirstIndex(list, x)
    {
      var k := FirstIndex(list, x);
      assert s[..1 + k] == [id] + list[..k];
      FirstIndexIs(s, x, 1 + k);
    }
    forall i | 1 <= i < |r|
      ensures r[i] == u[i] && r[i] != id && r[i] in list
    {
      assert r[0] == id;
    }
  }

  /** Viewing the same article again leaves the list as it is (and, as the id is listed, counts nothing). */
  lemma PushAgain(list: seq<ArticleId>, id: ArticleId)
    ensures id in Push(list, id)
    ensures Push(Push(list, id), id) == Push(list, id)
  {
    var r := Push(list, id);
    var t := r[1..];
    assert r == [id] + t;
    assert id !in t;
    assert NoDuplicates(t);
    UniqCons(id, r);
    WithoutConcat([id], t, id);
    assert Without([id], id) == [] by {
      assert [id][..0] == [];
    }
    assert Without(r, id) == t;
    UniqOfDistinct(t);
    assert Uniq([id] + r) == r;
  }

  /** Once an id is gone and not viewed again, it stays gone. */
  lemma {:induction false} StaysOut(list: seq<ArticleId>, x: ArticleId, ids: seq<ArticleId>)
    requires x !in list && x !in ids
    ensures x !in Replay(list, ids)
    decreases |ids|
  {
    if ids != [] {
      StaysOut(Push(list, ids[0]), x, ids[1..]);
    }
  }

  /** Viewing an id that is not among the first `k + 1` entries pushes entry `k` back by one place, or out at the window's end. */
  lemma ShiftBack(list: seq<ArticleId>, k: nat, y: ArticleId)
    requires NoDuplicates(list) && k < |list|
    requires y !in list[..k + 1]
    ensures k + 1 < Capacity ==> k + 1 < |Push(list, y)| && Push(list, y)[k + 1] == list[k]
    ensures k + 1 < Capacity ==> forall x :: x in Push(list, y)[..k + 1] <==> x == y || x in list[..k]
    ensures k + 1 >= Capacity ==> list[k] !in Push(list, y)
  {
    var a := [y] + list[..k + 1];
    PushedFront(list, k, y);
    var r := Push(list, y);
    if k + 1 < Capacity {
      assert r[..k + 1] == a[..k + 1];
      assert a[..k + 1] == [y] + list[..k];
    } else {
      assert r == a[..Capacity];
      assert a[k + 1] == list[k];
      assert list[k] !in a[..Capacity];
    }
  }

  /** When `y` is not among the first `k + 1` entries, those entries follow `y` unchanged at the front of `Uniq([y] + list)`. */
  lemma PushedFront(list: seq<ArticleId>, k: nat, y: ArticleId)
    requires NoDuplicates(list) && k < |list|
    requires y !in list[..k + 1]
    ensures [y] + list[..k + 1] <= Uniq([y] + list)
    ensures NoDuplicates([y] + list[..k + 1])
  {
    var p := list[..k + 1];
    var a := [y] + p;
    assert NoDuplicates(p) by {
      forall i, j | 0 <= i < j < |p|
        ensures p[i] != p[j]
      {
        assert p[i] == list[i] && p[j] == list[j];
      }
    }
    DistinctFront(p, y);
    FrontSplit(list, k + 1, y);
    DistinctPrefixKept(a, list[k + 1..]);
  }

  /** Cutting `[y] + list` after `list`'s first `m` entries. */
  lemma FrontSplit(list: seq<ArticleId>, m: nat, y: ArticleId)
    requires m <= |list|
    ensures [y] + list == ([y] + list[..m]) + list[m..]
  {
    var l := [y] + list;
    var r := ([y] + list[..m]) + list[m..];
    assert |l| == |r|;
    forall i | 0 <= i < |l|
      ensures l[i] == r[i]
    {
      if i > 0 {
        assert l[i] == list[i - 1];
        if i <= m {
          assert r[i] == list[..m][i - 1];
        } else {
          assert r[i] == list[m..][i - 1 - m];
        }
      }
    }
  }

  /** Putting a new id in front of a prefix of a duplicate-free list keeps it duplicate-free. */
  lemma DistinctFront(p: seq<ArticleId>, y: ArticleId)
    requires NoDuplicates(p) && y !in p
    ensures NoDuplicates([y] + p)
  {
    var a := [y] + p;
    forall i, j | 0 <= i < j < |a|
      ensures a[i] != a[j]
    {
      assert a[j] == p[j - 1];
      if i > 0 {
        assert a[i] == p[i - 1];
      }
    }
  }

  /** A duplicate-free front survives uniq untouched. */
  lemma DistinctPrefixKept(a: seq<ArticleId>, b: seq<ArticleId>)
    requires NoDuplicates(a)
    ensures a <= Uniq(a + b)
  {
    UniqOfDistinct(a);
    UniqExtends(a, b);
  }

  /** In a duplicate-free list, removing an id removes just its one position. */
  lemma WithoutOne(list: seq<ArticleId>, j: nat)
    requires NoDuplicates(list) && j < |list|
    ensures Without(list, list[j]) == list[..j] + list[j + 1..]
  {
    var y := list[j];
    var front, back := list[..j], list[j + 1..];
    assert list == front + [y] + back;
    assert y !in front && y !in back;
    WithoutConcat(front + [y], back, y);
    WithoutConcat(front, [y], y);
    assert Without([y], y) == [] by {
      assert [y][..0] == [];
    }
  }

  /** Viewing an id already ahead of entry `k` leaves the entry in place, with the same ids ahead of it. */
  lemma StaysPut(list: seq<ArticleId>, k: nat, y: ArticleId)
    requires NoDuplicates(list) && k < |list| && k < Capacity
    requires y in list[..k]
    ensures k < |Push(list, y)| && Push(list, y)[k] == list[k]
    ensures forall x :: x in Push(list, y)[..k] <==> x in list[..k]
  {
    var j :| 0 <= j < k && list[j] == y;
    WithoutOne(list, j);
    UniqCons(y, list);
    UniqOfDistinct(Without(list, y));
    var u := [y] + (list[..j] + list[j + 1..]);
    assert Uniq([y] + list) == u;
    var r := Push(list, y);
    assert r == Take(u, Capacity);
    assert |u| == |list|;
    assert r[..k] == u[..k] && r[k] == u[k];
    FrontRotated(list, j, k);
  }

  /** Moving entry `j` to the front keeps the first `k` entries (for `j < k`) as a set and entry `k` in place. */
  lemma FrontRotated(list: seq<ArticleId>, j: nat, k: nat)
    requires j < k < |list|
    ensures var u := [list[j]] + (list[..j] + list[j + 1..]);
      u[k] == list[k] && forall x :: x in u[..k] <==> x in list[..k]
  {
    var u := [list[j]] + (list[..j] + list[j + 1..]);
    assert u[..k] == [list[j]] + list[..j] + list[j + 1..k];
    assert list[..k] == list[..j] + [list[j]] + list[j + 1..k];
  }

  /** One more view adds one distinct id, unless the id was already among them. */
  lemma UniqStep(before: seq<ArticleId>, y: ArticleId)
    ensures Uniq(before + [y]) == if y in before then Uniq(before) else Uniq(before) + [y]
  {
    assert (before + [y])[..|before + [y]| - 1] == before;
  }

  /**
   * One view of an id other than entry `k`, where exactly the distinct ids of
   * `before` are ahead of the entry: afterwards exactly the distinct ids of
   * `before + [y]` are ahead of it, or it has left the window.
   */
  lemma DriftStep(list: seq<ArticleId>, k: nat, before: seq<ArticleId>, y: ArticleId)
    requires NoDuplicates(list) && k < |list| && k < Capacity
    requires k == |Uniq(before)| && forall x :: x in list[..k] <==> x in before
    requires y != list[k]
    ensures var n, r := |Uniq(before + [y])|, Push(list, y);
      n < Capacity ==> n < |r| && r[n] == list[k] && forall x :: x in r[..n] <==> x in before + [y]
    ensures |Uniq(before + [y])| >= Capacity ==> list[k] !in Push(list, y)
  {
    UniqStep(before, y);
    if y in before {
      StaysPut(list, k, y);
    } else {
      assert y !in list[..k + 1] by {
        assert list[..k + 1] == list[..k] + [list[k]];
      }
      ShiftBack(list, k, y);
    }
  }

  /**
   * Entry `k` of a session list, with exactly the distinct ids of `before`
   * ahead of it, ends at place `|Uniq(before + ids)|` after the views `ids`
   * (none of them of the entry itself): a view of an id already ahead leaves
   * it in place, any other view moves it back one place. At place `Capacity`
   * it leaves the window.
   */
  lemma {:induction false} DriftsBack(list: seq<ArticleId>, k: nat, before: seq<ArticleId>, ids: seq<ArticleId>)
    requires NoDuplicates(list) && k < |list| && k < Capacity
    requires k == |Uniq(before)| && forall x :: x in list[..k] <==> x in before
    requires list[k] !in ids
    ensures var n := |Uniq(before + ids)|;
      n < Capacity ==> n < |Replay(list, ids)| && Replay(list, ids)[n] == list[k]
    ensures |Uniq(before + ids)| >= Capacity ==> list[k] !in Replay(list, ids)
    decreases |ids|
  {
    if ids == [] {
      assert before + ids == before;
    } else {
      var y, rest := ids[0], ids[1..];
      var r := Push(list, y);
      var before' := before + [y];
      assert before + ids == before' + rest;
      assert Replay(list, ids) == Replay(r, rest);
      DriftStep(list, k, before, y);
      UniqExtends(before', rest);
      var n := |Uniq(before')|;
      if n < Capacity {
        DriftsBack(r, n, before', rest);
      } else {
        StaysOut(r, list[k], rest);
      }
    }
  }

  /**
   * After viewing an article, views of other articles covering fewer than
   * `Capacity` distinct ids leave it in the window (a new view does not count);
   * views covering `Capacity` or more distinct ids push it out (a new view
   * counts again). Repeated views of the same other article count once here.
   */
  lemma WindowEviction(list: seq<ArticleId>, id: ArticleId, others: seq<ArticleId>)
    requires id !in others
    ensures |Uniq(others)| < Capacity ==> id in Replay(Push(list, id), others)
    ensures |Uniq(others)| >= Capacity ==> id !in Replay(Push(list, id), others)
  {
    assert [] + others == others;
    DriftsBack(Push(list, id), 0, [], others);
  }

  /** With no repeats among the other views, the distinct ids are just the views: 50 of them evict. */
  lemma WindowEvictionDistinct(list: seq<ArticleId>, id: ArticleId, others: seq<ArticleId>)
    requires NoDuplicates(others) && id !in others
    ensures |others| < Capacity ==> id in Replay(Push(list, id), others)
    ensures |others| >= Capacity ==> id !in Replay(Push(list, id), others)
  {
    UniqOfDistinct(others);
    WindowEviction(list, id, others);
  }

  /** The session's visited list: `session['visited_list']`, absent meaning empty. */
  class Session {
    var visited: seq<ArticleId>

    /** Every list `view_countup` stores is duplicate-free and fits the window. */
    ghost predicate Valid()
      reads this
    {
      SessionList(visited)
    }

    constructor ()
      ensures Valid() && visited == []
    {
      visited := [];
    }
  }
}

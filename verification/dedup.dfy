/** The accumulation step of the pagination loop: appending the items of a
    page whose id is not yet in the list. */
module Dedup {
  import opened Entities

  /** The ids occurring in `s`. */
  function Ids(s: seq<Notification>): (r: set<string>)
    ensures forall i :: 0 <= i < |s| ==> s[i].id in r
  {
    if |s| == 0 then {} else Ids(s[..|s| - 1]) + {s[|s| - 1].id}
  }

  /** No two notifications of `s` share an id. */
  ghost predicate UniqueIds(s: seq<Notification>) {
    forall i, j :: 0 <= i < j < |s| ==> s[i].id != s[j].id
  }

  ghost predicate IsPrefix(a: seq<Notification>, b: seq<Notification>) {
    |a| <= |b| && a == b[..|a|]
  }

  /** The position of the first notification of `s` carrying `id`. */
  function FirstIndex(s: seq<Notification>, id: string): (r: nat)
    requires id in Ids(s)
    ensures r < |s| && s[r].id == id
    ensures forall k :: 0 <= k < r ==> s[k].id != id
  {
    var p := s[..|s| - 1];
    if id in Ids(p) then
      var r := FirstIndex(p, id);
      assert s[r] == p[r];
      r
    else
      assert forall k :: 0 <= k < |p| ==> s[k] == p[k];
      |s| - 1
  }

  /** `r` is `s` with every notification whose id occurred earlier removed:
      one notification per id of `s`, the first one seen with that id, in
      the order in which the ids first occur. */
  ghost predicate DedupOf(r: seq<Notification>, s: seq<Notification>) {
    UniqueIds(r) && Ids(r) == Ids(s) && FirstSeen(r, s) && InFirstSeenOrder(r, s)
  }

  /** Each notification of `r` is the first one of `s` with its id. */
  ghost predicate FirstSeen(r: seq<Notification>, s: seq<Notification>) {
    forall i :: 0 <= i < |r| ==> r[i].id in Ids(s) && r[i] == s[FirstIndex(s, r[i].id)]
  }

  /** The ids of `r` come in the order of their first occurrence in `s`. */
  ghost predicate InFirstSeenOrder(r: seq<Notification>, s: seq<Notification>) {
    forall i, j :: 0 <= i < j < |r| && r[i].id in Ids(s) && r[j].id in Ids(s) ==>
      FirstIndex(s, r[i].id) < FirstIndex(s, r[j].id)
  }

  /** One step of `list.AddRange(page.Where(pn => !list.Select(n => n.Id).Contains(pn.Id)))`.
      `AddRange` enumerates the lazy `Where` and adds each accepted item
      before the predicate is evaluated on the next one, so the membership
      test also sees the items of the same page added so far. */
  function AddIfNew(list: seq<Notification>, n: Notification): (r: seq<Notification>)
    ensures IsPrefix(list, r)
    ensures n.id in Ids(r)
    ensures |r| <= |list| + 1
    ensures r == list || r == list + [n]
    ensures r == list <==> n.id in Ids(list)
  {
    if n.id in Ids(list) then list
    else
      var r := list + [n];
      assert r[..|r| - 1] == list;
      r
  }

  /** The whole `AddRange` of one page, item by item in page order. */
  function AddNew(list: seq<Notification>, page: seq<Notification>): (r: seq<Notification>)
    ensures IsPrefix(list, r)
    ensures Ids(r) == Ids(list) + Ids(page)
    ensures UniqueIds(list) ==> UniqueIds(r)
  {
    if |page| == 0 then list
    else
      var before := AddNew(list, page[..|page| - 1]);
      var r := AddIfNew(before, page[|page| - 1]);
      assert r == before || r[..|r| - 1] == before;
      r
  }

  lemma {:induction false} IdsAppend(a: seq<Notification>, b: seq<Notification>)
    ensures Ids(a + b) == Ids(a) + Ids(b)
    decreases |b|
  {
    if |b| == 0 {
      assert a + b == a;
    } else {
      var b' := b[..|b| - 1];
      IdsAppend(a, b');
      assert (a + b)[..|a + b| - 1] == a + b';
    }
  }

  lemma FirstIndexAppend(s: seq<Notification>, t: seq<Notification>, id: string)
    requires id in Ids(s)
    ensures id in Ids(s + t) && FirstIndex(s + t, id) == FirstIndex(s, id)
  {
    IdsAppend(s, t);
    var k := FirstIndex(s, id);
    assert (s + t)[k] == s[k];
  }

  /** Adding a notification whose id is already present changes nothing. */
  lemma AddIfNewPresent(list: seq<Notification>, s: seq<Notification>, n: Notification)
    requires DedupOf(list, s) && n.id in Ids(list)
    ensures DedupOf(AddIfNew(list, n), s + [n])
  {
    var s' := s + [n];
    IdsSnoc(s, n);
    assert Ids(s') == Ids(s);
    forall i | 0 <= i < |list| ensures list[i].id in Ids(s') && list[i] == s'[FirstIndex(s', list[i].id)] {
      FirstIndexAppend(s, [n], list[i].id);
      assert s'[FirstIndex(s, list[i].id)] == s[FirstIndex(s, list[i].id)];
    }
    assert FirstSeen(list, s');
    forall i, j | 0 <= i < j < |list| && list[i].id in Ids(s') && list[j].id in Ids(s')
      ensures FirstIndex(s', list[i].id) < FirstIndex(s', list[j].id)
    {
      FirstIndexAppend(s, [n], list[i].id);
      FirstIndexAppend(s, [n], list[j].id);
    }
    assert InFirstSeenOrder(list, s');
  }

  lemma IdsSnoc(s: seq<Notification>, n: Notification)
    ensures Ids(s + [n]) == Ids(s) + {n.id}
  {
    assert (s + [n])[..|s|] == s;
  }

  lemma UniqueIdsSnoc(list: seq<Notification>, n: Notification)
    requires UniqueIds(list) && n.id !in Ids(list)
    ensures UniqueIds(list + [n])
  {
    var r := list + [n];
    forall i, j | 0 <= i < j < |r| ensures r[i].id != r[j].id {
      assert r[i] == list[i];
      if j < |list| {
        assert r[j] == list[j];
      }
    }
  }

  /** The first occurrences in `s` keep their positions in `s + [n]`, and
      a fresh id first occurs at the end. */
  lemma FirstIndexSnoc(s: seq<Notification>, n: Notification)
    ensures forall id :: id in Ids(s) ==> FirstIndex(s + [n], id) == FirstIndex(s, id)
    ensures n.id !in Ids(s) ==> FirstIndex(s + [n], n.id) == |s|
  {
    IdsSnoc(s, n);
    forall id | id in Ids(s) ensures FirstIndex(s + [n], id) == FirstIndex(s, id) {
      FirstIndexAppend(s, [n], id);
    }
    assert (s + [n])[|s|] == n;
  }

  lemma FirstSeenSnoc(list: seq<Notification>, s: seq<Notification>, n: Notification)
    requires FirstSeen(list, s) && n.id !in Ids(s)
    ensures FirstSeen(list + [n], s + [n])
  {
    var s', r := s + [n], list + [n];
    FirstIndexSnoc(s, n);
    IdsSnoc(s, n);
    forall i | 0 <= i < |r| ensures r[i].id in Ids(s') && r[i] == s'[FirstIndex(s', r[i].id)] {
      if i < |list| {
        assert r[i] == list[i];
        assert s'[FirstIndex(s, list[i].id)] == s[FirstIndex(s, list[i].id)];
      }
    }
  }

  lemma InFirstSeenOrderSnoc(list: seq<Notification>, s: seq<Notification>, n: Notification)
    requires InFirstSeenOrder(list, s) && Ids(list) == Ids(s) && n.id !in Ids(s)
    ensures InFirstSeenOrder(list + [n], s + [n])
  {
    var s', r := s + [n], list + [n];
    forall i, j | 0 <= i < j < |r| && r[i].id in Ids(s') && r[j].id in Ids(s')
      ensures FirstIndex(s', r[i].id) < FirstIndex(s', r[j].id)
    {
      OrderSnocAt(list, s, n, i, j);
    }
  }

  lemma OrderSnocAt(list: seq<Notification>, s: seq<Notification>, n: Notification, i: nat, j: nat)
    requires InFirstSeenOrder(list, s) && Ids(list) == Ids(s) && n.id !in Ids(s)
    requires i < j < |list| + 1
    ensures (list + [n])[i].id in Ids(s + [n]) && (list + [n])[j].id in Ids(s + [n])
    ensures FirstIndex(s + [n], (list + [n])[i].id) < FirstIndex(s + [n], (list + [n])[j].id)
  {
    var s', r := s + [n], list + [n];
    FirstIndexSnoc(s, n);
    IdsSnoc(s, n);
    var a := list[i].id;
    assert r[i] == list[i] && a in Ids(s);
    if j < |list| {
      assert r[j] == list[j];
    } else {
      assert r[j] == n;
    }
  }

  /** Adding a notification with a fresh id appends it at the end. */
  lemma AddIfNewFresh(list: seq<Notification>, s: seq<Notification>, n: Notification)
    requires DedupOf(list, s) && n.id !in Ids(list)
    ensures DedupOf(AddIfNew(list, n), s + [n])
  {
    IdsSnoc(s, n);
    IdsSnoc(list, n);
    UniqueIdsSnoc(list, n);
    FirstSeenSnoc(list, s, n);
    InFirstSeenOrderSnoc(list, s, n);
  }

  /** Adding one notification keeps the list the deduplication of the
      stream of notifications extended by that one. */
  lemma AddIfNewDedup(list: seq<Notification>, s: seq<Notification>, n: Notification)
    requires DedupOf(list, s)
    ensures DedupOf(AddIfNew(list, n), s + [n])
  {
    if n.id in Ids(list) {
      AddIfNewPresent(list, s, n);
    } else {
      AddIfNewFresh(list, s, n);
    }
  }

  lemma SplitLast(s: seq<Notification>, t: seq<Notification>)
    requires |t| > 0
    ensures s + t[..|t| - 1] + [t[|t| - 1]] == s + t
  {
    assert t == t[..|t| - 1] + [t[|t| - 1]];
  }

  /** Appending a page keeps the accumulator the deduplication of every
      notification fetched so far, duplicates inside the page included. */
  lemma {:induction false} AddNewDedup(list: seq<Notification>, s: seq<Notification>, page: seq<Notification>)
    requires DedupOf(list, s)
    ensures DedupOf(AddNew(list, page), s + page)
    decreases |page|
  {
    if |page| == 0 {
      assert s + page == s;
    } else {
      var p', n := page[..|page| - 1], page[|page| - 1];
      var before := AddNew(list, p');
      AddNewDedup(list, s, p');
      AddIfNewDedup(before, s + p', n);
      var r := AddIfNew(before, n);
      assert AddNew(list, page) == r;
      SplitLast(s, page);
    }
  }

  lemma UniqueIdsPrefix(s: seq<Notification>, m: nat)
    requires UniqueIds(s) && m <= |s|
    ensures UniqueIds(s[..m])
  {
    assert forall i :: 0 <= i < m ==> s[..m][i] == s[i];
  }

  /** An id no notification of `s` carries is not among its ids. */
  lemma {:induction false} IdAbsent(s: seq<Notification>, id: string)
    requires forall k :: 0 <= k < |s| ==> s[k].id != id
    ensures id !in Ids(s)
    decreases |s|
  {
    if |s| > 0 {
      IdAbsent(s[..|s| - 1], id);
    }
  }

  /** In a sequence without repeated ids, the id at position `m` is not
      among the ids before it. */
  lemma FreshInUnique(s: seq<Notification>, m: nat)
    requires UniqueIds(s) && m < |s|
    ensures s[m].id !in Ids(s[..m])
  {
    var t := s[..m];
    forall k | 0 <= k < |t| ensures t[k].id != s[m].id {
      assert t[k] == s[k];
    }
    IdAbsent(t, s[m].id);
  }

  /** Adding a page whose last notification has a fresh id appends that
      notification after the rest of the page has been added. */
  lemma AddNewSnocFresh(list: seq<Notification>, page: seq<Notification>)
    requires |page| > 0 && page[|page| - 1].id !in Ids(AddNew(list, page[..|page| - 1]))
    ensures AddNew(list, page) == AddNew(list, page[..|page| - 1]) + [page[|page| - 1]]
  {
  }

  lemma SplitConcat(list: seq<Notification>, page: seq<Notification>, n: nat)
    requires n < |page|
    ensures (list + page)[..|list| + n] == list + page[..n]
    ensures (list + page)[|list| + n] == page[n]
    ensures n == |page| - 1 ==> (list + page[..n]) + [page[n]] == list + page
  {
    if n == |page| - 1 {
      assert page == page[..n] + [page[n]];
    }
  }

  /** Without repeated ids, dropping the last notification of the page
      keeps the ids distinct, and that notification's id is fresh. */
  lemma DistinctStep(list: seq<Notification>, page: seq<Notification>)
    requires UniqueIds(list + page) && |page| > 0
    ensures UniqueIds(list + page[..|page| - 1])
    ensures page[|page| - 1].id !in Ids(list + page[..|page| - 1])
    ensures (list + page[..|page| - 1]) + [page[|page| - 1]] == list + page
  {
    var n := |page| - 1;
    SplitConcat(list, page, n);
    UniqueIdsPrefix(list + page, |list| + n);
    FreshInUnique(list + page, |list| + n);
  }

  /** When no id repeats, `AddNew` appends the whole page unchanged. */
  lemma {:induction false} AddNewDistinct(list: seq<Notification>, page: seq<Notification>)
    requires UniqueIds(list + page)
    ensures AddNew(list, page) == list + page
    decreases |page|
  {
    if |page| > 0 {
      DistinctStep(list, page);
      AddNewDistinct(list, page[..|page| - 1]);
      AddNewSnocFresh(list, page);
    }
  }
}

/** Packing changes into pages of whole transaction groups, and draining them page by page. */
module Pagination {
  import opened Hlc
  import opened Model
  import opened Grouping

  const USIZE_MAX: nat := 0xFFFF_FFFF_FFFF_FFFF

  function SaturatingAdd(a: nat, b: nat): nat {
    if a + b > USIZE_MAX then USIZE_MAX else a + b
  }

  function HlcKey(c: Change): string {
    c.hlc
  }

  type Groups = seq<Bucket<string, Change>>

  /** The serialized size of the first `n` groups together. */
  ghost function TotalSize(groups: Groups, size: seq<Change> -> nat, n: nat): nat
    requires n <= |groups|
  {
    if n == 0 then 0 else TotalSize(groups, size, n - 1) + size(groups[n - 1].items)
  }

  /** The transaction groups of `changes`, oldest first. */
  ghost predicate Transactions(changes: seq<Change>, groups: Groups) {
    && Partitions(changes, HlcKey, groups)
    && forall i, j | 0 <= i < j < |groups| :: Rank(groups[i].key) <= Rank(groups[j].key)
  }

  /**
   * The page holds the longest prefix of groups that fits, and at least one. A
   * budget of the saturation value itself is no limit.
   */
  ghost predicate PageFits(groups: Groups, size: seq<Change> -> nat, budget: nat, k: nat) {
    && k <= |groups|
    && (groups != [] ==> k >= 1)
    && (k > 1 ==> TotalSize(groups, size, k) <= budget || budget >= USIZE_MAX)
    && (0 < k < |groups| ==> TotalSize(groups, size, k + 1) > budget && budget < USIZE_MAX)
  }

  method PaginateChanges(changes: seq<Change>, budget: nat, size: seq<Change> -> nat)
    returns (page: seq<Change>, hasMore: bool, ghost groups: Groups, ghost k: nat)
    ensures Transactions(changes, groups) && PageFits(groups, size, budget, k)
    ensures page == Flatten(ItemsOf(groups[..k]))
    ensures hasMore <==> k < |groups|
    ensures multiset(page) <= multiset(changes) && (page == [] <==> changes == [])
    ensures hasMore <==> |page| < |changes|
  {
    hide Rank, HavingUpTo, Flatten;
    page, hasMore, k := [], false, 0;
    if changes == [] {
      groups := [];
      FlattenNothing();
      assert ItemsOf(groups[..0]) == [];
      return;
    }
    var ordered := GroupByHlc(changes, HlcKey);
    groups := ordered;
    assert HlcKey(changes[0]) in KeysOf(ordered);
    var running := 0;
    FlattenNothing();
    assert ItemsOf(ordered[..0]) == [];
    for idx := 0 to |ordered|
      invariant k == idx && !hasMore
      invariant running == if TotalSize(ordered, size, idx) > USIZE_MAX then USIZE_MAX else TotalSize(ordered, size, idx)
      invariant idx > 1 ==> running <= budget
      invariant page == Flatten(ItemsOf(ordered[..idx]))
    {
      var groupSize := size(ordered[idx].items);
      var fits := SaturatingAdd(running, groupSize) <= budget;
      if fits || idx == 0 {
        running := SaturatingAdd(running, groupSize);
        page := page + ordered[idx].items;
        PageGrows(ordered, idx);
        k := idx + 1;
      } else {
        hasMore := true;
        break;
      }
    }
    assert ordered[..|ordered|] == ordered;
    PageSize(changes, ordered, k);
  }

  /** A page of whole groups is short of the batch exactly when a group is left. */
  lemma PageSize(changes: seq<Change>, groups: Groups, k: nat)
    requires Transactions(changes, groups) && k <= |groups| && (groups != [] ==> k >= 1)
    ensures var page := Flatten(ItemsOf(groups[..k]));
            multiset(page) <= multiset(changes) && (page == [] <==> changes == []) && (|page| < |changes| <==> k < |groups|)
  {
    hide Rank, HavingUpTo, Flatten;
    var page, rest := Flatten(ItemsOf(groups[..k])), Flatten(ItemsOf(groups[k..]));
    PageAndRest(changes, groups, k);
    assert |multiset(page) + multiset(rest)| == |page| + |rest|;
    FirstGroupShows(groups[..k]);
    FirstGroupShows(groups[k..]);
    if changes != [] {
      assert HlcKey(changes[0]) in KeysOf(groups);
    }
  }

  lemma FirstGroupShows(groups: Groups)
    requires forall i | 0 <= i < |groups| :: groups[i].items != []
    ensures Flatten(ItemsOf(groups)) == [] <==> groups == []
  {
    if groups != [] {
      assert ItemsOf(groups)[0] == groups[0].items;
    }
  }

  lemma FlattenNothing()
    ensures Flatten<Change>([]) == []
  {
  }

  lemma {:induction false} FlattenConcat<T>(a: seq<seq<T>>, b: seq<seq<T>>)
    ensures Flatten(a + b) == Flatten(a) + Flatten(b)
  {
    if a == [] {
      assert a + b == b;
    } else {
      FlattenConcat(a[1..], b);
      assert (a + b)[1..] == a[1..] + b;
      assert a[0] + (Flatten(a[1..]) + Flatten(b)) == (a[0] + Flatten(a[1..])) + Flatten(b);
    }
  }

  lemma PageGrows(groups: Groups, n: nat)
    requires n < |groups|
    ensures Flatten(ItemsOf(groups[..n + 1])) == Flatten(ItemsOf(groups[..n])) + groups[n].items
  {
    FlattenConcat(ItemsOf(groups[..n]), [groups[n].items]);
    assert ItemsOf(groups[..n + 1]) == ItemsOf(groups[..n]) + [groups[n].items];
    assert [groups[n].items][1..] == [];
  }

  function NewerThan(changes: seq<Change>, cursor: string): seq<Change> {
    if changes == [] then []
    else
      var last := changes[|changes| - 1];
      NewerThan(changes[..|changes| - 1], cursor) + if Newer(last.hlc, cursor) then [last] else []
  }

  lemma {:induction false} NewerThanCounts(changes: seq<Change>, cursor: string, x: Change)
    ensures multiset(NewerThan(changes, cursor))[x] == if Newer(x.hlc, cursor) then multiset(changes)[x] else 0
  {
    hide Rank, Newer;
    if changes != [] {
      NewerThanCounts(changes[..|changes| - 1], cursor, x);
      assert changes == changes[..|changes| - 1] + [changes[|changes| - 1]];
    }
  }

  lemma {:induction false} FlattenMembers(groups: seq<seq<Change>>)
    ensures forall x :: x in Flatten(groups) <==> exists i :: 0 <= i < |groups| && x in groups[i]
  {
    if groups != [] {
      FlattenMembers(groups[1..]);
      forall x
        ensures x in Flatten(groups) <==> exists i :: 0 <= i < |groups| && x in groups[i]
      {
        if x in Flatten(groups[1..]) {
          var i :| 0 <= i < |groups[1..]| && x in groups[1..][i];
          assert x in groups[i + 1];
        }
        if i :| 0 <= i < |groups| && x in groups[i] && x !in groups[0] {
          assert x in groups[1..][i - 1];
        }
      }
    }
  }

  /** Timestamps that compare equal are the same string. */
  predicate Canonical(changes: seq<Change>) {
    forall a, b | a in changes && b in changes && Rank(a.hlc) == Rank(b.hlc) :: a.hlc == b.hlc
  }

  /** Every change of the first `k` groups is at most as new as the cursor, every later one is newer. */
  lemma CursorSplits(changes: seq<Change>, groups: Groups, k: nat, cursor: string)
    requires Transactions(changes, groups) && Canonical(changes) && 0 < k <= |groups| && cursor == groups[k - 1].key
    ensures forall x | x in Flatten(ItemsOf(groups[..k])) :: Rank(x.hlc) <= Rank(cursor)
    ensures forall x | x in Flatten(ItemsOf(groups[k..])) :: Rank(x.hlc) > Rank(cursor)
  {
    hide Rank, HavingUpTo, Flatten;
    forall i, x: Change | 0 <= i < |groups| && x in groups[i].items
      ensures x.hlc == groups[i].key && x in changes
    {
      HavingMembers(changes, HlcKey, groups[i].key, |changes|);
    }
    FlattenMembers(ItemsOf(groups[..k]));
    FlattenMembers(ItemsOf(groups[k..]));
    forall x | x in Flatten(ItemsOf(groups[..k]))
      ensures Rank(x.hlc) <= Rank(cursor)
    {
      var i :| 0 <= i < k && x in ItemsOf(groups[..k])[i];
      assert x in groups[i].items;
    }
    forall x | x in Flatten(ItemsOf(groups[k..]))
      ensures Rank(x.hlc) > Rank(cursor)
    {
      var i :| 0 <= i < |groups| - k && x in ItemsOf(groups[k..])[i];
      assert x in groups[k + i].items;
      assert KeysOf(groups)[k - 1] != KeysOf(groups)[k + i];
      var y := groups[k - 1].items[0];
      assert y in groups[k - 1].items && y.hlc == cursor && y in changes;
      assert x.hlc == groups[k + i].key && x in changes;
    }
  }

  lemma PageAndRest(changes: seq<Change>, groups: Groups, k: nat)
    requires Transactions(changes, groups) && k <= |groups|
    ensures multiset(Flatten(ItemsOf(groups[..k]))) + multiset(Flatten(ItemsOf(groups[k..]))) == multiset(changes)
  {
    hide Rank, HavingUpTo, Flatten;
    PartitionConserves(changes, HlcKey, groups);
    FlattenConcat(ItemsOf(groups[..k]), ItemsOf(groups[k..]));
    assert ItemsOf(groups) == ItemsOf(groups[..k]) + ItemsOf(groups[k..]);
  }

  /** Resuming strictly after the page's newest HLC asks for exactly what the page left out. */
  lemma ResumeAsksForTheRest(changes: seq<Change>, groups: Groups, k: nat, cursor: string)
    requires Transactions(changes, groups) && Canonical(changes) && 0 < k <= |groups| && cursor == groups[k - 1].key
    ensures multiset(NewerThan(changes, cursor)) == multiset(Flatten(ItemsOf(groups[k..])))
  {
    hide Rank, HavingUpTo, Flatten, Transactions, Canonical;
    var page, rest := Flatten(ItemsOf(groups[..k])), Flatten(ItemsOf(groups[k..]));
    PageAndRest(changes, groups, k);
    CursorSplits(changes, groups, k, cursor);
    forall x
      ensures multiset(NewerThan(changes, cursor))[x] == multiset(rest)[x]
    {
      NewerThanCounts(changes, cursor, x);
      assert multiset(changes)[x] == multiset(page)[x] + multiset(rest)[x];
      assert x in page <==> x in multiset(page);
      assert x in rest <==> x in multiset(rest);
    }
  }

  /** The newest HLC on a page, which a client resumes after. */
  method PageCursor(page: seq<Change>) returns (cursor: string)
    requires page != []
    ensures exists c :: c in page && c.hlc == cursor
    ensures forall c | c in page :: Rank(c.hlc) <= Rank(cursor)
  {
    hide Rank;
    cursor := page[0].hlc;
    for i := 0 to |page|
      invariant exists c :: c in page && c.hlc == cursor
      invariant forall c | c in page[..i] :: Rank(c.hlc) <= Rank(cursor)
    {
      assert page[..i + 1] == page[..i] + [page[i]];
      if Newer(page[i].hlc, cursor) {
        cursor := page[i].hlc;
        assert page[i] in page;
      }
    }
    assert page[..|page|] == page;
  }

  /** A drained page: whole transactions of what was left, all newer than everything delivered before. */
  ghost predicate PageOk(budget: nat, size: seq<Change> -> nat, left: seq<Change>, page: seq<Change>, hasMore: bool) {
    exists groups: Groups, k: nat :: Transactions(left, groups) && PageFits(groups, size, budget, k)
                        && page == Flatten(ItemsOf(groups[..k])) && (hasMore <==> k < |groups|)
  }

  predicate AllOlder(a: seq<Change>, b: seq<Change>) {
    forall x, y | x in a && y in b :: Rank(x.hlc) < Rank(y.hlc)
  }

  /** What holds between two page requests: the delivered pages and what is left. */
  ghost predicate Delivered(
      changes: seq<Change>, budget: nat, size: seq<Change> -> nat, pages: seq<seq<Change>>, lefts: seq<seq<Change>>,
      rest: seq<Change>, more: bool)
  {
    && multiset(Flatten(pages)) + multiset(rest) == multiset(changes)
    && |lefts| == |pages|
    && (forall i | 0 <= i < |pages| ::
          pages[i] != [] && PageOk(budget, size, lefts[i], pages[i], i + 1 < |pages| || more) && AllOlder(pages[i], rest))
    && (forall i, j | 0 <= i < j < |pages| :: AllOlder(pages[i], pages[j]))
  }

  lemma DeliverOne(
      changes: seq<Change>, budget: nat, size: seq<Change> -> nat, pages: seq<seq<Change>>, lefts: seq<seq<Change>>,
      rest: seq<Change>, page: seq<Change>, next: seq<Change>, more: bool)
    requires Delivered(changes, budget, size, pages, lefts, rest, true)
    requires page != [] && PageOk(budget, size, rest, page, more) && AllOlder(page, next)
    requires multiset(page) + multiset(next) == multiset(rest)
    requires (forall x | x in page :: x in rest) && (forall x | x in next :: x in rest)
    ensures Delivered(changes, budget, size, pages + [page], lefts + [rest], next, more)
  {
    hide Flatten, AllOlder, PageOk;
    FlattenOneMore(pages, page);
    forall i | 0 <= i < |pages|
      ensures AllOlder(pages[i], page) && AllOlder(pages[i], next)
    {
      OlderSubset(pages[i], rest, page, next);
    }
  }

  /**
   * Take a page, resume after its newest HLC, until there is no more. It
   * terminates with every change delivered exactly once and oldest first; the
   * last page, and only it, says that nothing is left.
   */
  method Drain(changes: seq<Change>, budget: nat, size: seq<Change> -> nat)
    returns (pages: seq<seq<Change>>, ghost lefts: seq<seq<Change>>)
    requires Canonical(changes)
    ensures multiset(Flatten(pages)) == multiset(changes)
    ensures |lefts| == |pages| && forall i | 0 <= i < |pages| ::
              pages[i] != [] && PageOk(budget, size, lefts[i], pages[i], i + 1 < |pages|)
    ensures forall i, j | 0 <= i < j < |pages| :: AllOlder(pages[i], pages[j])
  {
    hide Rank, Flatten, Canonical, Transactions, PageFits, AllOlder, PageOk;
    pages, lefts := [], [];
    FlattenNothing();
    var rest := changes;
    var more := changes != [];
    while more
      invariant Canonical(rest) && (more <==> rest != [])
      invariant Delivered(changes, budget, size, pages, lefts, rest, more)
      decreases |rest|
    {
      hide Delivered;
      var page;
      ghost var groups, k;
      page, more, groups, k := PaginateChanges(rest, budget, size);
      var cursor := NextCursor(rest, budget, size, page, groups, k);
      var next := NewerThan(rest, cursor);
      DrainStep(rest, groups, k, page, next, cursor, more);
      PageIsOk(budget, size, rest, page, more, groups, k);
      DeliverOne(changes, budget, size, pages, lefts, rest, page, next, more);
      pages, lefts := pages + [page], lefts + [rest];
      rest := next;
    }
  }

  lemma PageIsOk(
      budget: nat, size: seq<Change> -> nat, left: seq<Change>, page: seq<Change>, hasMore: bool, groups: Groups, k: nat)
    requires Transactions(left, groups) && PageFits(groups, size, budget, k)
    requires page == Flatten(ItemsOf(groups[..k])) && (hasMore <==> k < |groups|)
    ensures PageOk(budget, size, left, page, hasMore)
  {
  }

  method NextCursor(
      rest: seq<Change>, budget: nat, size: seq<Change> -> nat, page: seq<Change>, ghost groups: Groups, ghost k: nat)
    returns (cursor: string)
    requires rest != [] && Transactions(rest, groups) && PageFits(groups, size, budget, k) && Canonical(rest)
    requires page == Flatten(ItemsOf(groups[..k]))
    ensures 0 < k <= |groups| && page != [] && cursor == groups[k - 1].key
  {
    hide Rank, Flatten, HavingUpTo, Canonical;
    assert HlcKey(rest[0]) in KeysOf(groups);
    PageNewest(rest, groups, k, page);
    cursor := PageCursor(page);
    CursorIsLastKey(rest, groups, k, page, cursor);
  }

  lemma PageNewest(rest: seq<Change>, groups: Groups, k: nat, page: seq<Change>)
    requires Transactions(rest, groups) && 0 < k <= |groups| && page == Flatten(ItemsOf(groups[..k]))
    ensures groups[k - 1].items[0] in page && groups[k - 1].items[0].hlc == groups[k - 1].key
  {
    hide Rank, Flatten, HavingUpTo;
    FlattenMembers(ItemsOf(groups[..k]));
    assert ItemsOf(groups[..k])[k - 1] == groups[k - 1].items;
    assert groups[k - 1].items[0] in ItemsOf(groups[..k])[k - 1];
    HavingMembers(rest, HlcKey, groups[k - 1].key, |rest|);
  }

  lemma CursorIsLastKey(rest: seq<Change>, groups: Groups, k: nat, page: seq<Change>, cursor: string)
    requires Transactions(rest, groups) && Canonical(rest) && 0 < k <= |groups| && page == Flatten(ItemsOf(groups[..k]))
    requires groups[k - 1].items[0] in page && groups[k - 1].items[0].hlc == groups[k - 1].key
    requires (exists c :: c in page && c.hlc == cursor) && forall c | c in page :: Rank(c.hlc) <= Rank(cursor)
    ensures cursor == groups[k - 1].key
  {
    hide Rank, Flatten, HavingUpTo;
    CursorSplits(rest, groups, k, groups[k - 1].key);
    PageAndRest(rest, groups, k);
    var c :| c in page && c.hlc == cursor;
    assert c in multiset(rest) && groups[k - 1].items[0] in multiset(rest);
    assert c in rest && groups[k - 1].items[0] in rest;
  }

  lemma DrainStep(
      rest: seq<Change>, groups: Groups, k: nat, page: seq<Change>, next: seq<Change>, cursor: string, more: bool)
    requires Transactions(rest, groups) && Canonical(rest) && 0 < k <= |groups| && cursor == groups[k - 1].key
    requires page == Flatten(ItemsOf(groups[..k])) && page != [] && next == NewerThan(rest, cursor)
    requires more <==> k < |groups|
    ensures multiset(page) + multiset(next) == multiset(rest) && |next| < |rest|
    ensures (forall x | x in page :: x in rest) && (forall x | x in next :: x in rest)
    ensures Canonical(next) && AllOlder(page, next) && (more <==> next != [])
  {
    hide Rank, Flatten, HavingUpTo;
    var later := Flatten(ItemsOf(groups[k..]));
    PageAndRest(rest, groups, k);
    ResumeAsksForTheRest(rest, groups, k, cursor);
    CursorSplits(rest, groups, k, cursor);
    SplitMembers(page, next, rest);
    SameMembers(next, later);
    LaterIsEmpty(groups, k);
    assert next != [] ==> next[0] in later;
    assert later != [] ==> later[0] in next;
  }

  lemma LaterIsEmpty(groups: Groups, k: nat)
    requires k <= |groups| && forall i | 0 <= i < |groups| :: groups[i].items != []
    ensures Flatten(ItemsOf(groups[k..])) == [] <==> k == |groups|
  {
    if k < |groups| {
      assert ItemsOf(groups[k..])[0] == groups[k].items;
    } else {
      assert ItemsOf(groups[k..]) == [];
    }
  }

  lemma SameMembers(a: seq<Change>, b: seq<Change>)
    requires multiset(a) == multiset(b)
    ensures forall x :: x in a <==> x in b
  {
    assert forall x :: x in a <==> x in multiset(a);
    assert forall x :: x in b <==> x in multiset(b);
  }

  lemma SplitMembers(a: seq<Change>, b: seq<Change>, all: seq<Change>)
    requires multiset(a) + multiset(b) == multiset(all)
    ensures |a| + |b| == |all|
    ensures forall x :: x in all <==> x in a || x in b
  {
    assert |multiset(a) + multiset(b)| == |multiset(all)|;
    assert multiset(a + b) == multiset(all);
    SameMembers(a + b, all);
  }

  lemma OlderSubset(a: seq<Change>, rest: seq<Change>, page: seq<Change>, next: seq<Change>)
    requires AllOlder(a, rest) && (forall x | x in page :: x in rest) && (forall x | x in next :: x in rest)
    ensures AllOlder(a, page) && AllOlder(a, next)
  {
    hide Rank;
  }

  lemma FlattenOneMore(pages: seq<seq<Change>>, page: seq<Change>)
    ensures Flatten(pages + [page]) == Flatten(pages) + page
  {
    FlattenConcat(pages, [page]);
    assert [page][1..] == [];
  }
}

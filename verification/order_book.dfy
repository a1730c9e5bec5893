/** The order book engine of src/App.jsx: wholesale replacement by a snapshot
    (`setBookSnapshoot`), the single-row update (`handleUpdate`), the reset to
    the initial book, and the readiness test. */
module OrderBook {
  import opened Levels

  datatype Book = Book(bids: seq<Level>, asks: seq<Level>)

  /** `initialBookSnapshot`: the book before any snapshot and after every
      disconnect. */
  const Empty: Book := Book([], [])

  /** `bookSnapshotIsReady`: both sides hold at least one row. */
  predicate Ready(b: Book) {
    |b.bids| > 0 && |b.asks| > 0
  }

  /** The arrangement snapshots produce and updates keep: bids ascending by
      price, asks descending. */
  predicate Ordered(b: Book) {
    SortedAsc(b.bids) && SortedDesc(b.asks)
  }

  /** What a snapshot of `items` must look like, stated without sorting: the
      sides are ordered, the bids at each price are that price's bid rows in
      feed order, and the asks at each price are that price's ask rows in
      reverse feed order. */
  ghost predicate IsSnapshotOf(b: Book, items: seq<Level>) {
    && Ordered(b)
    && (forall p :: Select(b.bids, AtPrice(p)) == Select(Select(items, AtPrice(p)), Bid))
    && (forall p :: Select(b.asks, AtPrice(p)) == Reverse(Select(Select(items, AtPrice(p)), Ask)))
  }

  lemma SortKeeps(s: seq<Level>)
    ensures forall x :: x in Sort(s) <==> x in s
  {
    forall x ensures x in Sort(s) <==> x in s {
      SortMember(s, x);
    }
  }

  lemma SelectKeepsMatching(s: seq<Level>, c: Criterion)
    ensures forall x :: x in Select(s, c) ==> Matches(c, x)
  {
    forall x | x in Select(s, c) ensures Matches(c, x) {
      SelectMember(s, c, x);
    }
  }

  lemma SnapshotBids(items: seq<Level>)
    ensures var bids := Sort(Select(items, Bid));
      && (forall x :: x in bids ==> IsBid(x))
      && SortedAsc(bids)
      && (forall p :: Select(bids, AtPrice(p)) == Select(Select(items, AtPrice(p)), Bid))
  {
    var bidRows := Select(items, Bid);
    SelectCommutes(items);
    SelectKeepsMatching(items, Bid);
    SortKeeps(bidRows);
  }

  lemma SnapshotAsks(items: seq<Level>)
    ensures var asks := Reverse(Sort(Select(items, Ask)));
      && (forall x :: x in asks ==> !IsBid(x))
      && SortedDesc(asks)
      && (forall p :: Select(asks, AtPrice(p)) == Reverse(Select(Select(items, AtPrice(p)), Ask)))
  {
    var askRows := Select(items, Ask);
    var sorted := Sort(askRows);
    SelectCommutes(items);
    SelectKeepsMatching(items, Ask);
    SortKeeps(askRows);
    SelectReverses(sorted);
    ReverseSorted(sorted);
    forall x | x in Reverse(sorted) ensures !IsBid(x) {
      ReverseMember(sorted, x);
    }
  }

  lemma ReverseMember(s: seq<Level>, x: Level)
    ensures x in Reverse(s) <==> x in s
  {
    assert x in Reverse(s) <==> x in multiset(Reverse(s));
  }

  lemma ReverseIgnoresCount(a: seq<Level>, b: seq<Level>)
    requires SameShape(a, b)
    ensures SameShape(Reverse(a), Reverse(b))
  {
  }

  /** `setBookSnapshoot`: bids are the rows with a positive amount, sorted
      with `asc`; asks are all other rows, sorted with `asc` and reversed. The
      previous book plays no part. */
  function Snapshot(items: seq<Level>): (b: Book)
    ensures forall x :: x in b.bids ==> IsBid(x)
    ensures forall x :: x in b.asks ==> !IsBid(x)
    ensures multiset(b.bids) + multiset(b.asks) == multiset(items)
    ensures IsSnapshotOf(b, items)
    ensures items == [] ==> b == Empty
  {
    SplitMultiset(items);
    SnapshotBids(items);
    SnapshotAsks(items);
    Book(Sort(Select(items, Bid)), Reverse(Sort(Select(items, Ask))))
  }

  /** The snapshot contract leaves no freedom: any book meeting it is the
      snapshot. */
  lemma SnapshotUnique(items: seq<Level>, b: Book)
    requires IsSnapshotOf(b, items)
    ensures b == Snapshot(items)
  {
    var bidRows, askRows := Select(items, Bid), Select(items, Ask);
    SelectCommutes(items);
    SortCharacterized(bidRows, b.bids);
    var ra := Reverse(b.asks);
    ReverseSorted(b.asks);
    SelectReverses(b.asks);
    forall p ensures Select(ra, AtPrice(p)) == Select(askRows, AtPrice(p)) {
      ReverseInvolutive(Select(Select(items, AtPrice(p)), Ask));
    }
    SortCharacterized(askRows, ra);
    ReverseInvolutive(b.asks);
  }

  /** Some row is picked exactly when some row matches. */
  lemma SelectNonEmpty(s: seq<Level>, c: Criterion)
    ensures Select(s, c) != [] <==> exists i :: 0 <= i < |s| && Matches(c, s[i])
  {
    if exists i :: 0 <= i < |s| && Matches(c, s[i]) {
      var i :| 0 <= i < |s| && Matches(c, s[i]);
      SelectMember(s, c, s[i]);
    }
    if Select(s, c) != [] {
      var x := Select(s, c)[0];
      SelectMember(s, c, x);
      var i :| 0 <= i < |s| && s[i] == x;
    }
  }

  /** A snapshot makes the book ready exactly when it holds a bid and an ask. */
  lemma SnapshotReady(items: seq<Level>)
    ensures Ready(Snapshot(items)) <==>
      (exists i :: 0 <= i < |items| && IsBid(items[i])) && (exists j :: 0 <= j < |items| && !IsBid(items[j]))
  {
    var b := Snapshot(items);
    assert |b.bids| == |Select(items, Bid)|;
    assert |b.asks| == |Select(items, Ask)|;
    SelectNonEmpty(items, Bid);
    SelectNonEmpty(items, Ask);
  }

  lemma SelectDropLastAll(t: seq<Level>)
    requires |t| > 0
    ensures forall p :: Select(t, AtPrice(p)) != [] || p != Last(t).price
    ensures forall p :: Select(DropLast(t), AtPrice(p)) == (if p == Last(t).price then DropLast(Select(t, AtPrice(p))) else Select(t, AtPrice(p)))
  {
    forall p
      ensures Select(t, AtPrice(p)) != [] || p != Last(t).price
      ensures Select(DropLast(t), AtPrice(p))
           == if p == Last(t).price then DropLast(Select(t, AtPrice(p))) else Select(t, AtPrice(p))
    {
      SelectDropLast(t, p);
    }
  }

  lemma SelectDropFirstAll(t: seq<Level>)
    requires |t| > 0
    ensures forall p :: Select(t, AtPrice(p)) != [] || p != t[0].price
    ensures forall p :: Select(t[1..], AtPrice(p)) == (if p == t[0].price then Select(t, AtPrice(p))[1..] else Select(t, AtPrice(p)))
  {
    forall p
      ensures Select(t, AtPrice(p)) != [] || p != t[0].price
      ensures Select(t[1..], AtPrice(p))
           == if p == t[0].price then Select(t, AtPrice(p))[1..] else Select(t, AtPrice(p))
    {
      SelectDropFirst(t, p);
    }
  }

  /** The rows of `d` at price `p` in their order in `d`, less the last of
      them when `p` is the highest price of `d`. */
  function BidsKeptAt(d: seq<Level>, p: real): seq<Level>
    requires |d| > 0
  {
    var a := Select(d, AtPrice(p));
    if p == MaxPrice(d) then DropLast(a) else a
  }

  /** The rows of `d` at price `p` in the reverse of their order in `d`, less
      the first of them when `p` is the lowest price of `d`. */
  function AsksKeptAt(d: seq<Level>, p: real): seq<Level>
    requires |d| > 0
  {
    var a := Select(d, AtPrice(p));
    Reverse(if p == MinPrice(d) then a[1..] else a)
  }

  /** The bid branch of `handleUpdate`: append the update, sort with `asc`,
      pop the last row. The side keeps its length and comes out ascending;
      at every price the rows are the old rows followed by the update, except
      that at the highest price the last of them is gone. */
  function UpdateBids(side: seq<Level>, u: Level): (r: seq<Level>)
    ensures |r| == |side|
    ensures SortedAsc(r)
    ensures forall p :: Select(r, AtPrice(p)) == BidsKeptAt(side + [u], p)
  {
    var d := side + [u];
    var sorted := Sort(d);
    LastOfSortPrice(d);
    SelectDropLastAll(sorted);
    DropLast(sorted)
  }

  /** Popping a reversed sequence drops its first row. */
  lemma DropLastOfReverse<T>(s: seq<T>)
    requires |s| > 0
    ensures DropLast(Reverse(s)) == Reverse(s[1..])
  {
    var rest := s[1..];
    assert Reverse(s) == Reverse(rest) + [s[0]];
    assert (Reverse(rest) + [s[0]])[..|rest|] == Reverse(rest);
  }

  lemma UpdateAsksShape(side: seq<Level>, u: Level)
    ensures var d := side + [u];
            var r := DropLast(Reverse(Sort(d)));
      && SortedDesc(r)
      && (forall p :: Select(r, AtPrice(p)) == AsksKeptAt(d, p))
  {
    var d := side + [u];
    var sorted := Sort(d);
    FirstOfSortPrice(d);
    SelectDropFirstAll(sorted);
    DropLastOfReverse(sorted);
    SelectReverses(sorted[1..]);
    ReverseSorted(sorted[1..]);
  }

  /** The ask branch of `handleUpdate`: append the update, sort with `asc`,
      reverse, pop the last row. The side keeps its length and comes out
      descending; at every price the rows are the old rows followed by the
      update, in reverse, except that at the lowest price the first of them
      (in stored order, the update last) is gone. */
  function UpdateAsks(side: seq<Level>, u: Level): (r: seq<Level>)
    ensures |r| == |side|
    ensures SortedDesc(r)
    ensures forall p :: Select(r, AtPrice(p)) == AsksKeptAt(side + [u], p)
  {
    UpdateAsksShape(side, u);
    DropLast(Reverse(Sort(side + [u])))
  }

  /** `handleUpdate`: the sign of the amount picks the side; `count` is never
      consulted, so nothing is ever deleted and no side changes length. */
  function ApplyUpdate(b: Book, u: Level): (r: Book)
    ensures IsBid(u) ==> r.asks == b.asks
    ensures !IsBid(u) ==> r.bids == b.bids
    ensures |r.bids| == |b.bids| && |r.asks| == |b.asks|
    ensures Ready(r) <==> Ready(b)
    ensures Ordered(b) ==> Ordered(r)
  {
    if IsBid(u) then b.(bids := UpdateBids(b.bids, u))
    else b.(asks := UpdateAsks(b.asks, u))
  }

  /** The row `handleUpdate` pops from the bids is the last of the
      highest-priced rows of the stored bids followed by the update; nothing
      else is lost. */
  lemma UpdateBidsDrops(side: seq<Level>, u: Level)
    ensures multiset(UpdateBids(side, u)) + multiset{Last(Select(side + [u], AtPrice(MaxPrice(side + [u]))))}
      == multiset(side) + multiset{u}
  {
    var d := side + [u];
    var sorted := Sort(d);
    LastOfSort(d);
    assert sorted == DropLast(sorted) + [Last(sorted)];
  }

  /** The row popped from the asks is the first of the lowest-priced rows of
      the stored asks followed by the update; nothing else is lost. Right
      after a snapshot, equal-price asks are in reverse feed order, and each
      ask update reverses the asks at every price, so which arrival is popped
      depends on how many ask updates came before. */
  lemma UpdateAsksDrops(side: seq<Level>, u: Level)
    ensures multiset(UpdateAsks(side, u)) + multiset{Select(side + [u], AtPrice(MinPrice(side + [u])))[0]}
      == multiset(side) + multiset{u}
  {
    var d := side + [u];
    var sorted := Sort(d);
    FirstOfSort(d);
    ReverseDropsFirst(sorted);
    assert UpdateAsks(side, u) == DropLast(Reverse(sorted));
  }

  /** Reversing and popping loses exactly the first row. */
  lemma ReverseDropsFirst<T>(s: seq<T>)
    requires |s| > 0
    ensures multiset(DropLast(Reverse(s))) + multiset{s[0]} == multiset(s)
  {
    var rest := s[1..];
    DropLastOfReverse(s);
    HeadMultiset(s);
    assert multiset(Reverse(rest)) == multiset(rest);
  }

  lemma HeadMultiset<T>(s: seq<T>)
    requires |s| > 0
    ensures multiset(s) == multiset{s[0]} + multiset(s[1..])
  {
    assert s == [s[0]] + s[1..];
  }

  /** A bid priced at or above every bid is itself the row popped (the sort is
      stable and the update arrives last): an ascending bid side is left as it
      was. */
  lemma UpdateBidsAtTop(side: seq<Level>, u: Level)
    requires SortedAsc(side)
    requires forall x :: x in side ==> x.price <= u.price
    ensures UpdateBids(side, u) == side
  {
    var d := side + [u];
    assert DropLast(d) == side;
    SortSorted(side);
    assert Sort(d) == Insert(side, u);
    if side != [] {
      assert Last(side) in side;
    }
    assert Insert(side, u) == side + [u];
  }

  /** A bid priced below some bid survives the pop. */
  lemma UpdateBidsKeepsLower(side: seq<Level>, u: Level)
    requires exists x :: x in side && u.price < x.price
    ensures u in UpdateBids(side, u)
  {
    var d := side + [u];
    var x :| x in side && u.price < x.price;
    assert x in d;
    var r := UpdateBids(side, u);
    assert Select(r, AtPrice(u.price)) == Select(d, AtPrice(u.price));
    SelectSnoc(side, u, AtPrice(u.price));
    SelectMember(r, AtPrice(u.price), u);
  }

  lemma {:induction false} InsertBelowAll(t: seq<Level>, x: Level)
    requires SortedAsc(t)
    requires forall y :: y in t ==> x.price < y.price
    ensures Insert(t, x) == [x] + t
    decreases |t|
  {
    if t != [] {
      assert Last(t) in t;
      var init := DropLast(t);
      assert forall y :: y in init ==> y in t;
      InsertBelowAll(init, x);
      assert t == init + [Last(t)];
    }
  }

  /** An ask priced below every ask is itself the row popped: the asks keep
      exactly their rows, re-arranged as a snapshot arranges asks. */
  lemma UpdateAsksBelowAll(side: seq<Level>, u: Level)
    requires forall x :: x in side ==> u.price < x.price
    ensures UpdateAsks(side, u) == Reverse(Sort(side))
    ensures multiset(UpdateAsks(side, u)) == multiset(side)
  {
    var d := side + [u];
    assert DropLast(d) == side;
    SortKeeps(side);
    InsertBelowAll(Sort(side), u);
    assert Sort(d) == [u] + Sort(side);
    DropLastOfReverse(Sort(d));
    assert Sort(d)[1..] == Sort(side);
  }

  lemma UpdateKeptAmongAsks(side: seq<Level>, u: Level)
    requires exists x :: x in side && x.price <= u.price
    ensures u in AsksKeptAt(side + [u], u.price)
  {
    var d := side + [u];
    var x :| x in side && x.price <= u.price;
    assert x in d;
    var q := u.price;
    SelectSnoc(side, u, AtPrice(q));
    var a := Select(d, AtPrice(q));
    assert a == Select(side, AtPrice(q)) + [u];
    var kept := if q == MinPrice(d) then a[1..] else a;
    if q == MinPrice(d) {
      SelectMember(side, AtPrice(q), x);
      assert |a| >= 2;
      assert kept[|kept| - 1] == a[|a| - 1] == u;
    } else {
      assert kept[|kept| - 1] == u;
    }
    ReverseMember(kept, u);
  }

  lemma SnapshotOfTwoAsks(a1: Level, a2: Level)
    requires a1.price == a2.price
    requires !IsBid(a1) && !IsBid(a2)
    ensures Snapshot([a1, a2]).asks == [a2, a1]
  {
    var rows := [a1, a2];
    assert DropLast(rows) == [a1] && Last(rows) == a2;
    assert DropLast([a1]) == [] && Last([a1]) == a1;
    assert Select(rows, Ask) == rows;
    assert SortedAsc(rows);
    SortSorted(rows);
    assert Reverse([a2]) == [a2];
    assert Reverse(rows) == Reverse([a2]) + [a1];
  }

  /** On an ask side that is ascending with the update appended, the pop
      removes the first row and reverses the rest. */
  lemma UpdateAsksOfAscending(side: seq<Level>, u: Level)
    requires SortedAsc(side + [u])
    ensures UpdateAsks(side, u) == Reverse((side + [u])[1..])
  {
    SortSorted(side + [u]);
    DropLastOfReverse(side + [u]);
  }

  lemma ThreeAscending(a2: Level, a1: Level, u: Level)
    requires a1.price == a2.price < u.price
    ensures SortedAsc([a2, a1] + [u])
  {
    assert [a2, a1] + [u] == [a2, a1, u];
  }

  lemma ReverseTailOfThree(a2: Level, a1: Level, u: Level)
    ensures Reverse(([a2, a1] + [u])[1..]) == [u, a1]
  {
    assert ([a2, a1] + [u])[1..] == [a1, u];
    var r := Reverse([a1, u]);
    assert |r| == 2 && r[0] == u && r[1] == a1;
    assert r == [u, a1];
  }

  lemma UpdateTwoAsks(a1: Level, a2: Level, u: Level)
    requires a1.price == a2.price < u.price
    ensures UpdateAsks([a2, a1], u) == [u, a1]
  {
    ThreeAscending(a2, a1, u);
    UpdateAsksOfAscending([a2, a1], u);
    ReverseTailOfThree(a2, a1, u);
  }

  /** Right after a snapshot, equal-price asks are in reverse feed order, so
      the first ask update can take the later arrival: asks `a1` then `a2` at
      one price are stored as `[a2, a1]`, and an ask above them both pops
      `a2`. */
  lemma AsksPopLaterArrival(a1: Level, a2: Level, u: Level)
    requires a1.price == a2.price < u.price
    requires !IsBid(a1) && !IsBid(a2)
    ensures Snapshot([a1, a2]).asks == [a2, a1]
    ensures UpdateAsks(Snapshot([a1, a2]).asks, u) == [u, a1]
  {
    SnapshotOfTwoAsks(a1, a2);
    UpdateTwoAsks(a1, a2, u);
  }

  lemma ReverseOfTwo(x: Level, y: Level)
    ensures Reverse([x, y]) == [y, x]
  {
    var r := Reverse([x, y]);
    assert |r| == 2 && r[0] == y && r[1] == x;
  }

  lemma PairAbove(a2: Level, a1: Level, u: Level)
    requires u.price < a1.price == a2.price
    ensures forall x :: x in [a2, a1] ==> u.price < x.price
  {
  }

  lemma ReverseSortOfPair(a2: Level, a1: Level)
    requires a1.price == a2.price
    ensures Reverse(Sort([a2, a1])) == [a1, a2]
  {
    assert SortedAsc([a2, a1]);
    SortSorted([a2, a1]);
    ReverseOfTwo(a2, a1);
  }

  /** An ask below two equal-price asks stored as `[a2, a1]` is popped, and
      the pair comes back as `[a1, a2]`: the update reversed them. */
  lemma UpdateTwoAsksBelow(a1: Level, a2: Level, u: Level)
    requires u.price < a1.price == a2.price
    ensures UpdateAsks([a2, a1], u) == [a1, a2]
  {
    PairAbove(a2, a1, u);
    UpdateAsksBelowAll([a2, a1], u);
    ReverseSortOfPair(a2, a1);
  }

  /** Which equal-price ask is popped depends on how many ask updates came
      before: asks `a1` then `a2` at one price are stored as `[a2, a1]`; an
      ask `u` below them is popped and turns them into `[a1, a2]`; an ask `v`
      above them then pops `a1`, the earlier arrival. */
  lemma AsksPopEarlierAfterFlip(a1: Level, a2: Level, u: Level, v: Level)
    requires u.price < a1.price == a2.price < v.price
    requires !IsBid(a1) && !IsBid(a2)
    ensures Snapshot([a1, a2]).asks == [a2, a1]
    ensures UpdateAsks(Snapshot([a1, a2]).asks, u) == [a1, a2]
    ensures UpdateAsks(UpdateAsks(Snapshot([a1, a2]).asks, u), v) == [v, a2]
  {
    SnapshotOfTwoAsks(a1, a2);
    UpdateTwoAsksBelow(a1, a2, u);
    UpdateTwoAsks(a2, a1, v);
  }

  /** An ask priced at or above some ask survives the pop: when the lowest
      price is shared, a stored row ahead of it is popped instead. */
  lemma UpdateAsksKeepsHigher(side: seq<Level>, u: Level)
    requires exists x :: x in side && x.price <= u.price
    ensures u in UpdateAsks(side, u)
  {
    var r := UpdateAsks(side, u);
    UpdateKeptAmongAsks(side, u);
    assert Select(r, AtPrice(u.price)) == AsksKeptAt(side + [u], u.price);
    SelectMember(r, AtPrice(u.price), u);
  }

  lemma UpdateBidsIgnoresCount(side: seq<Level>, u: Level, v: Level)
    requires u.price == v.price && u.amount == v.amount
    ensures SameShape(UpdateBids(side, u), UpdateBids(side, v))
  {
    SortIgnoresCount(side + [u], side + [v]);
  }

  lemma UpdateAsksIgnoresCount(side: seq<Level>, u: Level, v: Level)
    requires u.price == v.price && u.amount == v.amount
    ensures SameShape(UpdateAsks(side, u), UpdateAsks(side, v))
  {
    var s1, s2 := Sort(side + [u]), Sort(side + [v]);
    SortIgnoresCount(side + [u], side + [v]);
    ReverseIgnoresCount(s1, s2);
    SameShapeDropLast(Reverse(s1), Reverse(s2));
    assert UpdateAsks(side, u) == DropLast(Reverse(s1));
    assert UpdateAsks(side, v) == DropLast(Reverse(s2));
  }

  lemma SameShapeDropLast(a: seq<Level>, b: seq<Level>)
    requires |a| > 0 && SameShape(a, b)
    ensures SameShape(DropLast(a), DropLast(b))
  {
  }

  /** `count` is never read: two updates that differ only in `count` (a zero
      count included) touch the same side and leave the same prices and
      amounts in the same places. */
  lemma UpdateIgnoresCount(b: Book, u: Level, c: Json.Json)
    ensures var r1, r2 := ApplyUpdate(b, u), ApplyUpdate(b, u.(count := c));
            SameShape(r1.bids, r2.bids) && SameShape(r1.asks, r2.asks)
  {
    var v := u.(count := c);
    UpdateBidsIgnoresCount(b.bids, u, v);
    UpdateAsksIgnoresCount(b.asks, u, v);
  }
}

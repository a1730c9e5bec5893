/** Price levels of the Bitfinex "book" channel and the orderings the book
    engine puts them in.

    The comparator `asc` used by the engine lives in a file that is not part of
    this model; it is taken to be ascending numeric order on prices. Together
    with the stability of `Array.prototype.sort`, sorting with it is the stable
    ascending sort by price defined here as `Sort`. */
module Levels {
  import Json

  /** One `[price, count, amount]` row. `count` keeps the raw parsed value
      because nothing in the engine reads it. */
  datatype Level = Level(price: real, count: Json.Json, amount: real)

  /** The side a row belongs to: a positive amount is a bid, anything else
      (zero included) is an ask. */
  predicate IsBid(x: Level) {
    x.amount > 0.0
  }

  /** Criteria for picking rows out of a sequence, order kept. */
  datatype Criterion = AtPrice(p: real) | Bid | Ask

  predicate Matches(c: Criterion, x: Level) {
    match c
    case AtPrice(p) => x.price == p
    case Bid => IsBid(x)
    case Ask => !IsBid(x)
  }

  function Last<T>(s: seq<T>): T
    requires |s| > 0
  {
    s[|s| - 1]
  }

  function DropLast<T>(s: seq<T>): seq<T>
    requires |s| > 0
  {
    s[..|s| - 1]
  }

  predicate SortedAsc(s: seq<Level>) {
    forall i, j :: 0 <= i < j < |s| ==> s[i].price <= s[j].price
  }

  predicate SortedDesc(s: seq<Level>) {
    forall i, j :: 0 <= i < j < |s| ==> s[i].price >= s[j].price
  }

  /** The rows of `s` that match `c`, in their order in `s`. */
  function Select(s: seq<Level>, c: Criterion): (r: seq<Level>)
    ensures |r| <= |s|
  {
    if s == [] then []
    else Select(DropLast(s), c) + (if Matches(c, Last(s)) then [Last(s)] else [])
  }

  /** A row is selected exactly when it occurs and matches. */
  lemma {:induction false} SelectMember(s: seq<Level>, c: Criterion, x: Level)
    ensures x in Select(s, c) <==> x in s && Matches(c, x)
    decreases |s|
  {
    if s != [] {
      assert s == DropLast(s) + [Last(s)];
      SelectMember(DropLast(s), c, x);
    }
  }

  lemma SelectSnoc(s: seq<Level>, x: Level, c: Criterion)
    ensures Select(s + [x], c) == Select(s, c) + (if Matches(c, x) then [x] else [])
  {
    assert DropLast(s + [x]) == s;
  }

  /** Selecting distributes over concatenation. */
  lemma {:induction false} SelectAppend(a: seq<Level>, b: seq<Level>, c: Criterion)
    ensures Select(a + b, c) == Select(a, c) + Select(b, c)
    decreases |b|
  {
    if b == [] {
      assert a + b == a;
    } else {
      var init, x := DropLast(b), Last(b);
      assert b == init + [x];
      assert a + b == (a + init) + [x];
      SelectAppend(a, init, c);
      SelectSnoc(a + init, x, c);
      SelectSnoc(init, x, c);
    }
  }

  lemma {:induction false} SelectCommute(s: seq<Level>, c1: Criterion, c2: Criterion)
    ensures Select(Select(s, c1), c2) == Select(Select(s, c2), c1)
    decreases |s|
  {
    if s != [] {
      var init, x := DropLast(s), Last(s);
      SelectCommute(init, c1, c2);
      var a1, a2 := Select(init, c1), Select(init, c2);
      if Matches(c1, x) {
        assert Select(s, c1) == a1 + [x];
        SelectSnoc(a1, x, c2);
      } else {
        assert Select(s, c1) == a1;
      }
      if Matches(c2, x) {
        assert Select(s, c2) == a2 + [x];
        SelectSnoc(a2, x, c1);
      } else {
        assert Select(s, c2) == a2;
      }
    }
  }

  /** Picking by two criteria does not depend on the order they are applied in. */
  lemma SelectCommutes(s: seq<Level>)
    ensures forall c1, c2 :: Select(Select(s, c1), c2) == Select(Select(s, c2), c1)
  {
    forall c1, c2 ensures Select(Select(s, c1), c2) == Select(Select(s, c2), c1) {
      SelectCommute(s, c1, c2);
    }
  }

  /** Splitting rows into bids and asks loses and invents nothing. */
  lemma {:induction false} SplitMultiset(s: seq<Level>)
    ensures multiset(Select(s, Bid)) + multiset(Select(s, Ask)) == multiset(s)
    decreases |s|
  {
    if s != [] {
      assert s == DropLast(s) + [Last(s)];
      SplitMultiset(DropLast(s));
    }
  }

  function Reverse<T>(s: seq<T>): (r: seq<T>)
    ensures |r| == |s|
    ensures forall i :: 0 <= i < |s| ==> r[i] == s[|s| - 1 - i]
    ensures multiset(r) == multiset(s)
  {
    if s == [] then []
    else
      assert s == [s[0]] + s[1..];
      Reverse(s[1..]) + [s[0]]
  }

  lemma ReverseAppend<T>(a: seq<T>, b: seq<T>)
    ensures Reverse(a + b) == Reverse(b) + Reverse(a)
  {
    var l, r := Reverse(a + b), Reverse(b) + Reverse(a);
    forall i | 0 <= i < |l|
      ensures l[i] == r[i]
    {
      if i < |b| {
        assert l[i] == (a + b)[|a| + |b| - 1 - i];
      }
    }
  }

  lemma ReverseCons<T>(s: seq<T>)
    requires |s| > 0
    ensures Reverse(s) == Reverse(s[1..]) + [s[0]]
  {
  }

  lemma ReverseShort<T>(s: seq<T>)
    requires |s| <= 1
    ensures Reverse(s) == s
  {
  }

  lemma ReverseInvolutive<T>(s: seq<T>)
    ensures Reverse(Reverse(s)) == s
  {
  }

  lemma ReverseSorted(s: seq<Level>)
    ensures SortedAsc(s) <==> SortedDesc(Reverse(s))
    ensures SortedDesc(s) <==> SortedAsc(Reverse(s))
  {
    var r := Reverse(s);
    if SortedDesc(r) {
      forall i, j | 0 <= i < j < |s| ensures s[i].price <= s[j].price {
        assert s[i] == r[|s| - 1 - i] && s[j] == r[|s| - 1 - j];
      }
    }
    if SortedAsc(r) {
      forall i, j | 0 <= i < j < |s| ensures s[i].price >= s[j].price {
        assert s[i] == r[|s| - 1 - i] && s[j] == r[|s| - 1 - j];
      }
    }
  }

  lemma {:induction false} SelectReverse(s: seq<Level>, c: Criterion)
    ensures Select(Reverse(s), c) == Reverse(Select(s, c))
    decreases |s|
  {
    if s != [] {
      var rest := s[1..];
      var head := Select([s[0]], c);
      SelectReverse(rest, c);
      ReverseCons(s);
      SelectAppend(Reverse(rest), [s[0]], c);
      assert s == [s[0]] + rest;
      SelectAppend([s[0]], rest, c);
      ReverseAppend(head, Select(rest, c));
      ReverseShort(head);
    }
  }

  /** Picking rows commutes with reversing. */
  lemma SelectReverses(s: seq<Level>)
    ensures forall c :: Select(Reverse(s), c) == Reverse(Select(s, c))
  {
    forall c ensures Select(Reverse(s), c) == Reverse(Select(s, c)) {
      SelectReverse(s, c);
    }
  }

  /** Rows at or below `q` in price. */
  predicate AllAtMost(s: seq<Level>, q: real) {
    forall x :: x in s ==> x.price <= q
  }

  /** The rows of `s` at price `p`, followed by `x` when `x` has that price. */
  function AtPriceThen(s: seq<Level>, p: real, x: Level): seq<Level> {
    Select(s, AtPrice(p)) + (if x.price == p then [x] else [])
  }

  lemma SelectSnocAll(s: seq<Level>, x: Level)
    ensures forall p :: Select(s + [x], AtPrice(p)) == AtPriceThen(s, p, x)
  {
    forall p ensures Select(s + [x], AtPrice(p)) == AtPriceThen(s, p, x) {
      SelectSnoc(s, x, AtPrice(p));
    }
  }

  lemma AtMostFromMultiset(r: seq<Level>, t: seq<Level>, x: Level, q: real)
    requires multiset(r) == multiset(t) + multiset{x}
    requires AllAtMost(t, q) && x.price <= q
    ensures AllAtMost(r, q)
  {
    forall y | y in r ensures y.price <= q {
      assert y in multiset(r);
      if y != x {
        assert y in multiset(t);
      }
    }
  }

  lemma SortedSnoc(r: seq<Level>, top: Level)
    requires SortedAsc(r) && AllAtMost(r, top.price)
    ensures SortedAsc(r + [top])
  {
    var s := r + [top];
    forall i, j | 0 <= i < j < |s| ensures s[i].price <= s[j].price {
      if j == |r| {
        assert s[i] in r;
      }
    }
  }

  /** Moving `x` in front of a strictly higher-priced row keeps every price's
      rows in the same order. */
  lemma InsertBelowTop(init: seq<Level>, r0: seq<Level>, x: Level, top: Level)
    requires forall p :: Select(r0, AtPrice(p)) == AtPriceThen(init, p, x)
    requires x.price < top.price
    ensures forall p :: Select(r0 + [top], AtPrice(p)) == AtPriceThen(init + [top], p, x)
  {
    SelectSnocAll(r0, top);
    SelectSnocAll(init, top);
  }

  /** Places `x` after every row of the sorted `t` whose price does not exceed
      its own: one step of a stable insertion sort. */
  function Insert(t: seq<Level>, x: Level): (r: seq<Level>)
    requires SortedAsc(t)
    ensures |r| == |t| + 1
    ensures SortedAsc(r)
    ensures multiset(r) == multiset(t) + multiset{x}
    ensures forall p :: Select(r, AtPrice(p)) == AtPriceThen(t, p, x)
    decreases |t|
  {
    if t == [] then
      SelectSnocAll([], x);
      assert [] + [x] == [x];
      [x]
    else if Last(t).price <= x.price then
      SelectSnocAll(t, x);
      SortedSnoc(t, x);
      t + [x]
    else
      var init, top := DropLast(t), Last(t);
      assert t == init + [top];
      var r0 := Insert(init, x);
      AtMostFromMultiset(r0, init, x, top.price);
      SortedSnoc(r0, top);
      InsertBelowTop(init, r0, x, top);
      r0 + [top]
  }

  /** The stable ascending sort by price: what `sort((a, b) => asc(a[0], b[0]))`
      produces under the ascending reading of `asc`. */
  function Sort(s: seq<Level>): (r: seq<Level>)
    ensures |r| == |s|
    ensures SortedAsc(r)
    ensures multiset(r) == multiset(s)
    ensures forall p :: Select(r, AtPrice(p)) == Select(s, AtPrice(p))
    decreases |s|
  {
    if s == [] then []
    else
      assert s == DropLast(s) + [Last(s)];
      Insert(Sort(DropLast(s)), Last(s))
  }

  lemma LastIsSelected(s: seq<Level>)
    ensures s != [] ==> Select(s, AtPrice(Last(s).price)) != []
  {
  }

  /** Two ascending sequences that agree price by price end in the same row. */
  lemma SameLast(a: seq<Level>, b: seq<Level>)
    requires |a| > 0 && |b| > 0
    requires SortedAsc(a) && SortedAsc(b)
    requires forall p :: Select(a, AtPrice(p)) == Select(b, AtPrice(p))
    ensures Last(a) == Last(b)
  {
    var x, y := Last(a), Last(b);
    SelectMember(a, AtPrice(x.price), x);
    SelectMember(b, AtPrice(x.price), x);
    AtMostLast(b, x);
    SelectMember(b, AtPrice(y.price), y);
    SelectMember(a, AtPrice(y.price), y);
    AtMostLast(a, y);
    LastOfSelect(a, x.price);
    LastOfSelect(b, x.price);
  }

  /** Agreement price by price survives dropping a common last row. */
  lemma DropLastAgrees(a: seq<Level>, b: seq<Level>)
    requires |a| > 0 && |b| > 0 && Last(a) == Last(b)
    requires forall p :: Select(a, AtPrice(p)) == Select(b, AtPrice(p))
    ensures forall p :: Select(DropLast(a), AtPrice(p)) == Select(DropLast(b), AtPrice(p))
  {
    var x := Last(a);
    forall p ensures Select(DropLast(a), AtPrice(p)) == Select(DropLast(b), AtPrice(p)) {
      var sa, sb := Select(DropLast(a), AtPrice(p)), Select(DropLast(b), AtPrice(p));
      var tail := if x.price == p then [x] else [];
      assert sa + tail == Select(a, AtPrice(p));
      assert sb + tail == Select(b, AtPrice(p));
      assert sa == (sa + tail)[..|sa|];
      assert sb == (sb + tail)[..|sb|];
    }
  }

  lemma SortedDropLast(a: seq<Level>)
    requires |a| > 0 && SortedAsc(a)
    ensures SortedAsc(DropLast(a))
  {
  }

  /** A sorted sequence is determined by its rows at each price, in order: two
      ascending sequences that agree price by price are equal. */
  lemma {:induction false} SortedStableUnique(a: seq<Level>, b: seq<Level>)
    requires SortedAsc(a) && SortedAsc(b)
    requires forall p :: Select(a, AtPrice(p)) == Select(b, AtPrice(p))
    ensures a == b
    decreases |a| + |b|
  {
    if a == [] && b == [] {
    } else if a == [] {
      LastIsSelected(b);
      assert false;
    } else if b == [] {
      LastIsSelected(a);
      assert false;
    } else {
      SameLast(a, b);
      DropLastAgrees(a, b);
      SortedDropLast(a);
      SortedDropLast(b);
      SortedStableUnique(DropLast(a), DropLast(b));
      assert a == DropLast(a) + [Last(a)];
      assert b == DropLast(b) + [Last(b)];
    }
  }

  /** `Sort` is the only ascending, price-by-price order-keeping arrangement. */
  lemma SortCharacterized(s: seq<Level>, r: seq<Level>)
    requires SortedAsc(r)
    requires forall p :: Select(r, AtPrice(p)) == Select(s, AtPrice(p))
    ensures r == Sort(s)
  {
    SortedStableUnique(r, Sort(s));
  }

  /** Sorting an already ascending sequence leaves it as it is. */
  lemma SortSorted(s: seq<Level>)
    requires SortedAsc(s)
    ensures Sort(s) == s
  {
    SortCharacterized(s, s);
  }

  function MaxPrice(s: seq<Level>): (m: real)
    requires |s| > 0
    ensures forall x :: x in s ==> x.price <= m
    ensures Select(s, AtPrice(m)) != []
    decreases |s|
  {
    assert s == DropLast(s) + [Last(s)];
    if |s| == 1 then s[0].price
    else
      var m0 := MaxPrice(DropLast(s));
      if Last(s).price > m0 then Last(s).price else m0
  }

  function MinPrice(s: seq<Level>): (m: real)
    requires |s| > 0
    ensures forall x :: x in s ==> m <= x.price
    ensures Select(s, AtPrice(m)) != []
    decreases |s|
  {
    assert s == DropLast(s) + [Last(s)];
    if |s| == 1 then s[0].price
    else
      var m0 := MinPrice(DropLast(s));
      if Last(s).price < m0 then Last(s).price else m0
  }

  /** Sorting keeps exactly the rows it was given. */
  lemma SortMember(s: seq<Level>, x: Level)
    ensures x in Sort(s) <==> x in s
  {
    SelectMember(Sort(s), AtPrice(x.price), x);
    SelectMember(s, AtPrice(x.price), x);
  }

  /** In an ascending sequence no row is priced above the last one. */
  lemma AtMostLast(r: seq<Level>, w: Level)
    requires SortedAsc(r) && w in r
    ensures w.price <= Last(r).price
  {
    var k :| 0 <= k < |r| && r[k] == w;
  }

  /** In an ascending sequence no row is priced below the first one. */
  lemma AtLeastFirst(r: seq<Level>, w: Level)
    requires SortedAsc(r) && w in r
    ensures r[0].price <= w.price
  {
    var k :| 0 <= k < |r| && r[k] == w;
  }

  /** The last row of a sequence is the last of the rows at its price. */
  lemma LastOfSelect(r: seq<Level>, p: real)
    requires |r| > 0 && Last(r).price == p
    ensures Select(r, AtPrice(p)) != [] && Last(Select(r, AtPrice(p))) == Last(r)
  {
  }

  lemma LastOfSortPrice(s: seq<Level>)
    requires |s| > 0
    ensures Last(Sort(s)).price == MaxPrice(s)
  {
    var r, M := Sort(s), MaxPrice(s);
    assert Last(r) in r;
    SortMember(s, Last(r));
    assert Last(r).price <= M;
    var sel := Select(s, AtPrice(M));
    var w := sel[0];
    assert w in sel;
    SelectMember(s, AtPrice(M), w);
    SortMember(s, w);
    AtMostLast(r, w);
  }

  /** The last row of the sort carries the highest price, and it is the last
      of the input's rows at that price, in input order. */
  lemma LastOfSort(s: seq<Level>)
    requires |s| > 0
    ensures Last(Sort(s)).price == MaxPrice(s)
    ensures Last(Sort(s)) == Last(Select(s, AtPrice(MaxPrice(s))))
  {
    var r := Sort(s);
    var y := Last(r);
    LastOfSortPrice(s);
    LastOfSelect(r, y.price);
    assert Select(r, AtPrice(y.price)) == Select(s, AtPrice(y.price));
  }

  lemma {:induction false} FirstOfSortedSelected(t: seq<Level>)
    requires |t| > 0 && SortedAsc(t)
    ensures Select(t, AtPrice(t[0].price)) != []
    ensures Select(t, AtPrice(t[0].price))[0] == t[0]
    decreases |t|
  {
    var p := t[0].price;
    assert t == DropLast(t) + [Last(t)];
    SelectSnoc(DropLast(t), Last(t), AtPrice(p));
    if |t| > 1 {
      var init := DropLast(t);
      assert init[0] == t[0];
      assert SortedAsc(init);
      FirstOfSortedSelected(init);
    }
  }

  lemma FirstOfSortPrice(s: seq<Level>)
    requires |s| > 0
    ensures Sort(s)[0].price == MinPrice(s)
  {
    var r, M := Sort(s), MinPrice(s);
    assert r[0] in r;
    SortMember(s, r[0]);
    assert M <= r[0].price;
    var sel := Select(s, AtPrice(M));
    var w := sel[0];
    assert w in sel;
    SelectMember(s, AtPrice(M), w);
    SortMember(s, w);
    AtLeastFirst(r, w);
  }

  /** The first row of the sort carries the lowest price, and it is the first
      of the input's rows at that price, in input order. */
  lemma FirstOfSort(s: seq<Level>)
    requires |s| > 0
    ensures Sort(s)[0].price == MinPrice(s)
    ensures Sort(s)[0] == Select(s, AtPrice(MinPrice(s)))[0]
  {
    FirstOfSortPrice(s);
    FirstOfSortedSelected(Sort(s));
  }

  /** Dropping the last row removes it from the rows at its own price only. */
  lemma SelectDropLast(t: seq<Level>, p: real)
    requires |t| > 0
    ensures Select(t, AtPrice(p)) != [] || p != Last(t).price
    ensures Select(DropLast(t), AtPrice(p))
         == if p == Last(t).price then DropLast(Select(t, AtPrice(p))) else Select(t, AtPrice(p))
  {
    assert t == DropLast(t) + [Last(t)];
    SelectSnoc(DropLast(t), Last(t), AtPrice(p));
  }

  /** Dropping the first row removes it from the rows at its own price only. */
  lemma SelectDropFirst(t: seq<Level>, p: real)
    requires |t| > 0
    ensures Select(t, AtPrice(p)) != [] || p != t[0].price
    ensures Select(t[1..], AtPrice(p))
         == if p == t[0].price then Select(t, AtPrice(p))[1..] else Select(t, AtPrice(p))
  {
    assert t == [t[0]] + t[1..];
    SelectAppend([t[0]], t[1..], AtPrice(p));
    SelectSnoc([], t[0], AtPrice(p));
    assert [] + [t[0]] == [t[0]];
  }

  /** Rows that agree on price and amount position by position: the same
      sequence up to the `count` field. */
  predicate SameShape(a: seq<Level>, b: seq<Level>) {
    && |a| == |b|
    && forall i :: 0 <= i < |a| ==> a[i].price == b[i].price && a[i].amount == b[i].amount
  }

  lemma SameShapeSnoc(a: seq<Level>, b: seq<Level>, x: Level, y: Level)
    requires SameShape(a, b) && x.price == y.price && x.amount == y.amount
    ensures SameShape(a + [x], b + [y])
  {
  }

  lemma {:induction false} InsertIgnoresCount(t1: seq<Level>, t2: seq<Level>, x1: Level, x2: Level)
    requires SortedAsc(t1) && SortedAsc(t2) && SameShape(t1, t2)
    requires x1.price == x2.price && x1.amount == x2.amount
    ensures SameShape(Insert(t1, x1), Insert(t2, x2))
    decreases |t1|
  {
    if t1 == [] {
      assert Insert(t1, x1) == [x1] && Insert(t2, x2) == [x2];
    } else if Last(t1).price <= x1.price {
      assert Insert(t1, x1) == t1 + [x1] && Insert(t2, x2) == t2 + [x2];
      SameShapeSnoc(t1, t2, x1, x2);
    } else {
      var i1, i2 := DropLast(t1), DropLast(t2);
      assert SameShape(i1, i2);
      InsertIgnoresCount(i1, i2, x1, x2);
      assert Insert(t1, x1) == Insert(i1, x1) + [Last(t1)];
      assert Insert(t2, x2) == Insert(i2, x2) + [Last(t2)];
      SameShapeSnoc(Insert(i1, x1), Insert(i2, x2), Last(t1), Last(t2));
    }
  }

  /** Sorting looks at prices only, so rows that differ only in `count` are
      arranged identically. */
  lemma {:induction false} SortIgnoresCount(a: seq<Level>, b: seq<Level>)
    requires SameShape(a, b)
    ensures SameShape(Sort(a), Sort(b))
    decreases |a|
  {
    if a != [] {
      SortIgnoresCount(DropLast(a), DropLast(b));
      InsertIgnoresCount(Sort(DropLast(a)), Sort(DropLast(b)), Last(a), Last(b));
    }
  }
}

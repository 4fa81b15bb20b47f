/** Price-time priority said in prices and times alone, of every run from empty books. */
module PriceTime {
  import opened Matching

  const EMPTY: Books := Books([], [], 0, [])

  /** Cheapest sell first, dearest buy first, the older order first at one price; no sell as cheap as a buy;
      nothing rests with quantity zero. */
  predicate InPriceTime(b: Books) {
    && (forall i, j :: 0 <= i < j < |b.sells| ==>
          b.sells[i].price < b.sells[j].price || (b.sells[i].price == b.sells[j].price && b.sells[i].time < b.sells[j].time))
    && (forall i, j :: 0 <= i < j < |b.buys| ==>
          b.buys[i].price > b.buys[j].price || (b.buys[i].price == b.buys[j].price && b.buys[i].time < b.buys[j].time))
    && (forall i, j :: 0 <= i < |b.sells| && 0 <= j < |b.buys| ==> b.sells[i].price > b.buys[j].price)
    && (forall i :: 0 <= i < |b.sells| ==> b.sells[i].qty > 0)
    && (forall i :: 0 <= i < |b.buys| ==> b.buys[i].qty > 0)
  }

  lemma SettledInPriceTime(b: Books)
    requires Settled(b)
    ensures InPriceTime(b)
  {
    forall i, j | 0 <= i < |b.sells| && 0 <= j < |b.buys| ensures b.sells[i].price > b.buys[j].price {
      assert i > 0 ==> Better(Sell, b.sells[0], b.sells[i]);
      assert j > 0 ==> Better(Buy, b.buys[0], b.buys[j]);
    }
    assert forall i, j :: 0 <= i < j < |b.sells| ==> Better(Sell, b.sells[i], b.sells[j]);
    assert forall i, j :: 0 <= i < j < |b.buys| ==> Better(Buy, b.buys[i], b.buys[j]);
  }

  /** After every run of BUY, SELL and IOC commands. */
  lemma RunInPriceTime(cs: seq<Command>)
    ensures InPriceTime(EnterAll(EMPTY, cs))
  {
    RunStaysUncrossed(EMPTY, cs);
    SettledInPriceTime(EnterAll(EMPTY, cs));
  }

  // ----- Who trades first -----

  /** What an IOC order leaves of a book: it from order `k` on, that one perhaps with less quantity. */
  lemma {:induction false} IocLeavesTail(side: Side, book: seq<Order>, id: string, px: nat, qty: nat) returns (k: nat, left: nat)
    ensures k <= |book|
    ensures Ioc(side, book, id, px, qty).book ==
      if k == |book| then [] else [book[k].(qty := left)] + book[k + 1..]
    ensures k < |book| ==> left <= book[k].qty
  {
    if book == [] || !Takes(side, book[0], px) {
      k, left := 0, if book == [] then 0 else book[0].qty;
      assert book != [] ==> book == [book[0]] + book[1..];
    } else if book[0].qty > qty {
      k, left := 0, book[0].qty - qty;
      assert Sliced(book, qty) == [book[0].(qty := left)] + book[1..];
    } else {
      k, left := IocLeavesTail(side, book[1..], id, px, qty - book[0].qty);
      assert k < |book| - 1 ==> book[1..][k] == book[k + 1] && book[1..][k + 1..] == book[k + 1 + 1..];
      k := k + 1;
    }
  }

  /** Order `x` is gone from `book`, whatever its quantity. */
  predicate Gone(book: seq<Order>, x: Order) {
    forall i :: 0 <= i < |book| ==> !(book[i].price == x.price && book[i].time == x.time)
  }

  lemma TailDropsFirst(book: seq<Order>, i: nat, j: nat, k: nat, left: nat)
    requires i < j < |book| && k <= |book|
    requires forall m, n :: 0 <= m < n < |book| ==> book[m].price != book[n].price || book[m].time != book[n].time
    requires var r := if k == |book| then [] else [book[k].(qty := left)] + book[k + 1..]; book[j] !in r
    ensures var r := if k == |book| then [] else [book[k].(qty := left)] + book[k + 1..]; Gone(r, book[i])
  {
    var r := if k == |book| then [] else [book[k].(qty := left)] + book[k + 1..];
    forall m | 0 <= m < |r| ensures !(r[m].price == book[i].price && r[m].time == book[i].time) {
      assert r[m].price == book[k + m].price && r[m].time == book[k + m].time;
    }
  }

  /** On every run: of two orders resting at one price, the younger is touched by no command that leaves
      anything of the older. */
  lemma OlderTradesFirst(cs: seq<Command>, c: Command, x: Order, y: Order)
    requires x.price == y.price && x.time < y.time
    ensures var b := EnterAll(EMPTY, cs); var r := Enter(b, c);
      && (x in b.sells && y in b.sells && y !in r.sells ==> Gone(r.sells, x))
      && (x in b.buys && y in b.buys && y !in r.buys ==> Gone(r.buys, x))
  {
    var b := EnterAll(EMPTY, cs);
    RunStaysUncrossed(EMPTY, cs);
    SettledInPriceTime(b);
    hide EnterAll;
    BookAfter(b, c);
    var r := Enter(b, c);
    if x in b.sells && y in b.sells && y !in r.sells {
      SideInOrder(b.sells, r.sells, x, y);
    }
    if x in b.buys && y in b.buys && y !in r.buys {
      SideInOrder(b.buys, r.buys, x, y);
    }
  }

  /** Orders only come in, or only go from the front. */
  ghost predicate FromFront(book: seq<Order>, r: seq<Order>) {
    || (forall o :: o in book ==> o in r)
    || (exists k: nat, left: nat :: k <= |book| && r == TailOf(book, k, left))
  }

  function TailOf(book: seq<Order>, k: nat, left: nat): seq<Order>
    requires k <= |book|
  {
    if k == |book| then [] else [book[k].(qty := left)] + book[k + 1..]
  }

  lemma SideInOrder(book: seq<Order>, r: seq<Order>, x: Order, y: Order)
    requires FromFront(book, r) && x in book && y in book && y !in r && x.price == y.price && x.time < y.time
    requires forall m, n :: 0 <= m < n < |book| ==> book[m].price != book[n].price || book[m].time < book[n].time
    ensures Gone(r, x)
  {
    var i :| 0 <= i < |book| && book[i] == x;
    var j :| 0 <= j < |book| && book[j] == y;
    assert i < j;
    var k: nat, left: nat :| k <= |book| && r == TailOf(book, k, left);
    TailDropsFirst(book, i, j, k, left);
  }

  lemma InsertKeeps(side: Side, book: seq<Order>, x: Order)
    ensures forall o :: o in book ==> o in Insert(side, book, x)
  {
    InsertPermutes(side, book, x);
    forall o | o in book ensures o in Insert(side, book, x) {
      assert o in multiset(book) + multiset{x};
      assert o in multiset(Insert(side, book, x));
    }
  }

  lemma IocFromFront(side: Side, book: seq<Order>, id: string, px: nat, qty: nat)
    ensures FromFront(book, Ioc(side, book, id, px, qty).book)
  {
    var k, left := IocLeavesTail(side, book, id, px, qty);
    assert Ioc(side, book, id, px, qty).book == TailOf(book, k, left);
  }

  /** A good-for-day order: what it leaves of the other book, and of itself. */
  lemma GfdSides(b: Books, c: Command) returns (left: nat)
    requires Settled(b) && c.qty >= 1
    ensures var r := EnterGfd(b, c); var x := Order(c.id, Price16(c.price), left, b.clock);
      && b.trades <= r.trades && left + Traded(r.trades[|b.trades|..]) == c.qty
      && r.clock == b.clock + 1
      && (c.buy ==>
            && r.sells == Ioc(Sell, b.sells, c.id, Price16(c.price), c.qty).book
            && r.buys == if left == 0 then b.buys else Insert(Buy, b.buys, x))
      && (!c.buy ==>
            && r.buys == Ioc(Buy, b.buys, c.id, Price16(c.price), c.qty).book
            && r.sells == if left == 0 then b.sells else Insert(Sell, b.sells, x))
  {
    hide Settled, Ioc, MatchBooks, Insert, Traded, NonZero, Price16, Available;
    GfdTradesLikeIoc(b, c);
    var t := EnterIoc(b, c).trades[|b.trades|..];
    assert EnterGfd(b, c).trades[|b.trades|..] == NonZero(t);
    left := c.qty - Traded(t);
  }

  lemma BookAfter(b: Books, c: Command)
    requires Settled(b)
    ensures var r := Enter(b, c); FromFront(b.sells, r.sells) && FromFront(b.buys, r.buys)
  {
    IocFromFront(Sell, b.sells, c.id, Price16(c.price), c.qty);
    IocFromFront(Buy, b.buys, c.id, Price16(c.price), c.qty);
    if c.qty >= 1 && !c.ioc {
      var left := GfdSides(b, c);
      var x := Order(c.id, Price16(c.price), left, b.clock);
      InsertKeeps(Sell, b.sells, x);
      InsertKeeps(Buy, b.buys, x);
      hide Settled, Ioc, Insert, EnterGfd, Price16;
    } else {
      hide Settled, Ioc;
    }
  }

  // ----- At what price -----

  lemma InsertedIsIn(side: Side, book: seq<Order>, x: Order)
    ensures x in Insert(side, book, x)
  {
    InsertPermutes(side, book, x);
    assert x in multiset(Insert(side, book, x));
  }

  /** What remains of a good-for-day order rests under its id, at its own price if that is below 65536, and
      otherwise at what 16 bits keep of it. */
  lemma RestsAtItsPrice(b: Books, c: Command)
    requires Settled(b) && c.qty >= 1
    ensures var r := EnterGfd(b, c);
      && b.trades <= r.trades && r.clock == b.clock + 1
      && var sold := Traded(r.trades[|b.trades|..]);
         && sold <= c.qty
         && (sold < c.qty ==> Order(c.id, c.price % 65536, c.qty - sold, b.clock) in if c.buy then r.buys else r.sells)
    ensures c.price < 65536 ==> c.price % 65536 == c.price
  {
    assert Price16(c.price) == c.price % 65536;
    hide *;
    var left := GfdSides(b, c);
    var x := Order(c.id, Price16(c.price), left, b.clock);
    InsertedIsIn(Sell, b.sells, x);
    InsertedIsIn(Buy, b.buys, x);
  }

  /** An incoming order takes no resting order it may not, and with quantity left it leaves none it may. */
  lemma {:induction false} TakesUpToItsPrice(side: Side, book: seq<Order>, id: string, px: nat, qty: nat)
    ensures var r := Ioc(side, book, id, px, qty);
      && (forall t :: t in r.trades ==>
            && (if side == Sell then t.firstPrice <= px else t.firstPrice >= px)
            && t.secondId == id && t.secondPrice == px && t.sellFirst == (side == Sell)
            && exists o :: o in book && o.id == t.firstId && o.price == t.firstPrice)
      && (r.left > 0 && r.book != [] ==> if side == Sell then r.book[0].price > px else r.book[0].price < px)
  {
    if book != [] && Takes(side, book[0], px) {
      assert book[0] in book;
      if book[0].qty <= qty {
        TakesUpToItsPrice(side, book[1..], id, px, qty - book[0].qty);
        assert forall o :: o in book[1..] ==> o in book;
      }
    }
  }

  // ----- One session -----

  /** Three sells, the second as cheap as the first and the third cheaper; then six are bought.  The cheapest
      trades first, then the older of the other two, which keeps one. */
  lemma CheapestThenOldest()
    ensures var r := EnterAll(EMPTY, [Command(false, false, "a", 101, 5), Command(false, false, "b", 101, 5),
                                      Command(false, false, "c", 100, 2), Command(true, false, "d", 102, 6)]);
      && r.trades == [Trade("c", 100, "d", 102, 2, true), Trade("a", 101, "d", 102, 4, true)]
      && r.sells == [Order("a", 101, 1, 0), Order("b", 101, 5, 1)] && r.buys == [] && r.clock == 4
  {
    var c0, c1 := Command(false, false, "a", 101, 5), Command(false, false, "b", 101, 5);
    var c2, c3 := Command(false, false, "c", 100, 2), Command(true, false, "d", 102, 6);
    var a, b, c, d := Order("a", 101, 5, 0), Order("b", 101, 5, 1), Order("c", 100, 2, 2), Order("d", 102, 6, 3);
    assert Enter(EMPTY, c0) == Books([a], [], 1, []);
    assert Insert(Sell, [a], b) == [a] + Insert(Sell, [a][1..], b) == [a, b];
    assert Enter(Books([a], [], 1, []), c1) == Books([a, b], [], 2, []);
    assert Insert(Sell, [a, b], c) == [c, a, b];
    assert Enter(Books([a, b], [], 2, []), c2) == Books([c, a, b], [], 3, []);
    BuySix(a, b, c, d);
    var m := MatchBooks([c, a, b], [d]);
    assert Enter(Books([c, a, b], [], 3, []), c3) == Books(m.sells, m.buys, 4, [] + m.trades);
    FourCommands(EMPTY, c0, c1, c2, c3);
  }

  lemma BuySix(a: Order, b: Order, c: Order, d: Order)
    requires a == Order("a", 101, 5, 0) && b == Order("b", 101, 5, 1)
    requires c == Order("c", 100, 2, 2) && d == Order("d", 102, 6, 3)
    ensures MatchBooks([c, a, b], [d]) ==
      Outcome([a.(qty := 1), b], [], [Trade("c", 100, "d", 102, 2, true), Trade("a", 101, "d", 102, 4, true)])
  {
    var d4 := d.(qty := 4);
    assert AfterTrade([c, a, b], [d]) == [a, b] && AfterTrade([d], [c, a, b]) == [d4];
    assert AfterTrade([a, b], [d4]) == [a.(qty := 1), b] && AfterTrade([d4], [a, b]) == [];
    assert Matched([a.(qty := 1), b], [], true) == Outcome([a.(qty := 1), b], [], []);
    assert Matched([a, b], [d4], true) == Outcome([a.(qty := 1), b], [], [Trade("a", 101, "d", 102, 4, true)]);
  }

  lemma FourCommands(b: Books, c0: Command, c1: Command, c2: Command, c3: Command)
    ensures EnterAll(b, [c0, c1, c2, c3]) == Enter(Enter(Enter(Enter(b, c0), c1), c2), c3)
  {
    hide Enter;
    assert [c0, c1, c2, c3][1..] == [c1, c2, c3] && [c1, c2, c3][1..] == [c2, c3] && [c2, c3][1..] == [c3] && [c3][1..] == [];
    var b1 := Enter(b, c0);
    var b2 := Enter(b1, c1);
    var b3 := Enter(b2, c2);
    assert EnterAll(b3, [c3]) == Enter(b3, c3);
    assert EnterAll(b2, [c2, c3]) == Enter(b3, c3);
    assert EnterAll(b1, [c1, c2, c3]) == Enter(b3, c3);
  }
}

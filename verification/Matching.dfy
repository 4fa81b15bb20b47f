/** Price-time matching on values: a book is the sequence of its resting orders, the front first.
    `MatchingEngine` keeps the same books in place. */
module Matching {

  datatype Side = Sell | Buy

  datatype Order = Order(id: string, price: nat, qty: nat, time: nat)

  /** A printed trade: the first order named, the second, and the quantity.  `sellFirst` says which is which. */
  datatype Trade = Trade(firstId: string, firstPrice: nat, secondId: string, secondPrice: nat, qty: nat, sellFirst: bool) {
    function SellPrice(): nat { if sellFirst then firstPrice else secondPrice }
    function BuyPrice(): nat { if sellFirst then secondPrice else firstPrice }
  }

  // ----- Priority -----

  /** Better price first, earlier order first at the same price. */
  predicate Better(side: Side, a: Order, b: Order) {
    if a.price == b.price then a.time < b.time
    else if side == Sell then a.price < b.price else a.price > b.price
  }

  predicate Ordered(side: Side, book: seq<Order>) {
    forall i, j :: 0 <= i < j < |book| ==> Better(side, book[i], book[j])
  }

  /** The book with `x` at its place. */
  function Insert(side: Side, book: seq<Order>, x: Order): seq<Order> {
    if book == [] then [x]
    else if Better(side, book[0], x) then [book[0]] + Insert(side, book[1..], x)
    else [x] + book
  }

  lemma {:induction false} InsertPermutes(side: Side, book: seq<Order>, x: Order)
    ensures multiset(Insert(side, book, x)) == multiset(book) + multiset{x}
  {
    if book != [] && Better(side, book[0], x) {
      InsertPermutes(side, book[1..], x);
      assert book == [book[0]] + book[1..];
    }
  }

  lemma {:induction false} InsertOrdered(side: Side, book: seq<Order>, x: Order)
    requires Ordered(side, book)
    requires forall i :: 0 <= i < |book| ==> book[i].time != x.time
    ensures Ordered(side, Insert(side, book, x))
  {
    if book != [] && Better(side, book[0], x) {
      var rest := book[1..];
      InsertOrdered(side, rest, x);
      InsertPermutes(side, rest, x);
      var r := Insert(side, rest, x);
      forall j | 0 <= j < |r| ensures Better(side, book[0], r[j]) {
        assert r[j] in multiset(r);
        assert r[j] in rest || r[j] == x;
      }
    }
  }

  /** In an ordered book the front beats everything else, and it is the only order that does: so the
      front of any container with the same orders and a best front is the same order. */
  lemma FrontIsBest(side: Side, book: seq<Order>, o: Order)
    requires Ordered(side, book) && o in book
    requires forall p :: p in book && p != o ==> Better(side, o, p)
    ensures book[0] == o
  {
    var i :| 0 <= i < |book| && book[i] == o;
    assert book[0] in book && (i > 0 ==> Better(side, book[0], book[i]));
  }

  predicate Positive(book: seq<Order>) {
    forall i :: 0 <= i < |book| ==> book[i].qty > 0
  }

  predicate Crossed(sells: seq<Order>, buys: seq<Order>) {
    sells != [] && buys != [] && sells[0].price <= buys[0].price
  }

  function Total(book: seq<Order>): nat {
    if book == [] then 0 else book[0].qty + Total(book[1..])
  }

  function Traded(ts: seq<Trade>): nat {
    if ts == [] then 0 else ts[0].qty + Traded(ts[1..])
  }

  lemma {:induction false} TotalAppend(a: seq<Order>, b: seq<Order>)
    ensures Total(a + b) == Total(a) + Total(b)
  {
    if a == [] {
      assert a + b == b;
    } else {
      assert (a + b)[1..] == a[1..] + b;
      TotalAppend(a[1..], b);
    }
  }

  lemma {:induction false} TradedAppend(a: seq<Trade>, b: seq<Trade>)
    ensures Traded(a + b) == Traded(a) + Traded(b)
  {
    if a == [] {
      assert a + b == b;
    } else {
      assert (a + b)[1..] == a[1..] + b;
      TradedAppend(a[1..], b);
    }
  }

  lemma MultisetWithout(s: seq<Order>, i: nat)
    requires i < |s|
    ensures multiset(s[..i] + s[i + 1..]) == multiset(s) - multiset{s[i]}
  {
    var t := s[..i] + ([s[i]] + s[i + 1..]);
    assert s == t;
    assert multiset(t) == multiset(s[..i]) + (multiset{s[i]} + multiset(s[i + 1..]));
  }

  lemma TotalWithout(s: seq<Order>, i: nat)
    requires i < |s|
    ensures Total(s) == s[i].qty + Total(s[..i] + s[i + 1..])
  {
    var t := s[..i] + ([s[i]] + s[i + 1..]);
    assert s == t;
    TotalAppend(s[..i], [s[i]] + s[i + 1..]);
    TotalAppend(s[..i], s[i + 1..]);
    assert ([s[i]] + s[i + 1..])[1..] == s[i + 1..];
  }

  /** The first order of one book, found and left out in the other. */
  lemma FindFirst(a: seq<Order>, b: seq<Order>) returns (i: nat)
    requires a != [] && multiset(a) == multiset(b)
    ensures i < |b| && b[i] == a[0] && multiset(a[1..]) == multiset(b[..i] + b[i + 1..])
  {
    assert a[0] in multiset(b);
    i :| 0 <= i < |b| && b[i] == a[0];
    assert multiset(a) == multiset{a[0]} + multiset(a[1..]) by {
      assert a == [a[0]] + a[1..];
    }
    MultisetWithout(b, i);
  }

  /** The total does not depend on the order of a book. */
  lemma {:induction false} TotalPermutes(a: seq<Order>, b: seq<Order>)
    requires multiset(a) == multiset(b)
    ensures Total(a) == Total(b)
    decreases |a|
  {
    if a == [] {
      assert |b| == |multiset(b)| == 0;
    } else {
      var i := FindFirst(a, b);
      var rest := b[..i] + b[i + 1..];
      TotalPermutes(a[1..], rest);
      TotalWithout(b, i);
    }
  }

  // ----- Matching two books -----

  function Min(a: nat, b: nat): nat { if a < b then a else b }

  /** The front order with `qty` taken off. */
  function Sliced(book: seq<Order>, qty: nat): (r: seq<Order>)
    requires book != [] && qty <= book[0].qty
    ensures |r| == |book|
  {
    book[0 := book[0].(qty := book[0].qty - qty)]
  }

  function AfterTrade(book: seq<Order>, other: seq<Order>): (r: seq<Order>)
    requires book != [] && other != []
    ensures |r| == if book[0].qty > other[0].qty then |book| else |book| - 1
  {
    if book[0].qty > other[0].qty then Sliced(book, other[0].qty) else book[1..]
  }

  function TopTrade(s: Order, b: Order, sellFirst: bool): Trade {
    if sellFirst then Trade(s.id, s.price, b.id, b.price, Min(s.qty, b.qty), true)
    else Trade(b.id, b.price, s.id, s.price, Min(s.qty, b.qty), false)
  }

  datatype Outcome = Outcome(sells: seq<Order>, buys: seq<Order>, trades: seq<Trade>)

  /** Trade front against front until the fronts no longer cross. */
  function Matched(sells: seq<Order>, buys: seq<Order>, sellFirst: bool): Outcome
    decreases |sells| + |buys|
  {
    if !Crossed(sells, buys) then Outcome(sells, buys, [])
    else
      var rest := Matched(AfterTrade(sells, buys), AfterTrade(buys, sells), sellFirst);
      Outcome(rest.sells, rest.buys, [TopTrade(sells[0], buys[0], sellFirst)] + rest.trades)
  }

  lemma SlicedOrdered(side: Side, book: seq<Order>, qty: nat)
    requires book != [] && qty <= book[0].qty && Ordered(side, book)
    ensures Ordered(side, Sliced(book, qty))
  {
    var r := Sliced(book, qty);
    forall i, j | 0 <= i < j < |r| ensures Better(side, r[i], r[j]) {
      assert Better(side, book[i], book[j]);
    }
  }

  lemma AfterTradeOrdered(side: Side, book: seq<Order>, other: seq<Order>)
    requires book != [] && other != [] && Ordered(side, book)
    ensures Ordered(side, AfterTrade(book, other))
  {
    if book[0].qty > other[0].qty {
      SlicedOrdered(side, book, other[0].qty);
    }
  }

  /** After matching the books do not cross; they keep their order, and every quantity stays positive. */
  lemma {:induction false} MatchedUncrosses(sells: seq<Order>, buys: seq<Order>, sellFirst: bool)
    requires Ordered(Sell, sells) && Ordered(Buy, buys) && Positive(sells) && Positive(buys)
    ensures var r := Matched(sells, buys, sellFirst);
      && !Crossed(r.sells, r.buys)
      && Ordered(Sell, r.sells) && Ordered(Buy, r.buys) && Positive(r.sells) && Positive(r.buys)
    decreases |sells| + |buys|
  {
    if Crossed(sells, buys) {
      AfterTradeOrdered(Sell, sells, buys);
      AfterTradeOrdered(Buy, buys, sells);
      MatchedUncrosses(AfterTrade(sells, buys), AfterTrade(buys, sells), sellFirst);
    }
  }

  predicate FairlyPriced(ts: seq<Trade>) {
    forall i :: 0 <= i < |ts| ==> ts[i].SellPrice() <= ts[i].BuyPrice()
  }

  /** Matching moves quantity from both books into trades, one for one, each at sell price <= buy price. */
  lemma {:induction false} MatchedConserves(sells: seq<Order>, buys: seq<Order>, sellFirst: bool)
    ensures var r := Matched(sells, buys, sellFirst);
      && Total(sells) == Total(r.sells) + Traded(r.trades)
      && Total(buys) == Total(r.buys) + Traded(r.trades)
      && FairlyPriced(r.trades)
    decreases |sells| + |buys|
  {
    if Crossed(sells, buys) {
      MatchedConserves(AfterTrade(sells, buys), AfterTrade(buys, sells), sellFirst);
      AfterTradeTotal(sells, buys);
      AfterTradeTotal(buys, sells);
    }
  }

  lemma AfterTradeTotal(book: seq<Order>, other: seq<Order>)
    requires book != [] && other != []
    ensures Total(book) == Total(AfterTrade(book, other)) + Min(book[0].qty, other[0].qty)
  {
    if book[0].qty > other[0].qty {
      assert Sliced(book, other[0].qty)[1..] == book[1..];
    }
  }

  // ----- Immediate-or-cancel -----

  /** An incoming order at price `px` may trade with resting order `o` of `side`. */
  predicate Takes(side: Side, o: Order, px: nat) {
    if side == Sell then o.price <= px else o.price >= px
  }

  function TakeTrade(side: Side, o: Order, id: string, px: nat, qty: nat): Trade {
    Trade(o.id, o.price, id, px, qty, side == Sell)
  }

  datatype Taken = Taken(book: seq<Order>, trades: seq<Trade>, left: nat)

  /** The IOC loop against the resting book of `side`: stops at the first order it cannot take or not exhaust. */
  function Ioc(side: Side, book: seq<Order>, id: string, px: nat, qty: nat): Taken {
    if book == [] || !Takes(side, book[0], px) then Taken(book, [], qty)
    else if book[0].qty > qty then Taken(Sliced(book, qty), [TakeTrade(side, book[0], id, px, qty)], 0)
    else
      var rest := Ioc(side, book[1..], id, px, qty - book[0].qty);
      Taken(rest.book, [TakeTrade(side, book[0], id, px, book[0].qty)] + rest.trades, rest.left)
  }

  /** The quantity an incoming order at `px` could take. */
  function Available(side: Side, book: seq<Order>, px: nat): nat {
    if book == [] || !Takes(side, book[0], px) then 0 else book[0].qty + Available(side, book[1..], px)
  }

  function NonZero(ts: seq<Trade>): seq<Trade> {
    if ts == [] then []
    else (if ts[0].qty > 0 then [ts[0]] else []) + NonZero(ts[1..])
  }

  /** The IOC order trades as much as it can: the smaller of its quantity and what is available. */
  lemma {:induction false} IocTakesAllItCan(side: Side, book: seq<Order>, id: string, px: nat, qty: nat)
    ensures var r := Ioc(side, book, id, px, qty);
      && Traded(r.trades) == Min(qty, Available(side, book, px))
      && Traded(r.trades) + r.left == qty
      && Total(book) == Total(r.book) + Traded(r.trades)
      && FairlyPriced(r.trades)
  {
    if book != [] && Takes(side, book[0], px) {
      if book[0].qty > qty {
        assert Sliced(book, qty)[1..] == book[1..];
        var t := TakeTrade(side, book[0], id, px, qty);
        assert [t][1..] == [];
      } else {
        IocTakesAllItCan(side, book[1..], id, px, qty - book[0].qty);
      }
    }
  }

  /** A zero-quantity trade is printed exactly when the quantity is that of some orders at the front and more
      could still be taken; otherwise every trade is positive. */
  lemma {:induction false} IocZeroTrade(side: Side, book: seq<Order>, id: string, px: nat, qty: nat)
    requires Positive(book)
    ensures var r := Ioc(side, book, id, px, qty);
      NonZero(r.trades) != r.trades <==> ExactFill(book, qty) && qty < Available(side, book, px)
  {
    if book != [] && Takes(side, book[0], px) && book[0].qty <= qty {
      IocZeroTrade(side, book[1..], id, px, qty - book[0].qty);
      NonZeroLength(Ioc(side, book[1..], id, px, qty - book[0].qty).trades);
    }
  }

  /** `qty` is the sum of some orders at the front. */
  predicate ExactFill(book: seq<Order>, qty: nat) {
    qty == 0 || (book != [] && book[0].qty <= qty && ExactFill(book[1..], qty - book[0].qty))
  }

  /** Five are bought of a book that offers five and then seven more: the second trade printed is for nothing. */
  lemma ZeroTradePrinted()
    ensures var book := [Order("a", 10, 5, 0), Order("b", 10, 7, 1)];
      && ExactFill(book, 5) && 5 < Available(Sell, book, 10)
      && Ioc(Sell, book, "x", 10, 5).trades == [Trade("a", 10, "x", 10, 5, true), Trade("b", 10, "x", 10, 0, true)]
  {
    var a, b := Order("a", 10, 5, 0), Order("b", 10, 7, 1);
    assert [a, b][1..] == [b] && [b][1..] == [];
    assert ExactFill([b], 0);
    assert Ioc(Sell, [b], "x", 10, 0).trades == [Trade("b", 10, "x", 10, 0, true)];
  }

  lemma {:induction false} NonZeroLength(ts: seq<Trade>)
    ensures |NonZero(ts)| <= |ts|
  {
    if ts != [] {
      NonZeroLength(ts[1..]);
    }
  }

  // ----- One engine -----

  /** The order that has rested longer is printed first. */
  function MatchBooks(sells: seq<Order>, buys: seq<Order>): Outcome {
    if sells == [] || buys == [] then Outcome(sells, buys, [])
    else Matched(sells, buys, sells[0].time < buys[0].time)
  }

  predicate OlderThan(book: seq<Order>, time: nat) {
    forall i :: 0 <= i < |book| ==> book[i].time < time
  }

  lemma {:induction false} IocOfNothing(side: Side, book: seq<Order>, id: string, px: nat)
    requires Positive(book)
    ensures var r := Ioc(side, book, id, px, 0); NonZero(r.trades) == [] && r.book == book && r.left == 0
  {
    if book != [] && Takes(side, book[0], px) {
      assert Sliced(book, 0) == book;
      var t := TakeTrade(side, book[0], id, px, 0);
      assert NonZero([t]) == NonZero([t][1..]);
    }
  }

  /** A resting buy order matched against the sells trades as the same order would have traded
      immediate-or-cancel: the same non-zero trades in the same order, the same sells left; only the
      unfilled remainder stays in the buy book. */
  lemma {:induction false} BuyMatchesLikeIoc(sells: seq<Order>, buys: seq<Order>, x: Order)
    requires Ordered(Sell, sells) && Ordered(Buy, buys) && Positive(sells) && !Crossed(sells, buys)
    requires x.qty > 0 && OlderThan(buys, x.time)
    ensures var g := Matched(sells, Insert(Buy, buys, x), true); var i := Ioc(Sell, sells, x.id, x.price, x.qty);
      && g.trades == NonZero(i.trades)
      && g.sells == i.book
      && g.buys == if i.left == 0 then buys else Insert(Buy, buys, x.(qty := i.left))
    decreases |sells|
  {
    if sells != [] && Takes(Sell, sells[0], x.price) {
      var rest := sells[1..];
      assert Insert(Buy, buys, x) == [x] + buys;
      assert AfterTrade([x] + buys, sells) == if x.qty > sells[0].qty then [x.(qty := x.qty - sells[0].qty)] + buys else buys;
      if sells[0].qty < x.qty {
        var y := x.(qty := x.qty - sells[0].qty);
        assert Insert(Buy, buys, y) == [y] + buys;
        BuyMatchesLikeIoc(rest, buys, y);
      } else if sells[0].qty == x.qty {
        IocOfNothing(Sell, rest, x.id, x.price);
      } else {
        var t := TakeTrade(Sell, sells[0], x.id, x.price, x.qty);
        assert [t][1..] == [];
      }
    }
  }

  /** The same for a resting sell order against the buys. */
  lemma {:induction false} SellMatchesLikeIoc(sells: seq<Order>, buys: seq<Order>, x: Order)
    requires Ordered(Sell, sells) && Ordered(Buy, buys) && Positive(buys) && !Crossed(sells, buys)
    requires x.qty > 0 && OlderThan(sells, x.time)
    ensures var g := Matched(Insert(Sell, sells, x), buys, false); var i := Ioc(Buy, buys, x.id, x.price, x.qty);
      && g.trades == NonZero(i.trades)
      && g.buys == i.book
      && g.sells == if i.left == 0 then sells else Insert(Sell, sells, x.(qty := i.left))
    decreases |buys|
  {
    if buys != [] && Takes(Buy, buys[0], x.price) {
      var rest := buys[1..];
      assert Insert(Sell, sells, x) == [x] + sells;
      assert AfterTrade([x] + sells, buys) == if x.qty > buys[0].qty then [x.(qty := x.qty - buys[0].qty)] + sells else sells;
      if buys[0].qty < x.qty {
        var y := x.(qty := x.qty - buys[0].qty);
        assert Insert(Sell, sells, y) == [y] + sells;
        SellMatchesLikeIoc(sells, rest, y);
      } else if buys[0].qty == x.qty {
        IocOfNothing(Buy, rest, x.id, x.price);
      } else {
        var t := TakeTrade(Buy, buys[0], x.id, x.price, x.qty);
        assert [t][1..] == [];
      }
    }
  }

  // ----- Runs of new orders -----

  /** A BUY or SELL command with its time in force; the price is cut to 16 bits when it is stored. */
  datatype Command = Command(buy: bool, ioc: bool, id: string, price: nat, qty: nat)

  datatype Books = Books(sells: seq<Order>, buys: seq<Order>, clock: nat, trades: seq<Trade>)

  function Price16(price: nat): nat { price % 0x1_0000 }

  function EnterIoc(b: Books, c: Command): Books {
    if c.buy then
      var r := Ioc(Sell, b.sells, c.id, Price16(c.price), c.qty);
      b.(sells := r.book, trades := b.trades + r.trades)
    else
      var r := Ioc(Buy, b.buys, c.id, Price16(c.price), c.qty);
      b.(buys := r.book, trades := b.trades + r.trades)
  }

  function EnterGfd(b: Books, c: Command): Books {
    var x := Order(c.id, Price16(c.price), c.qty, b.clock);
    var r := if c.buy then MatchBooks(b.sells, Insert(Buy, b.buys, x))
             else MatchBooks(Insert(Sell, b.sells, x), b.buys);
    Books(r.sells, r.buys, b.clock + 1, b.trades + r.trades)
  }

  function Enter(b: Books, c: Command): Books {
    if c.qty < 1 then b else if c.ioc then EnterIoc(b, c) else EnterGfd(b, c)
  }

  /** Both books in priority order, uncrossed, every quantity positive, every order older than the clock. */
  predicate Settled(b: Books) {
    && Ordered(Sell, b.sells) && Ordered(Buy, b.buys)
    && Positive(b.sells) && Positive(b.buys)
    && !Crossed(b.sells, b.buys)
    && OlderThan(b.sells, b.clock) && OlderThan(b.buys, b.clock)
  }

  lemma InsertSettles(side: Side, book: seq<Order>, x: Order)
    requires Ordered(side, book) && Positive(book) && OlderThan(book, x.time) && x.qty > 0
    ensures var r := Insert(side, book, x); Ordered(side, r) && Positive(r) && OlderThan(r, x.time + 1)
  {
    InsertOrdered(side, book, x);
    InsertPermutes(side, book, x);
    var r := Insert(side, book, x);
    forall i | 0 <= i < |r| ensures r[i].qty > 0 && r[i].time < x.time + 1 {
      assert r[i] in multiset(r);
      assert r[i] in book || r[i] == x;
    }
  }

  lemma {:induction false} MatchedKeepsTimes(sells: seq<Order>, buys: seq<Order>, sellFirst: bool, time: nat)
    requires OlderThan(sells, time) && OlderThan(buys, time)
    ensures var r := Matched(sells, buys, sellFirst); OlderThan(r.sells, time) && OlderThan(r.buys, time)
    decreases |sells| + |buys|
  {
    if Crossed(sells, buys) {
      MatchedKeepsTimes(AfterTrade(sells, buys), AfterTrade(buys, sells), sellFirst, time);
    }
  }

  /** What the IOC loop leaves is in order, and its front is no better than before. */
  lemma {:induction false} IocSettles(side: Side, book: seq<Order>, id: string, px: nat, qty: nat, time: nat)
    requires Ordered(side, book) && Positive(book) && OlderThan(book, time)
    ensures var r := Ioc(side, book, id, px, qty).book;
      && Ordered(side, r) && Positive(r) && OlderThan(r, time)
      && (r != [] ==> book != [] && (r[0].price == book[0].price || Better(side, book[0], r[0])))
  {
    if book != [] && Takes(side, book[0], px) {
      if book[0].qty > qty {
        SlicedOrdered(side, book, qty);
      } else {
        IocSettles(side, book[1..], id, px, qty - book[0].qty, time);
        assert |book| > 1 ==> Better(side, book[0], book[1]);
      }
    }
  }

  /** Every BUY, SELL or IOC command leaves settled books settled. */
  lemma EnterSettles(b: Books, c: Command)
    requires Settled(b)
    ensures Settled(Enter(b, c))
  {
    if c.qty >= 1 {
      var px := Price16(c.price);
      if c.ioc {
        IocSettles(Sell, b.sells, c.id, px, c.qty, b.clock);
        IocSettles(Buy, b.buys, c.id, px, c.qty, b.clock);
      } else {
        var x := Order(c.id, px, c.qty, b.clock);
        var s := if c.buy then b.sells else Insert(Sell, b.sells, x);
        var u := if c.buy then Insert(Buy, b.buys, x) else b.buys;
        InsertSettles(Sell, b.sells, x);
        InsertSettles(Buy, b.buys, x);
        if s != [] && u != [] {
          MatchedUncrosses(s, u, s[0].time < u[0].time);
          MatchedKeepsTimes(s, u, s[0].time < u[0].time, b.clock + 1);
        }
      }
    }
  }

  function EnterAll(b: Books, cs: seq<Command>): Books
    decreases |cs|
  {
    if cs == [] then b else EnterAll(Enter(b, cs[0]), cs[1..])
  }

  /** After any run of BUY, SELL and IOC commands from empty books: one book is empty or the best sell is
      above the best buy, every resting quantity is positive, and both books are in price-time order. */
  lemma {:induction false} RunStaysUncrossed(b: Books, cs: seq<Command>)
    requires Settled(b)
    ensures Settled(EnterAll(b, cs))
    decreases |cs|
  {
    if cs != [] {
      EnterSettles(b, cs[0]);
      RunStaysUncrossed(Enter(b, cs[0]), cs[1..]);
    }
  }

  /** GFD and IOC agree: entered into settled books, the same order trades the same non-zero trades with
      the same resting orders, in total the smaller of its quantity and what is available; the books
      differ only in the remainder left resting. */
  lemma GfdTradesLikeIoc(b: Books, c: Command)
    requires Settled(b) && c.qty >= 1
    ensures var px := Price16(c.price);
      var gfd := EnterGfd(b, c); var ioc := EnterIoc(b, c);
      var t := ioc.trades[|b.trades|..];
      var taken := if c.buy then Available(Sell, b.sells, px) else Available(Buy, b.buys, px);
      && ioc.trades == b.trades + t
      && gfd.trades == b.trades + NonZero(t)
      && Traded(NonZero(t)) == Traded(t) == Min(c.qty, taken)
      && var left := c.qty - Traded(t);
         var x := Order(c.id, px, left, b.clock);
         && (c.buy ==> gfd.sells == ioc.sells && gfd.buys == if left == 0 then b.buys else Insert(Buy, b.buys, x))
         && (!c.buy ==> gfd.buys == ioc.buys && gfd.sells == if left == 0 then b.sells else Insert(Sell, b.sells, x))
  {
    hide Ioc, Matched, MatchBooks, Insert, Available, NonZero, Traded, Total, Ordered, Positive, Crossed, OlderThan, FairlyPriced;
    var px := Price16(c.price);
    var x := Order(c.id, px, c.qty, b.clock);
    if c.buy {
      BuyFrontTime(b.sells, b.buys, x);
      BuyMatchesLikeIoc(b.sells, b.buys, x);
      IocTakesAllItCan(Sell, b.sells, c.id, px, c.qty);
      NonZeroTraded(Ioc(Sell, b.sells, c.id, px, c.qty).trades);
    } else {
      SellFrontTime(b.sells, b.buys, x);
      SellMatchesLikeIoc(b.sells, b.buys, x);
      IocTakesAllItCan(Buy, b.buys, c.id, px, c.qty);
      NonZeroTraded(Ioc(Buy, b.buys, c.id, px, c.qty).trades);
    }
  }

  /** Only the new order can cross, and it is younger than what it meets: the resting order is printed first. */
  lemma BuyFrontTime(sells: seq<Order>, buys: seq<Order>, x: Order)
    requires !Crossed(sells, buys) && OlderThan(sells, x.time) && x.qty > 0
    ensures MatchBooks(sells, Insert(Buy, buys, x)) == Matched(sells, Insert(Buy, buys, x), true)
  {
  }

  lemma SellFrontTime(sells: seq<Order>, buys: seq<Order>, x: Order)
    requires !Crossed(sells, buys) && OlderThan(buys, x.time) && x.qty > 0
    ensures MatchBooks(Insert(Sell, sells, x), buys) == Matched(Insert(Sell, sells, x), buys, false)
  {
  }

  lemma {:induction false} NonZeroTraded(ts: seq<Trade>)
    ensures Traded(NonZero(ts)) == Traded(ts)
  {
    if ts != [] {
      NonZeroTraded(ts[1..]);
      assert ([ts[0]] + NonZero(ts[1..]))[1..] == NonZero(ts[1..]);
      assert [] + NonZero(ts[1..]) == NonZero(ts[1..]);
    }
  }
}

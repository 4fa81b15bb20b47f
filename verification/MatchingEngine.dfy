/** The matching engine in place: two priority queues, a map from order ids to sides, and the printed
    trades.  The queues promise what `std::priority_queue` promises: on a heap the front is the best order;
    after an order was erased from the middle, nothing is said about the order of what is left. */
module MatchingEngine {
  import opened Bytes
  import opened Matching
  import opened MatchingIndex

  class Book {
    const side: Side
    /** The resting orders, the front first; in priority order as long as the queue is a heap. */
    var c: seq<Order>

    constructor (side: Side)
      ensures this.side == side && c == []
    {
      this.side := side;
      c := [];
    }

    method Push(x: Order)
      modifies this
      ensures multiset(c) == multiset(old(c)) + multiset{x}
      ensures old(Ordered(side, c)) ==> c == Insert(side, old(c), x)
    {
      InsertPermutes(side, c, x);
      c := Insert(side, c, x);
    }

    method Pop()
      requires c != []
      modifies this
      ensures multiset(c) == multiset(old(c)[1..])
      ensures old(Ordered(side, c)) ==> c == old(c)[1..]
    {
      c := c[1..];
    }

    method SliceTop(qty: nat)
      requires c != [] && qty <= c[0].qty
      modifies this
      ensures c == Sliced(old(c), qty)
    {
      c := c[0 := c[0].(qty := c[0].qty - qty)];
    }

    /** Erases the first order found with the id; the rest may be in any order afterwards. */
    method CancelOrder(cxlId: string) returns (ghost removed: seq<Order>)
      modifies this
      ensures multiset(old(c)) == multiset(c) + multiset(removed)
      ensures if exists o :: o in old(c) && o.id == cxlId then |removed| == 1 && removed[0].id == cxlId else removed == []
    {
      removed := [];
      var it := 0;
      while it < |c|
        invariant it <= |c| && c == old(c) && removed == []
        invariant forall i :: 0 <= i < it ==> c[i].id != cxlId
      {
        if c[it].id != cxlId {
          it := it + 1;
          continue;
        }
        removed := [c[it]];
        MultisetWithout(c, it);
        assert c[it] in multiset(c);
        c := c[..it] + c[it + 1..];
        break;
      }
    }
  }

  // ----- Book-keeping -----

  /** What became of the quantity accepted on one side, besides trading and resting. */
  datatype Ledger = Ledger(accepted: nat, removed: nat, unfilled: nat)

  datatype Ledgers = Ledgers(sell: Ledger, buy: Ledger) {
    function Of(side: Side): Ledger { if side == Sell then sell else buy }
    function With(side: Side, l: Ledger): Ledgers { if side == Sell then this.(sell := l) else this.(buy := l) }
  }

  /** Accepted quantity is traded, resting, removed by a command, or left unfilled by an IOC order. */
  predicate Conserved(l: Ledger, book: seq<Order>, trades: seq<Trade>) {
    l.accepted == Traded(trades) + Total(book) + l.removed + l.unfilled
  }

  lemma PositivePermutes(a: seq<Order>, b: seq<Order>)
    requires multiset(a) == multiset(b) && Positive(a)
    ensures Positive(b) && |a| == |b|
  {
    assert |a| == |multiset(a)| && |b| == |multiset(b)|;
    forall i | 0 <= i < |b| ensures b[i].qty > 0 {
      assert b[i] in multiset(b);
      assert b[i] in a;
    }
  }

  lemma TradedOne(ts: seq<Trade>, t: Trade)
    ensures Traded(ts + [t]) == Traded(ts) + t.qty
  {
    TradedAppend(ts, [t]);
    assert [t][1..] == [];
  }

  /** A trade off the front of a book, however the container then arranges the rest, conserves quantity. */
  lemma TradeConserves(l: Ledger, book: seq<Order>, other: seq<Order>, left: seq<Order>, trades: seq<Trade>, t: Trade)
    requires book != [] && other != [] && Positive(book) && Positive(other)
    requires multiset(left) == multiset(AfterTrade(book, other)) && t.qty == Min(book[0].qty, other[0].qty)
    requires Conserved(l, book, trades)
    ensures Conserved(l, left, trades + [t]) && Positive(left) && |left| == |AfterTrade(book, other)|
  {
    AfterTradeTotal(book, other);
    TotalPermutes(left, AfterTrade(book, other));
    PositivePermutes(AfterTrade(book, other), left);
    TradedOne(trades, t);
  }

  /** `trades` followed by the trades of `o`. */
  function Behind(trades: seq<Trade>, o: Outcome): Outcome {
    Outcome(o.sells, o.buys, trades + o.trades)
  }

  lemma BehindStep(trades: seq<Trade>, sells: seq<Order>, buys: seq<Order>, sellFirst: bool)
    requires Crossed(sells, buys)
    ensures Behind(trades, Matched(sells, buys, sellFirst)) ==
      Behind(trades + [TopTrade(sells[0], buys[0], sellFirst)], Matched(AfterTrade(sells, buys), AfterTrade(buys, sells), sellFirst))
  {
  }

  lemma SlicedOrderedIf(side: Side, book: seq<Order>, qty: nat)
    requires book != [] && qty <= book[0].qty
    ensures Ordered(side, book) ==> Ordered(side, Sliced(book, qty))
  {
    if Ordered(side, book) {
      SlicedOrdered(side, book, qty);
    }
  }

  /** Both containers hold what a trade of the fronts leaves; ordered containers hold it in order. */
  ghost predicate FrontsTaken(s0: seq<Order>, b0: seq<Order>, s: seq<Order>, b: seq<Order>)
    requires s0 != [] && b0 != []
  {
    && multiset(s) == multiset(AfterTrade(s0, b0))
    && multiset(b) == multiset(AfterTrade(b0, s0))
    && (Ordered(Sell, s0) ==> s == AfterTrade(s0, b0))
    && (Ordered(Buy, b0) ==> b == AfterTrade(b0, s0))
  }

  /** `qty` less left unfilled on one side. */
  function Filled(ls: Ledgers, side: Side, qty: nat): Ledgers
    requires ls.Of(side).unfilled >= qty
  {
    ls.With(side, ls.Of(side).(unfilled := ls.Of(side).unfilled - qty))
  }

  /** `qty` removed by a command on one side. */
  function Lost(ls: Ledgers, side: Side, qty: nat): Ledgers {
    ls.With(side, ls.Of(side).(removed := ls.Of(side).removed + qty))
  }

  /** `qty` newly accepted on one side, of which `unfilled` is left over. */
  function Took(ls: Ledgers, side: Side, qty: nat, unfilled: nat): Ledgers {
    ls.With(side, ls.Of(side).(accepted := ls.Of(side).accepted + qty, unfilled := ls.Of(side).unfilled + unfilled))
  }

  /** The three bookings, account by account: what is lost is removed, what is filled is no longer unfilled,
      what is taken is accepted; the other side's account stays as it is. */
  lemma LedgersBooked(s: Ledger, b: Ledger, qty: nat, left: nat)
    ensures Lost(Ledgers(s, b), Sell, qty) == Ledgers(Ledger(s.accepted, s.removed + qty, s.unfilled), b)
    ensures Lost(Ledgers(s, b), Buy, qty) == Ledgers(s, Ledger(b.accepted, b.removed + qty, b.unfilled))
    ensures Took(Ledgers(s, b), Sell, qty, left) == Ledgers(Ledger(s.accepted + qty, s.removed, s.unfilled + left), b)
    ensures Took(Ledgers(s, b), Buy, qty, left) == Ledgers(s, Ledger(b.accepted + qty, b.removed, b.unfilled + left))
    ensures s.unfilled >= qty ==>
      Filled(Ledgers(s, b), Sell, qty) == Ledgers(Ledger(s.accepted, s.removed, s.unfilled - qty), b)
    ensures b.unfilled >= qty ==>
      Filled(Ledgers(s, b), Buy, qty) == Ledgers(s, Ledger(b.accepted, b.removed, b.unfilled - qty))
  {
  }

  function Opposite(side: Side): Side { if side == Sell then Buy else Sell }

  /** The resting book after an incoming order of `qty` took what it could from the front. */
  function AfterTake(book: seq<Order>, qty: nat): seq<Order>
    requires book != []
  {
    if book[0].qty > qty then Sliced(book, qty) else book[1..]
  }

  /** On the resting side a taken quantity leaves the book; on the incoming side it is no longer unfilled. */
  lemma TakeConserves(l: Ledger, book: seq<Order>, left: seq<Order>, qty: nat, trades: seq<Trade>, t: Trade)
    requires book != [] && Positive(book) && multiset(left) == multiset(AfterTake(book, qty))
    requires t.qty == Min(book[0].qty, qty) && Conserved(l, book, trades)
    ensures Conserved(l, left, trades + [t]) && Positive(left) && |left| == |AfterTake(book, qty)|
  {
    if book[0].qty > qty {
      assert Sliced(book, qty)[1..] == book[1..];
    }
    TotalPermutes(left, AfterTake(book, qty));
    PositivePermutes(AfterTake(book, qty), left);
    TradedOne(trades, t);
  }

  lemma FillConserves(l: Ledger, book: seq<Order>, trades: seq<Trade>, t: Trade)
    requires Conserved(l, book, trades) && l.unfilled >= t.qty
    ensures Conserved(l.(unfilled := l.unfilled - t.qty), book, trades + [t])
  {
    TradedOne(trades, t);
  }

  function IndexAfterTake(m: map<string, char>, book: seq<Order>, qty: nat): map<string, char>
    requires book != []
  {
    if book[0].qty > qty then m else m - {book[0].id}
  }

  lemma TakeKeepsIndex(m: map<string, char>, tag: char, book: seq<Order>, other: char, theirs: multiset<Order>, qty: nat)
    requires book != [] && IndexedAs(m, tag, multiset(book), other, theirs)
    ensures IndexedAs(IndexAfterTake(m, book, qty), tag, multiset(AfterTake(book, qty)), other, theirs)
  {
    if book[0].qty > qty {
      SlicedMultiset(book, qty);
      ReplaceKeepsIndex(m, tag, multiset(book), other, theirs, book[0], Sliced(book, qty)[0]);
    } else {
      TailMultiset(book);
      RemoveKeepsIndex(m, tag, multiset(book), other, theirs, book[0]);
    }
  }

  /** Both books and the index, when one front is taken from. */
  lemma TakeIndexed(m: map<string, char>, sells: seq<Order>, buys: seq<Order>, fromSells: bool, qty: nat)
    requires if fromSells then sells != [] else buys != []
    ensures Indexed(m, multiset(sells), multiset(buys)) ==>
      if fromSells then Indexed(IndexAfterTake(m, sells, qty), multiset(AfterTake(sells, qty)), multiset(buys))
      else Indexed(IndexAfterTake(m, buys, qty), multiset(sells), multiset(AfterTake(buys, qty)))
  {
    if Indexed(m, multiset(sells), multiset(buys)) {
      if fromSells {
        TakeKeepsIndex(m, SELL_TAG, sells, BUY_TAG, multiset(buys), qty);
      } else {
        assert multiset(buys) + multiset(sells) == multiset(sells) + multiset(buys);
        TakeKeepsIndex(m, BUY_TAG, buys, SELL_TAG, multiset(sells), qty);
        assert multiset(AfterTake(buys, qty)) + multiset(sells) == multiset(sells) + multiset(AfterTake(buys, qty));
      }
    }
  }

  /** One pass of the IOC loop, unfolded; the book stays in order. */
  lemma IocStep(trades: seq<Trade>, side: Side, book: seq<Order>, id: string, px: nat, qty: nat)
    requires book != [] && Takes(side, book[0], px)
    ensures Ordered(side, book) ==> Ordered(side, AfterTake(book, qty))
    ensures var rest := AfterTake(book, qty); var done := book[0].qty > qty;
      var left := if done then 0 else qty - book[0].qty;
      var ts := trades + [TakeTrade(side, book[0], id, px, qty - left)];
      TakenBehind(trades, Ioc(side, book, id, px, qty)) ==
        if done then Taken(rest, ts, left) else TakenBehind(ts, Ioc(side, rest, id, px, left))
  {
    if book[0].qty > qty {
      SlicedOrderedIf(side, book, qty);
    }
  }

  lemma IocStops(trades: seq<Trade>, side: Side, book: seq<Order>, id: string, px: nat, qty: nat)
    ensures book == [] || !Takes(side, book[0], px) ==>
      TakenBehind(trades, Ioc(side, book, id, px, qty)) == Taken(book, trades, qty)
  {
  }

  /** `trades` followed by the trades of `r`. */
  function TakenBehind(trades: seq<Trade>, r: Taken): Taken {
    Taken(r.book, trades + r.trades, r.left)
  }

  lemma PushConserves(l: Ledger, book: seq<Order>, pushed: seq<Order>, x: Order, trades: seq<Trade>)
    requires multiset(pushed) == multiset(book) + multiset{x} && Positive(book) && x.qty > 0
    requires Conserved(l, book, trades)
    ensures Conserved(l.(accepted := l.accepted + x.qty), pushed, trades) && Positive(pushed)
  {
    TotalPermutes(pushed, [x] + book);
    PositivePermutes([x] + book, pushed);
    assert ([x] + book)[1..] == book;
  }

  lemma RemovalConserves(l: Ledger, book: seq<Order>, kept: seq<Order>, removed: seq<Order>, trades: seq<Trade>)
    requires multiset(book) == multiset(kept) + multiset(removed) && Positive(book)
    requires Conserved(l, book, trades)
    ensures Conserved(l.(removed := l.removed + Total(removed)), kept, trades) && Positive(kept)
  {
    TotalPermutes(book, kept + removed);
    TotalAppend(kept, removed);
    PositivePermutes(book, kept + removed);
    forall i | 0 <= i < |kept| ensures kept[i].qty > 0 {
      assert (kept + removed)[i] == kept[i];
    }
  }

  /** The books without `removed`, an order of one of them, and the map without its id. */
  lemma RemovalKeepsIndex(m: map<string, char>, tag: char, book: seq<Order>, other: char, theirs: multiset<Order>,
                          kept: seq<Order>, removed: seq<Order>, id: string)
    requires IndexedAs(m, tag, multiset(book), other, theirs) && id in m && m[id] == tag
    requires multiset(book) == multiset(kept) + multiset(removed)
    requires if exists o :: o in book && o.id == id then |removed| == 1 && removed[0].id == id else removed == []
    ensures IndexedAs(m - {id}, tag, multiset(kept), other, theirs)
    ensures |removed| == 1 && removed[0].id == id && removed[0] in book
  {
    assert Rests(multiset(book), id);
    var p :| p in multiset(book) && p.id == id;
    assert p in book;
    var o := removed[0];
    assert removed == [o];
    assert o in multiset(kept) + multiset(removed);
    assert o in multiset(book);
    RemoveKeepsIndex(m, tag, multiset(book), other, theirs, o);
    assert multiset(kept) == multiset(book) - multiset{o};
  }

  lemma RestIndexed(m: map<string, char>, sells: seq<Order>, buys: seq<Order>, isBuy: bool, x: Order)
    ensures Indexed(m, multiset(sells), multiset(buys)) && !Rests(multiset(sells), x.id) && !Rests(multiset(buys), x.id) ==>
      if isBuy then Indexed(m[x.id := BUY_TAG], multiset(sells), multiset(buys) + multiset{x})
      else Indexed(m[x.id := SELL_TAG], multiset(sells) + multiset{x}, multiset(buys))
  {
    var s, b := multiset(sells), multiset(buys);
    if Indexed(m, s, b) && !Rests(s, x.id) && !Rests(b, x.id) {
      if isBuy {
        assert b + s == s + b;
        AddKeepsIndex(m, BUY_TAG, b, SELL_TAG, s, x);
        assert (b + multiset{x}) + s == s + (b + multiset{x});
      } else {
        AddKeepsIndex(m, SELL_TAG, s, BUY_TAG, b, x);
      }
    }
  }

  /** The books of a GFD order, before and after the matching. */
  lemma GfdUnfolds(b: Books, c: Command)
    requires c.qty > 0
    ensures Settled(b) ==> Ordered(Sell, b.sells) && Ordered(Buy, b.buys)
    ensures var x := Order(c.id, Price16(c.price), c.qty, b.clock);
      var s := if c.buy then b.sells else Insert(Sell, b.sells, x);
      var u := if c.buy then Insert(Buy, b.buys, x) else b.buys;
      && (Settled(b) ==> Ordered(Sell, s) && Ordered(Buy, u))
      && (s == [] || u == [] ==> Matching.MatchBooks(s, u) == Outcome(s, u, []) && b.trades + [] == b.trades)
      && Matching.EnterGfd(b, c) == BooksOf(Behind(b.trades, Matching.MatchBooks(s, u)), b.clock + 1)
  {
    var x := Order(c.id, Price16(c.price), c.qty, b.clock);
    if Settled(b) {
      InsertSettles(Sell, b.sells, x);
      InsertSettles(Buy, b.buys, x);
    }
  }

  function BooksOf(o: Outcome, clock: nat): Books {
    Books(o.sells, o.buys, clock, o.trades)
  }

  lemma SettledOrdered(b: Books)
    ensures Settled(b) ==> Ordered(Sell, b.sells) && Ordered(Buy, b.buys)
  {
  }

  /** Looking up an id that is not in the map leaves a blank entry. */
  function LookedUp(m: map<string, char>, id: string): (r: map<string, char>)
    ensures id in r
  {
    if id in m then m else m[id := NO_TAG]
  }

  /** `kept` is the book without the order with the id, if it held one and was searched. */
  ghost predicate Removed(book: seq<Order>, kept: seq<Order>, removed: seq<Order>, id: string, searched: bool) {
    if !searched then kept == book && removed == []
    else
      && multiset(book) == multiset(kept) + multiset(removed)
      && if exists o :: o in book && o.id == id then |removed| == 1 && removed[0].id == id else removed == []
  }

  /** What removing an order by id does to books and index, given what the map said. */
  ghost predicate RemovedById(m: map<string, char>, sells: seq<Order>, buys: seq<Order>, id: string,
                              m': map<string, char>, sells': seq<Order>, buys': seq<Order>,
                              found: bool, side: Side, removed: seq<Order>)
  {
    && found == (id in m && m[id] in {SELL_TAG, BUY_TAG})
    && (found ==> side == if m[id] == BUY_TAG then Buy else Sell)
    && (if found then m' == m - {id} else m' == LookedUp(m, id) && removed == [])
    && (side == Sell ==> buys' == buys && Removed(sells, sells', removed, id, found))
    && (side == Buy ==> sells' == sells && Removed(buys, buys', removed, id, found))
  }

  /** An id the map does not mark rests in no book. */
  lemma UnmarkedRestsNowhere(m: map<string, char>, sells: multiset<Order>, buys: multiset<Order>, id: string)
    requires Indexed(m, sells, buys) && (id !in m || m[id] !in {SELL_TAG, BUY_TAG})
    ensures !Rests(sells, id) && !Rests(buys, id)
  {
  }

  /** An index in agreement finds the order, and afterwards agrees again and no longer knows the id. */
  lemma RemovalIndexed(m: map<string, char>, sells: seq<Order>, buys: seq<Order>, id: string,
                       m': map<string, char>, sells': seq<Order>, buys': seq<Order>,
                       found: bool, side: Side, removed: seq<Order>)
    requires RemovedById(m, sells, buys, id, m', sells', buys', found, side, removed)
    requires Indexed(m, multiset(sells), multiset(buys))
    ensures Indexed(m', multiset(sells'), multiset(buys'))
    ensures !Rests(multiset(sells'), id) && !Rests(multiset(buys'), id)
    ensures found ==> |removed| == 1 && removed[0].id == id && removed[0] in if side == Sell then sells else buys
    ensures !found ==> !Rests(multiset(sells), id) && !Rests(multiset(buys), id)
  {
    hide UniqueIds, Agrees;
    if !found {
      UnmarkedRestsNowhere(m, multiset(sells), multiset(buys), id);
      if id !in m {
        BlankKeepsIndex(m, multiset(sells), multiset(buys), id);
      }
      return;
    }
    if side == Sell {
      RemovalKeepsIndex(m, SELL_TAG, sells, BUY_TAG, multiset(buys), sells', removed, id);
    } else {
      assert multiset(buys) + multiset(sells) == multiset(sells) + multiset(buys);
      RemovalKeepsIndex(m, BUY_TAG, buys, SELL_TAG, multiset(sells), buys', removed, id);
      assert multiset(buys') + multiset(sells') == multiset(sells') + multiset(buys');
    }
    UnmarkedRestsNowhere(m', multiset(sells'), multiset(buys'), id);
  }

  lemma NothingEntered()
    ensures Indexed(map[], multiset([]), multiset([]))
    ensures Settled(Books([], [], 0, []))
    ensures Positive([]) && FairlyPriced([]) && Conserved(Ledger(0, 0, 0), [], [])
  {
  }

  // ----- The engine -----

  class Engine {
    const sell: Book
    const buy: Book
    var orderIdMap: map<string, char>
    var clock: nat
    /** The printed trades, in order. */
    var trades: seq<Trade>
    ghost var ledgers: Ledgers

    ghost predicate Valid()
      reads this, sell, buy
    {
      && sell != buy && sell.side == Sell && buy.side == Buy
      && Positive(sell.c) && Positive(buy.c)
      && FairlyPriced(trades)
      && Conserved(ledgers.sell, sell.c, trades)
      && Conserved(ledgers.buy, buy.c, trades)
    }

    /** The map marks exactly the ids resting in each book, and no id rests twice. */
    ghost predicate InIndex()
      reads this, sell, buy
    {
      Indexed(orderIdMap, multiset(sell.c), multiset(buy.c))
    }

    ghost function Abs(): Books
      reads this, sell, buy
    {
      Books(sell.c, buy.c, clock, trades)
    }

    constructor ()
      ensures fresh(sell) && fresh(buy)
      ensures Valid() && InIndex() && Settled(Abs())
      ensures Abs() == Books([], [], 0, []) && ledgers == Ledgers(Ledger(0, 0, 0), Ledger(0, 0, 0))
    {
      hide Indexed, Settled, Positive, FairlyPriced, Conserved;
      sell := new Book(Sell);
      buy := new Book(Buy);
      orderIdMap := map[];
      clock := 0;
      trades := [];
      ledgers := Ledgers(Ledger(0, 0, 0), Ledger(0, 0, 0));
      new;
      NothingEntered();
      assert sell.c == [] && buy.c == [];
    }

    /** One pass of the matching loop: print the trade of the two fronts and take it off them. */
    method TradeFronts(sellFirst: bool)
      requires Valid() && Crossed(sell.c, buy.c)
      modifies sell, buy, this`trades, this`orderIdMap
      ensures Valid()
      ensures trades == old(trades) + [TopTrade(old(sell.c)[0], old(buy.c)[0], sellFirst)]
      ensures |sell.c| + |buy.c| < old(|sell.c| + |buy.c|)
      ensures FrontsTaken(old(sell.c), old(buy.c), sell.c, buy.c)
      ensures orderIdMap ==
        IndexAfter(IndexAfter(old(orderIdMap), old(sell.c), old(buy.c)), old(buy.c), old(sell.c))
    {
      ghost var s0, b0, t0 := sell.c, buy.c, trades;
      PrintFronts(sellFirst);
      TakeFronts();
      TradeConserves(ledgers.sell, s0, b0, sell.c, t0, TopTrade(s0[0], b0[0], sellFirst));
      TradeConserves(ledgers.buy, b0, s0, buy.c, t0, TopTrade(s0[0], b0[0], sellFirst));
    }

    method PrintFronts(sellFirst: bool)
      requires sell.c != [] && buy.c != []
      modifies this`trades
      ensures trades == old(trades) + [TopTrade(sell.c[0], buy.c[0], sellFirst)]
    {
      var sOrd, bOrd := sell.c[0], buy.c[0];
      var prtQty := if sOrd.qty > bOrd.qty then bOrd.qty else sOrd.qty;
      if sellFirst {
        trades := trades + [Trade(sOrd.id, sOrd.price, bOrd.id, bOrd.price, prtQty, true)];
      } else {
        trades := trades + [Trade(bOrd.id, bOrd.price, sOrd.id, sOrd.price, prtQty, false)];
      }
    }

    /** Slices one front by the other and pops, with its index entry, every front that is used up. */
    method TakeFronts()
      requires sell != buy && sell.side == Sell && buy.side == Buy
      requires sell.c != [] && buy.c != []
      modifies sell, buy, this`orderIdMap
      ensures FrontsTaken(old(sell.c), old(buy.c), sell.c, buy.c)
      ensures orderIdMap ==
        IndexAfter(IndexAfter(old(orderIdMap), old(sell.c), old(buy.c)), old(buy.c), old(sell.c))
    {
      hide Ordered;
      var sOrd, bOrd := sell.c[0], buy.c[0];
      if sOrd.qty > bOrd.qty {
        orderIdMap := orderIdMap - {bOrd.id};
        sell.SliceTop(bOrd.qty);
        buy.Pop();
      } else {
        orderIdMap := orderIdMap - {sOrd.id};
        SlicedOrderedIf(Buy, buy.c, sOrd.qty);
        buy.SliceTop(sOrd.qty);
        sell.Pop();
        if buy.c[0].qty == 0 {
          orderIdMap := orderIdMap - {bOrd.id};
          buy.Pop();
        }
      }
    }

    /** Trades front against front until the fronts no longer cross. */
    method MatchLoop(sellFirst: bool)
      requires Valid()
      modifies sell, buy, this`trades, this`orderIdMap
      ensures Valid() && !Crossed(sell.c, buy.c)
      ensures old(InIndex()) ==> InIndex()
      ensures old(Ordered(Sell, sell.c) && Ordered(Buy, buy.c)) ==>
        Outcome(sell.c, buy.c, trades) == Behind(old(trades), Matched(old(sell.c), old(buy.c), sellFirst))
    {
      ghost var ordered := Ordered(Sell, sell.c) && Ordered(Buy, buy.c);
      ghost var goal := Behind(trades, Matched(sell.c, buy.c, sellFirst));
      while sell.c != [] && buy.c != [] && sell.c[0].price <= buy.c[0].price
        invariant Valid()
        invariant old(InIndex()) ==> InIndex()
        invariant ordered ==> Ordered(Sell, sell.c) && Ordered(Buy, buy.c)
        invariant ordered ==> Behind(trades, Matched(sell.c, buy.c, sellFirst)) == goal
        decreases |sell.c| + |buy.c|
      {
        BehindStep(trades, sell.c, buy.c, sellFirst);
        if InIndex() {
          FrontsKeepIndex(orderIdMap, sell.c, buy.c);
        }
        if ordered {
          AfterTradeOrdered(Sell, sell.c, buy.c);
          AfterTradeOrdered(Buy, buy.c, sell.c);
        }
        TradeFronts(sellFirst);
      }
    }

    /** Matches the two books; the front that has rested longer is printed first. */
    method MatchBooks()
      requires Valid()
      modifies sell, buy, this`trades, this`orderIdMap
      ensures Valid() && !Crossed(sell.c, buy.c)
      ensures old(InIndex()) ==> InIndex()
      ensures old(Ordered(Sell, sell.c) && Ordered(Buy, buy.c)) ==>
        Outcome(sell.c, buy.c, trades) == Behind(old(trades), Matching.MatchBooks(old(sell.c), old(buy.c)))
    {
      if sell.c == [] || buy.c == [] {
        assert trades + [] == trades;
        return;
      }
      if sell.c[0].price > buy.c[0].price {
        assert trades + [] == trades;
        return;
      }
      if sell.c[0].time < buy.c[0].time {
        MatchLoop(true);
        return;
      }
      MatchLoop(false);
    }

    // ----- Immediate-or-cancel -----

    /** Prints the trade of an incoming order with the front of a book and takes it off the front. */
    method TakeFront(book: Book, id: string, px: nat, qty: nat) returns (done: bool)
      requires book.c != []
      modifies book, this`trades, this`orderIdMap
      ensures done == (old(book.c)[0].qty > qty)
      ensures trades == old(trades) + [TakeTrade(book.side, old(book.c)[0], id, px, Min(old(book.c)[0].qty, qty))]
      ensures multiset(book.c) == multiset(AfterTake(old(book.c), qty))
      ensures old(Ordered(book.side, book.c)) ==> book.c == AfterTake(old(book.c), qty)
      ensures orderIdMap == IndexAfterTake(old(orderIdMap), old(book.c), qty)
    {
      var chk := book.c[0];
      var prtQty := if chk.qty > qty then qty else chk.qty;
      trades := trades + [Trade(chk.id, chk.price, id, px, prtQty, book.side == Sell)];
      if chk.qty > qty {
        book.SliceTop(qty);
        return true;
      }
      orderIdMap := orderIdMap - {chk.id};
      book.Pop();
      return false;
    }

    /** The IOC loop's pass over a front that can be taken, with the accounts kept straight. */
    method TradeWithFront(book: Book, id: string, px: nat, qty: nat) returns (left: nat, done: bool)
      requires Valid() && (book == sell || book == buy)
      requires book.c != [] && Takes(book.side, book.c[0], px)
      requires ledgers.Of(Opposite(book.side)).unfilled >= qty
      modifies book, this`trades, this`orderIdMap, this`ledgers
      ensures Valid()
      ensures done == (old(book.c)[0].qty > qty) && left == (if done then 0 else qty - old(book.c)[0].qty)
      ensures trades == old(trades) + [TakeTrade(book.side, old(book.c)[0], id, px, qty - left)]
      ensures multiset(book.c) == multiset(AfterTake(old(book.c), qty)) && (done || |book.c| < old(|book.c|))
      ensures old(Ordered(book.side, book.c)) ==> book.c == AfterTake(old(book.c), qty)
      ensures orderIdMap == IndexAfterTake(old(orderIdMap), old(book.c), qty)
      ensures ledgers == Filled(old(ledgers), Opposite(book.side), qty - left)
    {
      ghost var c0, t0 := book.c, trades;
      ghost var opposite := if book == sell then buy else sell;
      left := if book.c[0].qty > qty then 0 else qty - book.c[0].qty;
      done := TakeFront(book, id, px, qty);
      ghost var t := TakeTrade(book.side, c0[0], id, px, qty - left);
      TakeConserves(ledgers.Of(book.side), c0, book.c, qty, t0, t);
      FillConserves(ledgers.Of(Opposite(book.side)), opposite.c, t0, t);
      ledgers := Filled(ledgers, Opposite(book.side), t.qty);
    }

    /** One pass of that loop. */
    method IocAgainstSellsPass(id: string, px: nat, qty: nat) returns (left: nat, done: bool)
      requires Valid() && ledgers.buy.unfilled >= qty
      requires sell.c != [] && Takes(Sell, sell.c[0], px)
      modifies sell, this`trades, this`orderIdMap, this`ledgers
      ensures Valid() && left <= qty && (done || |sell.c| < old(|sell.c|))
      ensures old(InIndex()) ==> InIndex()
      ensures ledgers == Filled(old(ledgers), Buy, qty - left)
      ensures old(Ordered(Sell, sell.c)) ==>
        && Ordered(Sell, sell.c)
        && TakenBehind(old(trades), Ioc(Sell, old(sell.c), id, px, qty)) ==
             if done then Taken(sell.c, trades, left) else TakenBehind(trades, Ioc(Sell, sell.c, id, px, left))
    {
      hide Indexed, Positive, Conserved, FairlyPriced, Ordered, Ioc, TakenBehind;
      TakeIndexed(orderIdMap, sell.c, buy.c, true, qty);
      IocStep(trades, Sell, sell.c, id, px, qty);
      left, done := TradeWithFront(sell, id, px, qty);
    }

    /** The IOC loop of a BUY order: takes the best sells while they are cheap enough. */
    method IocAgainstSells(id: string, px: nat, qty: nat) returns (left: nat)
      requires Valid() && ledgers.buy.unfilled >= qty
      modifies sell, this`trades, this`orderIdMap, this`ledgers
      ensures Valid() && left <= qty
      ensures old(InIndex()) ==> InIndex()
      ensures ledgers == Filled(old(ledgers), Buy, qty - left)
      ensures old(Ordered(Sell, sell.c)) ==>
        Taken(sell.c, trades, left) == TakenBehind(old(trades), Ioc(Sell, old(sell.c), id, px, qty))
    {
      hide Indexed, Positive, Conserved, FairlyPriced, Ordered, Ioc, TakenBehind;
      left := qty;
      while sell.c != [] && Takes(Sell, sell.c[0], px)
        invariant Valid() && left <= qty
        invariant old(InIndex()) ==> InIndex()
        invariant ledgers == Filled(old(ledgers), Buy, qty - left)
        invariant old(Ordered(Sell, sell.c)) ==>
          && Ordered(Sell, sell.c)
          && TakenBehind(old(trades), Ioc(Sell, old(sell.c), id, px, qty)) == TakenBehind(trades, Ioc(Sell, sell.c, id, px, left))
        decreases |sell.c|
      {
        var done: bool;
        left, done := IocAgainstSellsPass(id, px, left);
        if done {
          return;
        }
      }
      IocStops(trades, Sell, sell.c, id, px, left);
    }

    /** One pass of that loop. */
    method IocAgainstBuysPass(id: string, px: nat, qty: nat) returns (left: nat, done: bool)
      requires Valid() && ledgers.sell.unfilled >= qty
      requires buy.c != [] && Takes(Buy, buy.c[0], px)
      modifies buy, this`trades, this`orderIdMap, this`ledgers
      ensures Valid() && left <= qty && (done || |buy.c| < old(|buy.c|))
      ensures old(InIndex()) ==> InIndex()
      ensures ledgers == Filled(old(ledgers), Sell, qty - left)
      ensures old(Ordered(Buy, buy.c)) ==>
        && Ordered(Buy, buy.c)
        && TakenBehind(old(trades), Ioc(Buy, old(buy.c), id, px, qty)) ==
             if done then Taken(buy.c, trades, left) else TakenBehind(trades, Ioc(Buy, buy.c, id, px, left))
    {
      hide Indexed, Positive, Conserved, FairlyPriced, Ordered, Ioc, TakenBehind;
      TakeIndexed(orderIdMap, sell.c, buy.c, false, qty);
      IocStep(trades, Buy, buy.c, id, px, qty);
      left, done := TradeWithFront(buy, id, px, qty);
    }

    /** The IOC loop of a SELL order: takes the best buys while they are dear enough. */
    method IocAgainstBuys(id: string, px: nat, qty: nat) returns (left: nat)
      requires Valid() && ledgers.sell.unfilled >= qty
      modifies buy, this`trades, this`orderIdMap, this`ledgers
      ensures Valid() && left <= qty
      ensures old(InIndex()) ==> InIndex()
      ensures ledgers == Filled(old(ledgers), Sell, qty - left)
      ensures old(Ordered(Buy, buy.c)) ==>
        Taken(buy.c, trades, left) == TakenBehind(old(trades), Ioc(Buy, old(buy.c), id, px, qty))
    {
      hide Indexed, Positive, Conserved, FairlyPriced, Ordered, Ioc, TakenBehind;
      left := qty;
      while buy.c != [] && Takes(Buy, buy.c[0], px)
        invariant Valid() && left <= qty
        invariant old(InIndex()) ==> InIndex()
        invariant ledgers == Filled(old(ledgers), Sell, qty - left)
        invariant old(Ordered(Buy, buy.c)) ==>
          && Ordered(Buy, buy.c)
          && TakenBehind(old(trades), Ioc(Buy, old(buy.c), id, px, qty)) == TakenBehind(trades, Ioc(Buy, buy.c, id, px, left))
        decreases |buy.c|
      {
        var done: bool;
        left, done := IocAgainstBuysPass(id, px, left);
        if done {
          return;
        }
      }
      IocStops(trades, Buy, buy.c, id, px, left);
    }

    // ----- Commands -----

    /** Removes the order the map knows under `id`; `side` says which book was searched, if any. */
    method RemoveOrder(id: string) returns (found: bool, ghost side: Side, ghost removed: seq<Order>)
      requires Valid()
      modifies sell, buy, this`orderIdMap, this`ledgers
      ensures Valid()
      ensures RemovedById(old(orderIdMap), old(sell.c), old(buy.c), id, orderIdMap, sell.c, buy.c, found, side, removed)
      ensures !found ==> removed == [] && Abs() == old(Abs())
      ensures ledgers == Lost(old(ledgers), side, Total(removed))
    {
      ghost var s0, b0 := sell.c, buy.c;
      removed, side := [], Sell;
      orderIdMap := LookedUp(orderIdMap, id);
      var tag := orderIdMap[id];
      if tag == BUY_TAG {
        side := Buy;
        removed := buy.CancelOrder(id);
        RemovalConserves(ledgers.buy, b0, buy.c, removed, trades);
      } else if tag == SELL_TAG {
        removed := sell.CancelOrder(id);
        RemovalConserves(ledgers.sell, s0, sell.c, removed, trades);
      } else {
        return false, side, removed;
      }
      ledgers := Lost(ledgers, side, Total(removed));
      orderIdMap := orderIdMap - {id};
      return true, side, removed;
    }

    /** CANCEL: the order leaves its book and the index; an unknown id changes no book. */
    method Cancel(id: string) returns (found: bool, ghost side: Side, ghost removed: seq<Order>)
      requires Valid()
      modifies sell, buy, this`orderIdMap, this`ledgers
      ensures Valid()
      ensures old(InIndex()) ==> InIndex() && !Rests(multiset(sell.c), id) && !Rests(multiset(buy.c), id)
      ensures RemovedById(old(orderIdMap), old(sell.c), old(buy.c), id, orderIdMap, sell.c, buy.c, found, side, removed)
      ensures found && old(InIndex()) ==>
        |removed| == 1 && removed[0].id == id && removed[0] in old(if side == Sell then sell.c else buy.c)
      ensures !found ==> removed == [] && Abs() == old(Abs())
      ensures ledgers == Lost(old(ledgers), side, Total(removed))
    {
      hide Indexed, RemovedById;
      ghost var m, s0, b0 := orderIdMap, sell.c, buy.c;
      found, side, removed := RemoveOrder(id);
      if old(InIndex()) {
        RemovalIndexed(m, s0, b0, id, orderIdMap, sell.c, buy.c, found, side, removed);
      }
    }

    /** A good-for-day order rests, and the books are matched. */
    method EnterGfd(isBuy: bool, id: string, price: nat, qty: nat)
      requires Valid() && qty > 0
      modifies this, sell, buy
      ensures Valid()
      ensures old(InIndex()) && !Rests(old(multiset(sell.c)), id) && !Rests(old(multiset(buy.c)), id) ==> InIndex()
      ensures ledgers == Took(old(ledgers), if isBuy then Buy else Sell, qty, 0)
      ensures old(Settled(Abs())) ==> Abs() == Matching.EnterGfd(old(Abs()), Command(isBuy, false, id, price, qty))
    {
      hide Indexed, Positive, Conserved, FairlyPriced, Ordered, Settled, Matching.MatchBooks, Took;
      ghost var b := Abs();
      GfdUnfolds(b, Command(isBuy, false, id, price, qty));
      var x := Order(id, Price16(price), qty, clock);
      Rest(isBuy, x);
      if sell.c != [] && buy.c != [] {
        MatchBooks();
      }
    }

    /** Queues an order and enters it in the index. */
    method Rest(isBuy: bool, x: Order)
      requires Valid() && x.qty > 0
      modifies this`orderIdMap, this`clock, this`ledgers, sell, buy
      ensures Valid() && clock == old(clock) + 1
      ensures old(InIndex()) && !Rests(old(multiset(sell.c)), x.id) && !Rests(old(multiset(buy.c)), x.id) ==> InIndex()
      ensures ledgers == Took(old(ledgers), if isBuy then Buy else Sell, x.qty, 0)
      ensures old(Ordered(Sell, sell.c)) ==> sell.c == if isBuy then old(sell.c) else Insert(Sell, old(sell.c), x)
      ensures old(Ordered(Buy, buy.c)) ==> buy.c == if isBuy then Insert(Buy, old(buy.c), x) else old(buy.c)
    {
      ghost var s0, b0 := sell.c, buy.c;
      RestIndexed(orderIdMap, sell.c, buy.c, isBuy, x);
      clock := clock + 1;
      if isBuy {
        buy.Push(x);
        orderIdMap := orderIdMap[x.id := BUY_TAG];
        PushConserves(ledgers.buy, b0, buy.c, x, trades);
      } else {
        orderIdMap := orderIdMap[x.id := SELL_TAG];
        sell.Push(x);
        PushConserves(ledgers.sell, s0, sell.c, x, trades);
      }
      ledgers := Took(ledgers, if isBuy then Buy else Sell, x.qty, 0);
    }

    /** An immediate-or-cancel order takes what it can; `left` stays unfilled. */
    method EnterIoc(isBuy: bool, id: string, price: nat, qty: nat) returns (left: nat)
      requires Valid() && qty > 0
      modifies this`trades, this`orderIdMap, this`ledgers, sell, buy
      ensures Valid() && left <= qty && clock == old(clock)
      ensures old(InIndex()) ==> InIndex()
      ensures ledgers == Took(old(ledgers), if isBuy then Buy else Sell, qty, left)
      ensures old(Settled(Abs())) ==> Abs() == Matching.EnterIoc(old(Abs()), Command(isBuy, true, id, price, qty))
    {
      hide Indexed, Positive, FairlyPriced, Ordered, Ioc;
      ghost var b := Abs();
      SettledOrdered(b);
      ledgers := Took(ledgers, if isBuy then Buy else Sell, qty, qty);
      if isBuy {
        left := IocAgainstSells(id, Price16(price), qty);
      } else {
        left := IocAgainstBuys(id, Price16(price), qty);
      }
    }

    /** BUY and SELL: a bad price or quantity leaves everything as it was. */
    method Enter(isBuy: bool, isIoc: bool, id: string, price: Option<nat>, qty: Option<nat>) returns (good: bool, left: nat)
      requires Valid()
      modifies this, sell, buy
      ensures Valid()
      ensures good == (price.Some? && qty.Some? && qty.value > 0)
      ensures old(InIndex()) && (isIoc || (!Rests(old(multiset(sell.c)), id) && !Rests(old(multiset(buy.c)), id))) ==> InIndex()
      ensures if good then left <= qty.value && ledgers == Took(old(ledgers), if isBuy then Buy else Sell, qty.value, left)
              else ledgers == old(ledgers) && Abs() == old(Abs())
      ensures good && old(Settled(Abs())) ==>
        Abs() == Matching.Enter(old(Abs()), Command(isBuy, isIoc, id, price.value, qty.value))
    {
      hide Indexed, Positive, FairlyPriced, Conserved, Settled, Took;
      left := 0;
      if price.None? || qty.None? {
        return false, 0;
      }
      if qty.value < 1 {
        return false, 0;
      }
      if isIoc {
        left := EnterIoc(isBuy, id, price.value, qty.value);
      } else {
        EnterGfd(isBuy, id, price.value, qty.value);
      }
      return true, left;
    }

    /** MODIFY: the order is removed and entered anew under its id; with a bad price or quantity it is
        just removed, which `between` is the state after.  Any side but "SELL" buys, and an order named "IOC" comes back immediate-or-cancel. */
    method Modify(id: string, newSide: string, price: Option<nat>, qty: Option<nat>)
      returns (found: bool, good: bool, left: nat, ghost side: Side, ghost removed: seq<Order>, ghost between: Books)
      requires Valid()
      modifies this, sell, buy
      ensures Valid()
      ensures old(InIndex()) ==> InIndex()
      ensures good ==> found && price.Some? && qty.Some? && left <= qty.value
      ensures found && price.Some? && qty.Some? && qty.value > 0 ==> good
      ensures ledgers ==
        if good then Took(Lost(old(ledgers), side, Total(removed)), if newSide == "SELL" then Sell else Buy, qty.value, left)
        else Lost(old(ledgers), side, Total(removed))
      ensures !found ==> removed == [] && Abs() == old(Abs())
      ensures found && old(InIndex()) ==>
        |removed| == 1 && removed[0].id == id && removed[0] in old(if side == Sell then sell.c else buy.c)
      ensures exists m :: RemovedById(old(orderIdMap), old(sell.c), old(buy.c), id, m, between.sells, between.buys, found, side, removed)
      ensures between.trades == old(trades) && between.clock == old(clock)
      ensures good && Settled(between) ==>
        Abs() == Matching.Enter(between, Command(newSide != "SELL", id == "IOC", id, price.value, qty.value))
      ensures !good ==> Abs() == between
    {
      hide Indexed, Positive, FairlyPriced, Conserved, Took, Lost, Settled, RemovedById, Matching.Enter;
      found, side, removed := Cancel(id);
      between := Abs();
      good, left := false, 0;
      if found {
        good, left := Enter(newSide != "SELL", id == "IOC", id, price, qty);
      }
    }
  }
}

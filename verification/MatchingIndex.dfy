/** The id-to-side index kept beside the two books, on values: when it agrees with them, and how
    removing, slicing and adding orders keep it in agreement, whatever order the containers are in. */
module MatchingIndex {
  import opened Matching

  const SELL_TAG := 'S'
  const BUY_TAG := 'B'
  const NO_TAG := '\0'

  predicate Rests(book: multiset<Order>, id: string) {
    exists o :: o in book && o.id == id
  }

  /** `tag` marks exactly the ids resting in `book`. */
  ghost predicate Agrees(m: map<string, char>, tag: char, book: multiset<Order>) {
    forall id :: (id in m && m[id] == tag) <==> Rests(book, id)
  }

  /** No order rests twice and no two orders share an id. */
  ghost predicate UniqueIds(book: multiset<Order>) {
    && (forall o :: book[o] <= 1)
    && (forall o, p :: o in book && p in book && o.id == p.id ==> o == p)
  }

  /** The map says 'S' exactly for the ids of resting sells and 'B' exactly for those of resting buys. */
  lemma IndexedInLetters(m: map<string, char>, sells: multiset<Order>, buys: multiset<Order>, id: string)
    requires Indexed(m, sells, buys)
    ensures (id in m && m[id] == 'S') <==> exists o :: o in sells && o.id == id
    ensures (id in m && m[id] == 'B') <==> exists o :: o in buys && o.id == id
  {
    assert Rests(sells, id) <==> exists o :: o in sells && o.id == id;
  }

  ghost predicate Indexed(m: map<string, char>, sells: multiset<Order>, buys: multiset<Order>) {
    && UniqueIds(sells + buys)
    && Agrees(m, SELL_TAG, sells)
    && Agrees(m, BUY_TAG, buys)
  }

  /** `mine` and `theirs` are the two books in either order. */
  ghost predicate IndexedAs(m: map<string, char>, tag: char, mine: multiset<Order>, other: char, theirs: multiset<Order>) {
    tag != other && UniqueIds(mine + theirs) && Agrees(m, tag, mine) && Agrees(m, other, theirs)
  }

  lemma RemoveKeepsIndex(m: map<string, char>, tag: char, mine: multiset<Order>, other: char, theirs: multiset<Order>, o: Order)
    requires IndexedAs(m, tag, mine, other, theirs) && o in mine
    ensures IndexedAs(m - {o.id}, tag, mine - multiset{o}, other, theirs)
  {
    var r := mine - multiset{o};
    assert (mine + theirs)[o] <= 1 && o in mine + theirs;
    forall p | p in r + theirs ensures p in mine + theirs {
    }
    forall id ensures (id in m - {o.id} && (m - {o.id})[id] == tag) <==> Rests(r, id) {
      if Rests(r, id) {
        var p :| p in r && p.id == id;
        assert p in mine && p in mine + theirs;
        assert Rests(mine, id);
      }
      if id != o.id && Rests(mine, id) {
        var p :| p in mine && p.id == id;
        assert p in r;
      }
    }
    forall id ensures (id in m - {o.id} && (m - {o.id})[id] == other) <==> Rests(theirs, id) {
      if Rests(theirs, id) {
        var p :| p in theirs && p.id == id;
        assert p in mine + theirs;
      }
    }
  }

  lemma ReplaceKeepsIndex(m: map<string, char>, tag: char, mine: multiset<Order>, other: char, theirs: multiset<Order>, o: Order, p: Order)
    requires IndexedAs(m, tag, mine, other, theirs) && o in mine && o.id == p.id
    ensures IndexedAs(m, tag, mine - multiset{o} + multiset{p}, other, theirs)
  {
    var r := mine - multiset{o} + multiset{p};
    assert (mine + theirs)[o] <= 1 && o in mine + theirs;
    forall q | q in r + theirs && q != p ensures q in mine + theirs && q != o && q.id != o.id {
      assert q in mine - multiset{o} || q in theirs;
    }
    forall q ensures (r + theirs)[q] <= 1 {
      assert (mine + theirs)[q] <= 1 && (mine + theirs)[p] <= 1;
    }
    forall id ensures Rests(r, id) <==> Rests(mine, id) {
      if Rests(mine, id) {
        var q :| q in mine && q.id == id;
        assert q == o || q in r;
        assert p in r;
      }
      if Rests(r, id) {
        var q :| q in r && q.id == id;
        assert q == p || q in mine;
      }
    }
  }

  lemma AddKeepsUnique(all: multiset<Order>, x: Order)
    requires UniqueIds(all) && !Rests(all, x.id)
    ensures UniqueIds(all + multiset{x})
  {
    assert x !in all;
    assert forall q :: q in all + multiset{x} && q != x ==> q in all && q.id != x.id;
  }

  lemma RestsAfterAdding(book: multiset<Order>, x: Order, id: string)
    ensures Rests(book + multiset{x}, id) <==> id == x.id || Rests(book, id)
  {
    var r := book + multiset{x};
    assert x in r;
    if Rests(book, id) {
      var q :| q in book && q.id == id;
      assert q in r;
    }
    if Rests(r, id) {
      var q :| q in r && q.id == id;
      assert q == x || q in book;
    }
  }

  lemma AddKeepsIndex(m: map<string, char>, tag: char, mine: multiset<Order>, other: char, theirs: multiset<Order>, x: Order)
    requires IndexedAs(m, tag, mine, other, theirs) && !Rests(mine, x.id) && !Rests(theirs, x.id)
    ensures IndexedAs(m[x.id := tag], tag, mine + multiset{x}, other, theirs)
  {
    AddKeepsUnique(mine + theirs, x);
    assert (mine + multiset{x}) + theirs == (mine + theirs) + multiset{x};
    forall id ensures Rests(mine + multiset{x}, id) <==> id == x.id || Rests(mine, id) {
      RestsAfterAdding(mine, x, id);
    }
  }

  /** A look-up of an unknown id leaves a blank entry behind, which marks nothing. */
  lemma BlankKeepsIndex(m: map<string, char>, sells: multiset<Order>, buys: multiset<Order>, id: string)
    requires Indexed(m, sells, buys) && id !in m
    ensures Indexed(m[id := NO_TAG], sells, buys)
  {
    assert !Rests(sells, id) && !Rests(buys, id);
  }

  // ----- A trade between two fronts -----

  /** The index after the front of `book` traded with the front of `other`: its id goes if it was used up. */
  function IndexAfter(m: map<string, char>, book: seq<Order>, other: seq<Order>): map<string, char>
    requires book != [] && other != []
  {
    if book[0].qty > other[0].qty then m else m - {book[0].id}
  }

  lemma SlicedMultiset(book: seq<Order>, qty: nat)
    requires book != [] && qty <= book[0].qty
    ensures multiset(Sliced(book, qty)) == multiset(book) - multiset{book[0]} + multiset{Sliced(book, qty)[0]}
  {
    var r := Sliced(book, qty);
    assert book == [book[0]] + book[1..];
    assert r == [r[0]] + book[1..];
  }

  lemma TailMultiset(book: seq<Order>)
    requires book != []
    ensures multiset(book[1..]) == multiset(book) - multiset{book[0]}
  {
    assert book == [book[0]] + book[1..];
  }

  lemma TradeKeepsIndex(m: map<string, char>, tag: char, book: seq<Order>, other: char, theirs: multiset<Order>, opposite: seq<Order>)
    requires book != [] && opposite != []
    requires IndexedAs(m, tag, multiset(book), other, theirs)
    ensures IndexedAs(IndexAfter(m, book, opposite), tag, multiset(AfterTrade(book, opposite)), other, theirs)
  {
    if book[0].qty > opposite[0].qty {
      SlicedMultiset(book, opposite[0].qty);
      ReplaceKeepsIndex(m, tag, multiset(book), other, theirs, book[0], Sliced(book, opposite[0].qty)[0]);
    } else {
      TailMultiset(book);
      RemoveKeepsIndex(m, tag, multiset(book), other, theirs, book[0]);
    }
  }

  /** One trade between the fronts, both books and the index. */
  lemma FrontsKeepIndex(m: map<string, char>, sells: seq<Order>, buys: seq<Order>)
    requires sells != [] && buys != [] && Indexed(m, multiset(sells), multiset(buys))
    ensures Indexed(IndexAfter(IndexAfter(m, sells, buys), buys, sells),
                    multiset(AfterTrade(sells, buys)), multiset(AfterTrade(buys, sells)))
  {
    TradeKeepsIndex(m, SELL_TAG, sells, BUY_TAG, multiset(buys), buys);
    var s := multiset(AfterTrade(sells, buys));
    assert multiset(buys) + s == s + multiset(buys);
    TradeKeepsIndex(IndexAfter(m, sells, buys), BUY_TAG, buys, SELL_TAG, s, sells);
    assert multiset(AfterTrade(buys, sells)) + s == s + multiset(AfterTrade(buys, sells));
  }
}

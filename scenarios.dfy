/** Worked examples of the collection loop and of the sort, proved as lemmas. */
module Scenarios {
  import opened Bytes
  import opened Wrappers
  import opened Eth
  import opened Collector
  import opened ValueSort

  /** A pending transaction to `to` of value `value` with empty call data, whose hash is 32 copies of `tag`. */
  function Pending(to: Option<Address>, value: U256, tag: Byte): Transaction {
    Transaction(seq(HASH_LENGTH, _ => tag), seq(ADDRESS_LENGTH, _ => 0), to, value, [])
  }

  /** One more item inserted, on literal sequences. */
  lemma InsertFront(x: Transaction, y: Transaction, s: seq<Transaction>)
    ensures y.value > x.value ==> Insert(x, [y] + s) == [x, y] + s
    ensures y.value <= x.value ==> Insert(x, [y] + s) == [y] + Insert(x, s)
  {
    assert ([y] + s)[1..] == s;
  }

  /**
   * Values 5, 1, 3, 1 collected in that order come out as 1, 1, 3, 5, and the
   * second-collected 1 stays before the fourth-collected one.
   */
  lemma SortKeepsArrivalOrderOfTies(target: Address)
    ensures
      var t1, t2, t3, t4 := Pending(Some(target), 5, 1), Pending(Some(target), 1, 2),
                            Pending(Some(target), 3, 3), Pending(Some(target), 1, 4);
      InsertionSorted([t1, t2, t3, t4]) == [t2, t4, t3, t1]
  {
    var t1, t2, t3, t4 := Pending(Some(target), 5, 1), Pending(Some(target), 1, 2),
                          Pending(Some(target), 3, 3), Pending(Some(target), 1, 4);
    var s := [t1, t2, t3, t4];
    assert s[..3] == [t1, t2, t3] && s[..3][..2] == [t1, t2] && s[..3][..2][..1] == [t1];
    assert InsertionSorted([t1]) == [t1];
    InsertFront(t2, t1, []);
    assert InsertionSorted([t1, t2]) == [t2, t1];
    InsertFront(t3, t2, [t1]);
    InsertFront(t3, t1, []);
    assert InsertionSorted([t1, t2, t3]) == [t2, t3, t1];
    InsertFront(t4, t2, [t3, t1]);
    InsertFront(t4, t3, [t1]);
  }

  /**
   * Seven lookups of which the second, fourth and fifth find a transaction to the
   * target, and the others fail, find nothing, go elsewhere or create a contract:
   * with room for three, exactly those three are collected, in lookup order.
   */
  lemma FailuresDoNotReachTheBuffer(target: Address, a: Transaction, b: Transaction, c: Transaction,
                                    elsewhere: Transaction, creation: Transaction)
    requires Matches(a, target) && Matches(b, target) && Matches(c, target)
    requires elsewhere.to.Some? && elsewhere.to.value != target
    requires creation.to.None?
    ensures
      var outcomes := [RetrievalError, Found(a), NotFound, Found(b), Found(c), Found(elsewhere), Found(creation)];
      Take(AllAccepted(outcomes, target), 3) == [a, b, c]
  {
    var d, e := elsewhere, creation;
    assert Accepted(Found(d), target) == [] && Accepted(Found(e), target) == [];
    var p1 := [RetrievalError];
    assert AllAccepted(p1, target) == [] by {
      AllAcceptedSnoc([], RetrievalError, target);
    }
    var p2 := p1 + [Found(a)];
    assert AllAccepted(p2, target) == [a] by {
      AllAcceptedSnoc(p1, Found(a), target);
    }
    var p3 := p2 + [NotFound];
    assert AllAccepted(p3, target) == [a] by {
      AllAcceptedSnoc(p2, NotFound, target);
    }
    var p4 := p3 + [Found(b)];
    assert AllAccepted(p4, target) == [a, b] by {
      AllAcceptedSnoc(p3, Found(b), target);
    }
    var p5 := p4 + [Found(c)];
    assert AllAccepted(p5, target) == [a, b, c] by {
      AllAcceptedSnoc(p4, Found(c), target);
    }
    var p6 := p5 + [Found(d)];
    assert AllAccepted(p6, target) == [a, b, c] by {
      AllAcceptedSnoc(p5, Found(d), target);
    }
    var p7 := p6 + [Found(e)];
    assert AllAccepted(p7, target) == [a, b, c] by {
      AllAcceptedSnoc(p6, Found(e), target);
    }
    assert p7 == [RetrievalError, Found(a), NotFound, Found(b), Found(c), Found(d), Found(e)];
  }
}

/**
 * Ordering of the collected transactions by value, as `sort_by` with
 * `a.value.cmp(&b.value)` does it: ascending, and stable, so that transactions of
 * equal value stay in the order in which they were collected.
 *
 * The in-place insertion sort is specified by a functional insertion sort, and
 * sortedness, permutation and stability are proved of that function.
 */
module ValueSort {
  import opened Eth

  predicate SortedByValue(s: seq<Transaction>) {
    forall i, j :: 0 <= i < j < |s| ==> s[i].value <= s[j].value
  }

  /** The transactions of `s` whose value is `v`, in their order in `s`. */
  function WithValue(s: seq<Transaction>, v: nat): (r: seq<Transaction>)
    ensures |r| <= |s|
  {
    if s == [] then []
    else (if s[0].value == v then [s[0]] else []) + WithValue(s[1..], v)
  }

  /** Stability: the items of every value keep their relative order. */
  ghost predicate SameOrderPerValue(r: seq<Transaction>, s: seq<Transaction>) {
    forall v: nat :: WithValue(r, v) == WithValue(s, v)
  }

  /** Inserts `x` before the first item of larger value, so after every item of equal value. */
  function Insert(x: Transaction, s: seq<Transaction>): (r: seq<Transaction>)
    ensures |r| == |s| + 1
  {
    if s == [] then [x]
    else if s[0].value > x.value then [x] + s
    else [s[0]] + Insert(x, s[1..])
  }

  /** Insertion sort: the last item is inserted into the sorted rest. */
  function InsertionSorted(s: seq<Transaction>): (r: seq<Transaction>)
    ensures |r| == |s|
  {
    if s == [] then []
    else Insert(s[|s| - 1], InsertionSorted(s[..|s| - 1]))
  }

  /** When `k` splits `s` into the items of value at most `x.value` and those above it, `x` lands at `k`. */
  lemma {:induction false} InsertAt(x: Transaction, s: seq<Transaction>, k: nat)
    requires k <= |s|
    requires forall p :: 0 <= p < k ==> s[p].value <= x.value
    requires forall p :: k <= p < |s| ==> s[p].value > x.value
    ensures Insert(x, s) == s[..k] + [x] + s[k..]
  {
    if s != [] && k > 0 {
      InsertAt(x, s[1..], k - 1);
      assert s[1..][..k - 1] == s[1..k];
      assert s[..k] == [s[0]] + s[1..k];
    }
  }

  lemma {:induction false} InsertMultiset(x: Transaction, s: seq<Transaction>)
    ensures multiset(Insert(x, s)) == multiset(s) + multiset{x}
  {
    if s == [] {
    } else if s[0].value > x.value {
      assert Insert(x, s) == [x] + s;
    } else {
      var r := Insert(x, s[1..]);
      InsertMultiset(x, s[1..]);
      assert Insert(x, s) == [s[0]] + r;
      assert s == [s[0]] + s[1..];
      calc {
        multiset(Insert(x, s));
        multiset([s[0]]) + multiset(r);
        multiset([s[0]]) + multiset(s[1..]) + multiset{x};
        multiset(s) + multiset{x};
      }
    }
  }

  /** Every item of `Insert(x, s)` is at least `m` when `x` and every item of `s` are. */
  lemma {:induction false} InsertBounded(x: Transaction, s: seq<Transaction>, m: nat)
    requires m <= x.value
    requires forall p :: 0 <= p < |s| ==> m <= s[p].value
    ensures forall p :: 0 <= p < |Insert(x, s)| ==> m <= Insert(x, s)[p].value
  {
    if s != [] && s[0].value <= x.value {
      InsertBounded(x, s[1..], m);
      assert Insert(x, s) == [s[0]] + Insert(x, s[1..]);
    }
  }

  lemma {:induction false} InsertSorted(x: Transaction, s: seq<Transaction>)
    requires SortedByValue(s)
    ensures SortedByValue(Insert(x, s))
  {
    if s == [] {
    } else if s[0].value > x.value {
      assert Insert(x, s) == [x] + s;
    } else {
      var r := Insert(x, s[1..]);
      InsertSorted(x, s[1..]);
      InsertBounded(x, s[1..], s[0].value);
      assert Insert(x, s) == [s[0]] + r;
    }
  }

  lemma {:induction false} WithValueAppend(a: seq<Transaction>, b: seq<Transaction>, v: nat)
    ensures WithValue(a + b, v) == WithValue(a, v) + WithValue(b, v)
  {
    if a != [] {
      assert (a + b)[1..] == a[1..] + b;
      WithValueAppend(a[1..], b, v);
    } else {
      assert a + b == b;
    }
  }

  /** None of the items of `s` has value `v`. */
  lemma {:induction false} WithValueNone(s: seq<Transaction>, v: nat)
    requires forall p :: 0 <= p < |s| ==> s[p].value != v
    ensures WithValue(s, v) == []
  {
    if s != [] {
      WithValueNone(s[1..], v);
    }
  }

  /** Inserting into a sorted sequence puts `x` last among the items of its value. */
  lemma {:induction false} InsertWithValue(x: Transaction, s: seq<Transaction>, v: nat)
    requires SortedByValue(s)
    ensures WithValue(Insert(x, s), v) == WithValue(s, v) + (if x.value == v then [x] else [])
  {
    if s == [] {
      WithValueCons(x, [], v);
    } else if s[0].value > x.value {
      assert Insert(x, s) == [x] + s;
      WithValueCons(x, s, v);
      if x.value == v {
        SortedAbove(s, x.value);
        WithValueNone(s, v);
      }
    } else {
      assert Insert(x, s) == [s[0]] + Insert(x, s[1..]);
      assert s == [s[0]] + s[1..];
      WithValueCons(s[0], Insert(x, s[1..]), v);
      WithValueCons(s[0], s[1..], v);
      SortedTail(s);
      InsertWithValue(x, s[1..], v);
    }
  }

  lemma WithValueCons(h: Transaction, t: seq<Transaction>, v: nat)
    ensures WithValue([h] + t, v) == (if h.value == v then [h] else []) + WithValue(t, v)
  {
    assert ([h] + t)[1..] == t;
  }

  /** The items of a sorted sequence whose first value exceeds `m` all exceed `m`. */
  lemma SortedAbove(s: seq<Transaction>, m: nat)
    requires SortedByValue(s)
    requires s != [] && s[0].value > m
    ensures forall p :: 0 <= p < |s| ==> s[p].value != m
  {
    forall p | 0 <= p < |s|
      ensures s[p].value != m
    {
      if p > 0 {
        assert s[0].value <= s[p].value;
      }
    }
  }

  lemma SortedTail(s: seq<Transaction>)
    requires SortedByValue(s) && s != []
    ensures SortedByValue(s[1..])
  {
    forall i, j | 0 <= i < j < |s| - 1
      ensures s[1..][i].value <= s[1..][j].value
    {
      assert s[1..][i] == s[i + 1] && s[1..][j] == s[j + 1];
    }
  }

  /** The result of the sort is ordered by value. */
  lemma {:induction false} SortedIsSorted(s: seq<Transaction>)
    ensures SortedByValue(InsertionSorted(s))
  {
    if s != [] {
      SortedIsSorted(s[..|s| - 1]);
      InsertSorted(s[|s| - 1], InsertionSorted(s[..|s| - 1]));
    }
  }

  /** The result of the sort holds the same transactions, each as often, as its input. */
  lemma {:induction false} SortedIsPermutation(s: seq<Transaction>)
    ensures multiset(InsertionSorted(s)) == multiset(s)
  {
    if s != [] {
      var k := |s| - 1;
      var rest := InsertionSorted(s[..k]);
      calc {
        multiset(InsertionSorted(s));
        multiset(Insert(s[k], rest));
        { InsertMultiset(s[k], rest); }
        multiset(rest) + multiset{s[k]};
        { SortedIsPermutation(s[..k]); }
        multiset(s[..k]) + multiset{s[k]};
        { assert s == s[..k] + [s[k]]; }
        multiset(s);
      }
    }
  }

  /** The three properties of the sort together. */
  lemma InsertionSortedMeetsSpec(s: seq<Transaction>)
    ensures SortedByValue(InsertionSorted(s))
    ensures multiset(InsertionSorted(s)) == multiset(s)
    ensures SameOrderPerValue(InsertionSorted(s), s)
  {
    SortedIsSorted(s);
    SortedIsPermutation(s);
    SortedIsStable(s);
  }

  /** For one value `v`, the sort keeps the items of value `v` in their input order. */
  lemma {:induction false} SortedIsStableAt(s: seq<Transaction>, v: nat)
    ensures WithValue(InsertionSorted(s), v) == WithValue(s, v)
  {
    if s != [] {
      var k := |s| - 1;
      SortedIsStableAt(s[..k], v);
      SortedIsSorted(s[..k]);
      InsertWithValue(s[k], InsertionSorted(s[..k]), v);
      assert s == s[..k] + [s[k]];
      WithValueAppend(s[..k], [s[k]], v);
      assert WithValue([s[k]], v) == (if s[k].value == v then [s[k]] else []) + WithValue([], v) by {
        assert [s[k]][1..] == [];
      }
    }
  }

  /** The sort is stable: for every value, the items of that value keep their input order. */
  lemma SortedIsStable(s: seq<Transaction>)
    ensures SameOrderPerValue(InsertionSorted(s), s)
  {
    forall v: nat
      ensures WithValue(InsertionSorted(s), v) == WithValue(s, v)
    {
      SortedIsStableAt(s, v);
    }
  }

  /** In a sorted sequence, everything before an item of value at most `m` is at most `m`. */
  lemma SortedBelow(s: seq<Transaction>, j: nat, m: nat)
    requires SortedByValue(s)
    requires 0 < j <= |s| && s[j - 1].value <= m
    ensures forall p :: 0 <= p < j ==> s[p].value <= m
  {
    forall p | 0 <= p < j
      ensures s[p].value <= m
    {
      assert s[p].value <= s[j - 1].value;
    }
  }

  /** The array contents at the end of one insertion step, described on sequences. */
  lemma InsertStep(prefix: seq<Transaction>, x: Transaction, j: nat, shifted: seq<Transaction>)
    requires j <= |prefix| < |shifted|
    requires forall p :: 0 <= p < j ==> shifted[p] == prefix[p]
    requires forall p :: j < p <= |prefix| ==> shifted[p] == prefix[p - 1]
    requires forall p :: 0 <= p < j ==> prefix[p].value <= x.value
    requires forall p :: j <= p < |prefix| ==> prefix[p].value > x.value
    ensures shifted[j := x][..|prefix| + 1] == Insert(x, prefix)
  {
    InsertAt(x, prefix, j);
    var r := shifted[j := x][..|prefix| + 1];
    var e := prefix[..j] + [x] + prefix[j..];
    assert |r| == |e|;
    forall p | 0 <= p < |r|
      ensures r[p] == e[p]
    {
      if p < j {
        assert r[p] == prefix[p];
      } else if p == j {
        assert r[p] == x;
      } else {
        assert r[p] == prefix[p - 1];
      }
    }
  }

  /**
   * One step of the sort: with `a[..i]` already sorted, moves `a[i]` left past the
   * items of larger value, so that `a[..i + 1]` is `a[i]` inserted into `a[..i]`.
   */
  method InsertInto(a: array<Transaction>, i: nat)
    requires i < a.Length
    requires SortedByValue(a[..i])
    modifies a
    ensures a[..i + 1] == Insert(old(a[i]), old(a[..i]))
    ensures a[i + 1..] == old(a[i + 1..])
  {
    ghost var prefix := a[..i];
    var x := a[i];
    var j := i;
    while j > 0 && a[j - 1].value > x.value
      invariant 0 <= j <= i
      invariant forall p :: 0 <= p < j ==> a[p] == prefix[p]
      invariant forall p :: j < p <= i ==> a[p] == prefix[p - 1]
      invariant a[i + 1..] == old(a[i + 1..])
      invariant forall p :: j <= p < i ==> prefix[p].value > x.value
    {
      a[j] := a[j - 1];
      j := j - 1;
    }
    if j > 0 {
      SortedBelow(prefix, j, x.value);
    }
    InsertStep(prefix, x, j, a[..]);
    a[j] := x;
  }

  /** Sorts `a` in place by value, stably; `a[..]` becomes the insertion sort of its old contents. */
  method SortByValue(a: array<Transaction>)
    modifies a
    ensures a[..] == InsertionSorted(old(a[..]))
    ensures SortedByValue(a[..])
    ensures multiset(a[..]) == multiset(old(a[..]))
    ensures SameOrderPerValue(a[..], old(a[..]))
  {
    ghost var input := a[..];
    var i := 0;
    while i < a.Length
      invariant 0 <= i <= a.Length
      invariant a[..i] == InsertionSorted(input[..i])
      invariant a[i..] == input[i..]
    {
      assert SortedByValue(a[..i]) by {
        SortedIsSorted(input[..i]);
      }
      ghost var before := a[..];
      assert before[..i] == InsertionSorted(input[..i]);
      assert before[i] == input[i] && before[i + 1..] == input[i + 1..] by {
        assert before[i..] == input[i..];
      }
      InsertInto(a, i);
      assert a[..i + 1] == InsertionSorted(input[..i + 1]) by {
        assert input[..i + 1][..i] == input[..i];
      }
      i := i + 1;
    }
    assert input[..a.Length] == input;
    assert a[..] == a[..a.Length];
    InsertionSortedMeetsSpec(input);
  }
}

/**
 * The collection loop of the tracker. The pending-transaction subscription and the
 * per-hash `get_transaction` lookup are replaced by the finite sequence of lookup
 * outcomes they produce, in delivery order. Each found transaction whose destination
 * is the target contract is appended to the buffer; the loop stops right after the
 * append that fills the buffer, or when the outcomes run out.
 */
module Collector {
  import opened Wrappers
  import opened Eth

  /** What looking up one announced transaction hash gave. */
  datatype Resolution =
    | Found(tx: Transaction)   // Ok(Some(tx))
    | NotFound                 // Ok(None): the node does not know the hash
    | RetrievalError           // Err(_): the lookup failed; only logged

  /** How the loop ended: the buffer filled up, or the stream of hashes ended first. */
  datatype Exit = Full | SourceEnded

  /** The filter: the transaction calls the target (a contract creation never does). */
  predicate Matches(tx: Transaction, target: Address): (r: bool)
    ensures r <==> tx.to == Some(target)
    ensures tx.to.None? ==> !r
  {
    tx.to.Some? && tx.to.value == target
  }

  /** The transaction an outcome contributes: a found one that matches, and nothing otherwise. */
  function Accepted(o: Resolution, target: Address): seq<Transaction> {
    if o.Found? && Matches(o.tx, target) then [o.tx] else []
  }

  /** Every matching found transaction of `outcomes`, in order, with no cap. */
  function AllAccepted(outcomes: seq<Resolution>, target: Address): (txs: seq<Transaction>)
    ensures |txs| <= |outcomes|
    ensures forall t :: t in txs ==> Matches(t, target)
  {
    if outcomes == [] then []
    else AllAccepted(outcomes[..|outcomes| - 1], target) + Accepted(outcomes[|outcomes| - 1], target)
  }

  /** The first `n` items of `s`, or all of them when there are fewer. */
  function Take<T>(s: seq<T>, n: nat): (r: seq<T>)
    ensures |r| == if |s| < n then |s| else n
    ensures r <= s
  {
    if |s| <= n then s else s[..n]
  }

  /** Accepting distributes over concatenation of outcome sequences. */
  lemma {:induction false} AllAcceptedAppend(a: seq<Resolution>, b: seq<Resolution>, target: Address)
    ensures AllAccepted(a + b, target) == AllAccepted(a, target) + AllAccepted(b, target)
  {
    if b == [] {
      assert a + b == a;
    } else {
      var k := |b| - 1;
      assert (a + b)[..|a + b| - 1] == a + b[..k];
      AllAcceptedAppend(a, b[..k], target);
    }
  }

  /**
   * A lookup that fails, that finds nothing, or that finds a transaction to another
   * destination can be dropped from anywhere in the stream without changing what is accepted.
   */
  lemma SkipIsInvisible(a: seq<Resolution>, o: Resolution, b: seq<Resolution>, target: Address)
    requires !(o.Found? && Matches(o.tx, target))
    ensures AllAccepted(a + [o] + b, target) == AllAccepted(a + b, target)
  {
    calc {
      AllAccepted(a + [o] + b, target);
      { AllAcceptedAppend(a + [o], b, target); }
      AllAccepted(a + [o], target) + AllAccepted(b, target);
      { assert (a + [o])[..|a|] == a; }
      AllAccepted(a, target) + AllAccepted(b, target);
      { AllAcceptedAppend(a, b, target); }
      AllAccepted(a + b, target);
    }
  }

  /** One more outcome at the end of the stream. */
  lemma AllAcceptedSnoc(s: seq<Resolution>, o: Resolution, target: Address)
    ensures AllAccepted(s + [o], target) == AllAccepted(s, target) + Accepted(o, target)
  {
    assert (s + [o])[..|s|] == s;
  }

  /** One more outcome consumed. */
  lemma AllAcceptedStep(outcomes: seq<Resolution>, i: nat, target: Address)
    requires i < |outcomes|
    ensures AllAccepted(outcomes[..i + 1], target) == AllAccepted(outcomes[..i], target) + Accepted(outcomes[i], target)
  {
    assert outcomes[..i + 1] == outcomes[..i] + [outcomes[i]];
    AllAcceptedSnoc(outcomes[..i], outcomes[i], target);
  }

  /** Once a prefix of the stream has filled the buffer, the rest of the stream does not matter. */
  lemma TakeFilledPrefix(outcomes: seq<Resolution>, target: Address, capacity: nat, consumed: nat)
    requires consumed <= |outcomes|
    requires |AllAccepted(outcomes[..consumed], target)| == capacity
    ensures Take(AllAccepted(outcomes, target), capacity) == AllAccepted(outcomes[..consumed], target)
  {
    assert outcomes == outcomes[..consumed] + outcomes[consumed..];
    AllAcceptedAppend(outcomes[..consumed], outcomes[consumed..], target);
  }

  /**
   * Runs the loop over `outcomes` with a buffer of `capacity` items (the tracker uses 5).
   * Returns the buffer, how many outcomes were consumed, and why the loop ended.
   */
  method Collect(outcomes: seq<Resolution>, target: Address, capacity: nat)
    returns (transactions: seq<Transaction>, consumed: nat, exit: Exit)
    requires capacity > 0
    ensures consumed <= |outcomes|
    ensures |transactions| <= capacity
    ensures forall t :: t in transactions ==> Matches(t, target)
    ensures transactions == AllAccepted(outcomes[..consumed], target)
    ensures transactions == Take(AllAccepted(outcomes, target), capacity)
    ensures exit == Full <==> |transactions| == capacity
    ensures exit == Full ==>
      && consumed > 0
      && outcomes[consumed - 1].Found?
      && Matches(outcomes[consumed - 1].tx, target)
      && |AllAccepted(outcomes[..consumed - 1], target)| == capacity - 1
    ensures exit == SourceEnded ==> consumed == |outcomes|
  {
    transactions := [];
    consumed := 0;
    exit := SourceEnded;
    while consumed < |outcomes|
      invariant consumed <= |outcomes|
      invariant transactions == AllAccepted(outcomes[..consumed], target)
      invariant |transactions| < capacity
    {
      var next := outcomes[consumed];
      AllAcceptedStep(outcomes, consumed, target);
      consumed := consumed + 1;
      match next
      case Found(tx) =>
        if tx.to.Some? {
          if tx.to.value == target {
            transactions := transactions + [tx];
            if |transactions| >= capacity {
              exit := Full;
              break;
            }
          }
        }
      case NotFound =>
        continue;
      case RetrievalError =>
        continue;
    }
    if exit == SourceEnded {
      assert outcomes[..consumed] == outcomes;
    } else {
      TakeFilledPrefix(outcomes, target, capacity, consumed);
    }
  }
}

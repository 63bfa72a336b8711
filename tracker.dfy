/**
 * The tracker's main flow after start-up: collect up to five pending transactions
 * sent to the target contract, sort them by value, and for each one re-run the
 * transfer decoder to produce its token section of the report.
 */
module Tracker {
  import opened Bytes
  import opened Hex
  import opened Wrappers
  import opened Eth
  import opened TokenDecoder
  import opened Collector
  import opened ValueSort

  /** The tracker stops after this many matching transactions. */
  const CAPACITY: nat := 5

  /**
   * Collects from `outcomes` and sorts the buffer in place by value. The report is
   * the first five matching transactions, or all of them when the stream ends first,
   * in ascending order of value, ties in collection order. `sections` holds the
   * token section printed for each reported transaction, in report order.
   */
  method Track(outcomes: seq<Resolution>, target: Address)
    returns (report: seq<Transaction>, sections: seq<TokenSection>, exit: Exit)
    ensures |report| <= CAPACITY
    ensures exit == Full <==> |report| == CAPACITY
    ensures forall t :: t in report ==> Matches(t, target)
    ensures SortedByValue(report)
    ensures multiset(report) == multiset(Take(AllAccepted(outcomes, target), CAPACITY))
    ensures SameOrderPerValue(report, Take(AllAccepted(outcomes, target), CAPACITY))
    ensures report == InsertionSorted(Take(AllAccepted(outcomes, target), CAPACITY))
    ensures |sections| == |report|
    ensures forall i :: 0 <= i < |report| ==> sections[i] == TokenReport(report[i])
  {
    var transactions, consumed;
    transactions, consumed, exit := Collect(outcomes, target, CAPACITY);
    var buffer := new Transaction[|transactions|](i requires 0 <= i < |transactions| => transactions[i]);
    assert buffer[..] == transactions;
    SortByValue(buffer);
    report := buffer[..];
    forall t | t in report
      ensures Matches(t, target)
    {
      assert t in multiset(transactions);
    }
    sections := DecodeReport(report);
  }

  /** The token part of one transaction's report. */
  datatype TokenSection =
    | TransferDetected(token: string, amount: U256)
    | NotAvailable
    | ParsingFailed(error: TrackerError)

  /**
   * Re-decodes a reported transaction. The failure branch never occurs, because
   * the decoder never fails.
   */
  function TokenReport(tx: Transaction): (section: TokenSection)
    ensures !section.ParsingFailed?
    ensures section.TransferDetected? <==> IsTransferCall(tx.input)
    ensures section.TransferDetected? ==> |section.token| == 42 && section.token[..2] == "0x"
    ensures section.TransferDetected? ==>
      && section.token == "0x" + HexEncode(tx.input[16..36])
      && section.amount == FromBigEndian(tx.input[36..68])
  {
    match ExtractTokenInfo(tx)
    case Ok(Some(info)) => TransferDetected(info.token, info.amount)
    case Ok(None) => NotAvailable
    case Err(e) => ParsingFailed(e)
  }

  /**
   * The output loop: each transaction of the sorted report is re-decoded, in
   * report order. No section is a parsing failure, and a transfer is shown
   * exactly for the transactions whose call data is a transfer call.
   */
  method DecodeReport(report: seq<Transaction>) returns (sections: seq<TokenSection>)
    ensures |sections| == |report|
    ensures forall i :: 0 <= i < |report| ==> sections[i] == TokenReport(report[i])
    ensures forall i :: 0 <= i < |report| ==> !sections[i].ParsingFailed?
    ensures forall i :: 0 <= i < |report| ==> (sections[i].TransferDetected? <==> IsTransferCall(report[i].input))
  {
    sections := [];
    for i := 0 to |report|
      invariant |sections| == i
      invariant forall k :: 0 <= k < i ==> sections[k] == TokenReport(report[k])
    {
      sections := sections + [TokenReport(report[i])];
    }
  }
}

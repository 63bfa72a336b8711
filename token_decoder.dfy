/**
 * Recognition of the ERC-20 `transfer(address,uint256)` call (EIP-20) in a
 * transaction's call data, laid out as the Solidity Contract ABI Specification
 * ("Function Selector", "Argument Encoding") prescribes: the 4-byte selector,
 * one 32-byte slot holding the recipient left-padded to 32 bytes, one 32-byte
 * slot holding the amount as a big-endian `uint256`.
 */
module TokenDecoder {
  import opened Bytes
  import opened Hex
  import opened Wrappers
  import opened Eth

  /** The first four bytes of keccak256("transfer(address,uint256)"). */
  const TRANSFER_SELECTOR: seq<Byte> := [0xa9, 0x05, 0x9c, 0xbb]

  /** Selector, address slot and amount slot. */
  const TRANSFER_CALL_LENGTH: nat := 68

  /** Byte offsets of the recipient (the low 20 bytes of the first slot) and of the amount slot. */
  const RECIPIENT_START: nat := 16
  const AMOUNT_START: nat := 36

  /** A decoded transfer: the recipient as "0x" and 40 lower-case hex digits, and the amount. */
  datatype TokenInfo = TokenInfo(token: string, amount: U256)

  /** The tracker's error kinds; their display messages are not modelled. */
  datatype TrackerError =
    | WebSocketConnection
    | TransactionRetrieval
    | TransactionParsing(message: string)

  predicate StartsWith(data: seq<Byte>, prefix: seq<Byte>) {
    |prefix| <= |data| && data[..|prefix|] == prefix
  }

  /** The call data of a `transfer` call: the selector, and exactly 68 bytes. */
  predicate IsTransferCall(data: seq<Byte>) {
    StartsWith(data, TRANSFER_SELECTOR) && |data| == TRANSFER_CALL_LENGTH
  }

  /**
   * Decodes the transfer carried by a transaction's call data, if any. Every input
   * gives `Ok`: a call data of another shape is `Ok(None)`, never an error.
   */
  function ExtractTokenInfo(tx: Transaction): (r: Result<Option<TokenInfo>, TrackerError>)
    ensures r.Ok?
    ensures r.value.Some? <==> |tx.input| == 68 && tx.input[..4] == TRANSFER_SELECTOR
    ensures r.value.Some? ==>
      var info := r.value.value;
      && |info.token| == 42
      && info.token[..2] == "0x"
      && (forall i :: 2 <= i < 42 ==> IsLowerHexDigit(info.token[i]))
      && HexDecode(info.token[2..]) == Some(tx.input[16..36])
      && info.amount == FromBigEndian(tx.input[36..68])
  {
    var data := tx.input;
    if StartsWith(data, TRANSFER_SELECTOR) && |data| == TRANSFER_CALL_LENGTH then
      var tokenAddress := HexEncode(data[RECIPIENT_START..AMOUNT_START]);
      var tokenAmount := FromBigEndian(data[AMOUNT_START..TRANSFER_CALL_LENGTH]);
      U256Width();
      HexRoundTrip(data[RECIPIENT_START..AMOUNT_START]);
      assert ("0x" + tokenAddress)[2..] == tokenAddress;
      Ok(Some(TokenInfo("0x" + tokenAddress, tokenAmount)))
    else
      Ok(None)
  }

  /**
   * The ABI encoding of `transfer(recipient, amount)`. The ABI fills the 12 bytes
   * before the recipient with zeros; `slotPadding` leaves them free.
   */
  function EncodeTransferCall(slotPadding: seq<Byte>, recipient: Address, amount: U256): (data: seq<Byte>)
    requires |slotPadding| == 12
    ensures IsTransferCall(data)
  {
    U256Width();
    TRANSFER_SELECTOR + slotPadding + recipient + ToBigEndian(amount, 32)
  }

  /** Decoding an encoded transfer call gives back its recipient, in hex, and its amount. */
  lemma DecodeEncodedTransfer(tx: Transaction, slotPadding: seq<Byte>, recipient: Address, amount: U256)
    requires |slotPadding| == 12
    requires tx.input == EncodeTransferCall(slotPadding, recipient, amount)
    ensures ExtractTokenInfo(tx) == Ok(Some(TokenInfo("0x" + HexEncode(recipient), amount)))
  {
    U256Width();
    var data := tx.input;
    assert data[16..36] == recipient;
    assert data[36..68] == ToBigEndian(amount, 32);
    FromToBigEndian(amount, 32);
  }

  /**
   * Every decoded transfer is the encoding of its own parts: the call data is recovered
   * from the decoded amount, the recipient bytes and the padding bytes.
   */
  lemma EncodeDecodedTransfer(tx: Transaction)
    requires ExtractTokenInfo(tx).value.Some?
    ensures
      var info := ExtractTokenInfo(tx).value.value;
      tx.input == EncodeTransferCall(tx.input[4..16], tx.input[16..36], info.amount)
  {
    var data := tx.input;
    var info := ExtractTokenInfo(tx).value.value;
    U256Width();
    ToFromBigEndian(data[36..68]);
    assert ToBigEndian(info.amount, 32) == data[36..68];
    assert data == data[..4] + data[4..16] + data[16..36] + data[36..68];
  }

  /** The decoded amount re-encoded as 32 big-endian bytes is the amount slot. */
  lemma AmountRoundTrip(tx: Transaction)
    requires ExtractTokenInfo(tx).value.Some?
    ensures ExtractTokenInfo(tx).value.value.amount < Pow256(32)
    ensures ToBigEndian(ExtractTokenInfo(tx).value.value.amount, 32) == tx.input[36..68]
  {
    U256Width();
    ToFromBigEndian(tx.input[36..68]);
  }

  /** The decoded token is determined by the recipient bytes and by nothing else of the call data. */
  lemma TokenDeterminesRecipient(a: Transaction, b: Transaction)
    requires ExtractTokenInfo(a).value.Some? && ExtractTokenInfo(b).value.Some?
    ensures ExtractTokenInfo(a).value.value.token == ExtractTokenInfo(b).value.value.token
        <==> a.input[16..36] == b.input[16..36]
  {
    HexEncodeInjective(a.input[16..36], b.input[16..36]);
  }

  /** The decoder never looks at the padding bytes 4..16 of the address slot. */
  lemma ExtractIgnoresPadding(a: Transaction, b: Transaction)
    requires |a.input| == |b.input|
    requires forall i :: 0 <= i < |a.input| && !(4 <= i < 16) ==> a.input[i] == b.input[i]
    ensures ExtractTokenInfo(a) == ExtractTokenInfo(b)
  {
    if |a.input| == 68 {
      assert a.input[..4] == b.input[..4];
      assert a.input[16..36] == b.input[16..36];
      assert a.input[36..68] == b.input[36..68];
    }
  }
}

# Pending-transaction tracker for one contract, in Dafny

The tracker watches a node's stream of pending (not yet mined) Ethereum
transactions. It looks each announced hash up. It keeps the transactions whose
destination is one configured target contract and stops after the fifth. It
then sorts the collected transactions (at most five) by transferred value (ascending, stable) and reports
them. For each reported transaction it also tries to decode an ERC-20
`transfer(address,uint256)` call (EIP-20) from the call data.

This project models the three parts of `src/main.rs` that carry logic:

- **The transfer decoder** `extract_token_info` (module `TokenDecoder`, with
  `Hex` and `Bytes`). The call data is laid out as the Solidity Contract ABI
  Specification prescribes ("Function Selector", "Argument Encoding"): the
  selector `a9 05 9c bb`, a 32-byte slot holding the left-padded recipient, and
  a 32-byte big-endian amount. A transfer is recognised only when the call data
  starts with the selector and is exactly 68 bytes long. The recipient is
  rendered as `"0x"` followed by the lower-case hex of bytes 16..36. The amount
  is the big-endian value of bytes 36..68.
- **The collection loop** in `main` (module `Collector`). The subscription and
  the `get_transaction` lookups are replaced by the finite sequence of lookup
  outcomes they produce, in delivery order: `Found(tx)`, `NotFound` or
  `RetrievalError`. The loop is a method over a growing `seq` buffer. It stops
  right after the push that fills the buffer (`Exit.Full`) or when the outcomes
  run out (`Exit.SourceEnded`).
- **The ordering** `sort_by(|a, b| a.value.cmp(&b.value))` (module
  `ValueSort`). It is an in-place insertion sort on an `array<Transaction>`. The
  sort is specified by a functional insertion sort. Three facts are proved of
  that function: the result is sorted, it is a permutation of the input, and it
  is stable.

Module `Tracker` composes these as in `main`: collect with capacity 5, copy
into an array, sort in place, then re-decode each reported transaction in
report order (`Tracker.DecodeReport`, whose token sections `Tracker.Track`
returns beside the report).
Module `Scenarios` holds two worked examples, proved as lemmas. One is the tie-keeping sort of
values 5, 1, 3, 1. The other is a stream where failures, misses, other
destinations and a contract creation never reach the buffer.

Data model: `Byte` is an integer in 0..255. `Address` is a 20-byte sequence
compared byte for byte. `TxHash` is a 32-byte sequence. `U256` is a natural
below 2^256. `Transaction` keeps `hash: TxHash`, `from: Address`,
`to: Option<Address>`, `value: U256` and `input: seq<Byte>`. The hash is what
tells two pending transactions apart: two transactions with the same
destination, value and call data are still different values.

Stability is stated without tags: for every value `v`, the transactions of
value `v` appear in the output in the same order as in the input
(`ValueSort.SameOrderPerValue`). Because every transaction carries its hash,
different transactions are different values, so this says that equal-value
transactions keep their arrival order, with arrival order being their position
in the collected buffer. Only a hash delivered twice can give two equal
records, and the model cannot tell such a pair apart. In the source the two
lookups may differ in the left-out block fields, for example when the second
lookup finds the transaction mined.

## Model

| member | source | states |
|---|---|---|
| `TokenDecoder.ExtractTokenInfo` | src/main.rs:143-161 | The result is always `Ok`, never `Err`. It is `Some` exactly when the call data is 68 bytes long and starts with `a9 05 9c bb`; any other length or prefix gives `Ok(None)`. On a match the token is 42 characters: `"0x"` and then 40 lower-case hex digits that hex-decode to bytes 16..36. The amount is the big-endian value of bytes 36..68. |
| `TokenDecoder.EncodeTransferCall` | src/main.rs:148-151 | The ABI layout the decoder reads (selector, 12 padding bytes, 20 recipient bytes, 32 amount bytes) always gives call data that the decoder recognises as a transfer. |
| `TokenDecoder.DecodeEncodedTransfer` | src/main.rs:148-157 | Decoding the encoding of any recipient, padding and amount below 2^256 gives back `"0x"` plus the recipient's hex, and that amount. |
| `TokenDecoder.EncodeDecodedTransfer` | src/main.rs:148-151 | Every recognised call data is the encoding of its padding bytes, its recipient bytes and the decoded amount, so decoding loses nothing except the choice of padding. |
| `TokenDecoder.AmountRoundTrip` | src/main.rs:151 | The decoded amount is below 2^256, and encoding it back as 32 big-endian bytes reproduces bytes 36..68. |
| `TokenDecoder.TokenDeterminesRecipient` | src/main.rs:150-155 | Two recognised transfers have the same token string exactly when their recipient bytes 16..36 are equal. |
| `TokenDecoder.ExtractIgnoresPadding` | src/main.rs:148-151 | Call data of the same length that differ only in the padding bytes 4..16 decode to the same result. |
| `Hex.HexEncode` | src/main.rs:150 | The encoding has two characters per byte, each a lower-case hex digit. |
| `Hex.HexRoundTrip` | src/main.rs:150 | Hex-decoding the encoding of any byte string gives that byte string back. |
| `Hex.HexEncodeInjective` | src/main.rs:150 | Two byte strings have the same hex encoding exactly when they are equal. |
| `Bytes.FromBigEndian` | src/main.rs:151 | The big-endian value of an n-byte string is below 256^n. |
| `Bytes.FromToBigEndian` | src/main.rs:151 | Reading back the n-byte big-endian encoding of any number below 256^n gives that number. |
| `Bytes.ToFromBigEndian` | src/main.rs:151 | Encoding the value of a byte string at the same width gives that byte string back. |
| `Bytes.BigEndianInjective` | src/main.rs:151 | Two byte strings of the same width have the same value exactly when they are equal. |
| `Eth.U256Width` | src/main.rs:139 | 256^32 equals 2^256, so a 32-byte amount slot fits the `U256` amount exactly. |
| `Collector.Matches` | src/main.rs:49-53 | True exactly when `to` is present and equals the target; a contract creation never matches. |
| `Collector.AllAccepted` | src/main.rs:47-54 | Every transaction the filter lets through goes to the target: its `to` is present and equals the target. A contract creation is never accepted. No more items are accepted than there are outcomes. |
| `Collector.AllAcceptedAppend` | src/main.rs:45-69 | What the stream accepts is what its first part accepts followed by what its second part accepts, in delivery order. |
| `Collector.SkipIsInvisible` | src/main.rs:63-67 | A lookup error, a miss, or a found transaction to another destination can be removed from anywhere in the stream without changing what is accepted. Processing just continues with the next outcome. |
| `Collector.Collect` | src/main.rs:42-69 | The buffer holds at most 5 items (the capacity), and only transactions to the target. It equals the accepted items of the consumed outcomes. It is exactly the first 5 matching found transactions of the whole stream, in order, or all of them when there are fewer. The loop ends `Full` exactly when the buffer holds 5 items. In that case the last consumed outcome was the matching transaction whose push made the length 5: the loop stops right after that push. Otherwise it ends `SourceEnded` with every outcome consumed. |
| `ValueSort.SortedIsSorted` | src/main.rs:72 | The sorted sequence is in ascending order of `value`. |
| `ValueSort.SortedIsPermutation` | src/main.rs:72 | The sorted sequence has the same multiset of transactions as its input. |
| `ValueSort.SortedIsStable` | src/main.rs:72 | For every value, the transactions of that value appear in the sorted sequence in their input order. |
| `ValueSort.InsertWithValue` | src/main.rs:72 | Inserting a transaction into a sorted sequence puts it after every transaction of equal value. |
| `ValueSort.InsertInto` | src/main.rs:72 | One in-place insertion step. With the array sorted up to `i`, `a[..i + 1]` becomes the old `a[i]` inserted into the old `a[..i]`, and the rest of the array is unchanged. |
| `ValueSort.SortByValue` | src/main.rs:72 | The in-place sort leaves the array equal to the insertion sort of its old contents. The result is sorted by value, a permutation of the old contents, and stable. |
| `Tracker.Track` | src/main.rs:42-72 | The report holds at most 5 transactions, all to the target. It is sorted ascending by value. It is a stable permutation of the first 5 matching found transactions, or of all of them when the stream ends first. It ends `Full` exactly when it holds 5. Its token sections are one per reported transaction, in report order, each the re-decoding of that transaction. |
| `Tracker.TokenReport` | src/main.rs:123-131 | The parsing-error branch of the report never occurs. A transfer is reported exactly for transfer call data. Its token is 42 characters: `"0x"` plus the lower-case hex of bytes 16..36. Its amount is the big-endian value of bytes 36..68. |
| `Tracker.DecodeReport` | src/main.rs:79-81 | The output loop gives one token section per reported transaction, in report order, each the re-decoding of that transaction. None is a parsing failure, and a transfer is shown exactly for transfer call data. |
| `Scenarios.SortKeepsArrivalOrderOfTies` | src/main.rs:72 | Values 5, 1, 3, 1 collected in that order sort to 1, 1, 3, 5, and the 1 collected second stays before the 1 collected fourth. |
| `Scenarios.FailuresDoNotReachTheBuffer` | src/main.rs:45-69 | Take a stream of an error, a match, a miss, two matches, a transaction to another contract and a contract creation. With room for three it collects exactly the three matches, in order. |

## Left out

- The WebSocket connection, `Provider`, `subscribe_pending_txs` and `get_transaction` are asynchronous network I/O in the node-client library. They are replaced by the finite sequence of lookup outcomes. An unbounded stream is not modelled: the model covers its finite prefixes.
- Reading `TARGET_CONTRACT_ADDRESS` from the environment and `Address::parse` are process environment access and a foreign parser. The target is taken as an already parsed 20-byte address. The start-up errors they raise (`TransactionParsing`, and `WebSocketConnection` on connect) are not modelled beyond their constructors in `TokenDecoder.TrackerError`.
- `print_transaction_info` is left out: the rendering of each field, `format_units` ether/gwei scaling, and the "Pending", "N/A" and contract-creation strings are output formatting. Only its re-decoding of the call data is modelled (`Tracker.TokenReport`).
- The `println!`/`eprintln!` diagnostics in the loop are output only. A retrieval error is modelled as being skipped.
- `TrackerError`'s display messages and the `#[from]` conversions are library glue.
- The hard-coded Infura URL is configuration for the left-out connection.
- Gas price, gas, nonce, block number/index/hash and chain id of a transaction are only displayed, so `Transaction` leaves them out. Hash and sender are kept because they identify the transaction in the sorted output.
- Collector.Collect: capacity is a parameter `capacity > 0`. The tracker uses 5. The source's `len() >= 5` test after the push is equal to `len == capacity` for any capacity of at least 1.
- ValueSort.SortByValue: Rust's `sort_by` is a stable sort whose algorithm depends on the toolchain. Only its observable result is modelled, by an insertion sort. A stable sort's result is unique, so the result is the same.
- Hex.HexDecode accepts upper-case digits as well. It is the inverse used in the proofs, not part of the tracker.

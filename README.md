# Bid placement on auctioned items

A Dafny model of the bid-placement core of an auction site's Redis-backed
service layer (`src/services/queries/bids.ts`):

- **createBid** runs inside the item's lock. It reads the item. It then checks,
  in this order and first failure wins, that the item exists ("Item does not
  exist"), that the bid is strictly above the current price ("Bid to low") and
  that the auction has not closed ("Item closed to bid"). Closed means
  `endingAt` strictly before now: a bid at the closing millisecond passes. Next
  it refuses to write if the lock has expired ("Lock expired, can write any
  more data"). Otherwise it issues three writes together:
  - append `"<amount>:<createdAt>"` to the item's history list (`rPush`);
  - set the item's `bids`, `price` and `highestBidUserId` (`hSet`);
  - set the item's score in the price index (`zAdd`).
- **serializeHistory / deserializeHistory** write and read that token.
- **getBidHistory** turns `offset` and `count` into one `LRANGE` with indices
  counted from the tail, then deserializes each token.

Layout:

- `wrappers.dfy`: the `Option` and `Result` types.
- `codec.dfy` (module `HistoryCodec`): integer-to-text, `split`, a `parseFloat`
  on digit strings, the token format and its round trip.
- `lrange.dfy` (module `ListRange`): Redis `LRANGE` semantics. Indices are
  inclusive, negative ones count from the tail, and out-of-range ones are
  clamped. The module proves that the result lists exactly the selected
  positions, in stored order.
- `bids.dfy` (module `Bids`):
  - the store is three maps: history lists, item hashes and the price index;
  - `Validate` holds the three checks; `Commit` issues the three writes
    `RPush`, `HSetBidFields` and `ZAdd`;
  - `PlaceBid` is one call as a pure function;
  - the class `BidStore` holds the three maps as mutable fields, and its
    `CreateBid` method is proved to do exactly what `PlaceBid` says;
  - `RunSerial` and its lemmas cover bids that commit one after another under
    the lock.
- `history.dfy` (module `BidHistory`): `getBidHistory` as written, the tail
  window it is meant to return, and a corrected read (see Findings).

Modelling choices:

- **The lock's expired flag.** The source reads the flag as
  `signal.expried`, which is probably a misspelling of `expired`. The code that
  sets the flag (`withLock` in `$services/redis`) is not part of this model. If
  that code sets a property with another spelling, the check as written never
  refuses. The model takes the flag the source consults as a boolean input,
  `expired`.
- **Keys.** The history append is keyed by the requested `itemId`. The hash
  update and the index update are keyed by the snapshot's `id`. The model does
  the same.
- **Partial update.** `hSet` changes only the three named fields and keeps
  every other stored field. The new bid count is the snapshot's count plus one.
- **Page order.** A history page comes back in stored order, oldest first
  within the page. The code does not reverse it, so the model does not either.

## Model

| member | source | states |
|---|---|---|
| `Bids.Validate` | src/services/queries/bids.ts:24-37 | first failure wins: no snapshot gives ItemDoesNotExist; amount ≤ price (ties included) gives BidTooLow; a higher bid with `endingAt` strictly before now gives ItemClosed; accepted exactly when the item exists, amount > price and now ≤ endingAt |
| `Bids.MessagesDistinct` | src/services/queries/bids.ts:26-46 | the four errors are thrown with four different texts ("Item does not exist", "Bid to low", "Item closed to bid", "Lock expired, can write any more data"), so the text identifies the error |
| `Bids.UpdatedItem` | src/services/queries/bids.ts:51-55 | the hSet partial update: bids become the snapshot's count + 1, price the amount, highest bidder the user; id and endingAt are kept from the stored hash (from the snapshot when nothing is stored) |
| `Bids.RPush` | src/services/queries/bids.ts:50 | the token goes on the end of the item's list (a missing list starts empty); every other list is untouched |
| `Bids.HSetBidFields` | src/services/queries/bids.ts:51-55 | the hash of the snapshot's id becomes the partial update of what is stored there; every other hash is untouched |
| `Bids.ZAdd` | src/services/queries/bids.ts:56-59 | the item's score becomes the amount; every other member keeps its score |
| `Bids.Commit` | src/services/queries/bids.ts:49-60 | the item's history list becomes the old list plus the bid's token; the item gets bids + 1, price = amount and highest bidder = user, and its other stored fields are kept; its index score equals its new price; no other list, item or index entry changes |
| `Bids.PlaceBid` | src/services/queries/bids.ts:22-60 | success exactly when validation passes and the lock has not expired; every refusal, including the expired-lock one, leaves the store unchanged; a validation error takes precedence over LockExpired; success is the three writes of `Commit` |
| `Bids.BidStore.CreateBid` | src/services/queries/bids.ts:14-67 | the method's result and new store are exactly `PlaceBid` of the old store; the error for each failed check; on refusal all three maps are unchanged; on success exactly the three keys are rewritten; price-index consistency is preserved |
| `Bids.PlaceBidKeepsIndexConsistent` | src/services/queries/bids.ts:51-59 | if every item's index score equals its price before a call, it does after |
| `Bids.PlaceBidOnlyAppends` | src/services/queries/bids.ts:50 | every history list before a call is a prefix of that list after it |
| `Bids.FreshBidRaisesPrice` | src/services/queries/bids.ts:22-59 | with the snapshot read from the store, an accepted bid strictly raises the price to the amount, adds exactly one to bids, records the bidder, keeps endingAt, and appends exactly its token |
| `Bids.RunSerial` | src/services/queries/bids.ts:17-60 | attempts on one item run in lock order, each reading the item afresh; never more accepted bids than attempts, and a run in which the lock had expired at every attempt writes nothing |
| `Bids.SerialStepEffect` | src/services/queries/bids.ts:22-60 | one attempt with a fresh read: accepted exactly when price < amount, now ≤ endingAt and the lock has not expired; if accepted the price becomes the amount and bids and history grow by one; if refused nothing changes; consistency and other items are kept |
| `Bids.RunSerialCounts` | src/services/queries/bids.ts:17-60 | over any sequence of serialised attempts on one item: bids and history length grow by exactly the number accepted; history only grows at the end; the price never falls and rises whenever a bid is accepted; the index stays consistent; other items are untouched |
| `Bids.OrderDecidesAcceptance` | src/services/queries/bids.ts:29-32 | from price 100, bids of 120 then 130 both commit (bids + 2), but 130 then 120 refuses the second as too low (bids + 1) |
| `HistoryCodec.NatToString` | src/services/queries/bids.ts:85 | an integer's text is a non-empty string of decimal digits with no ':' and no leading zero (only 0 itself starts with '0'); with `DigitsValueOfNatToString` and `NatToStringCanonical` this makes it the unique canonical text, the one `${n}` writes |
| `HistoryCodec.NatToStringCanonical` | src/services/queries/bids.ts:85 | every digit string without a superfluous leading zero is the text of the number it denotes, so an integer has exactly one such text |
| `HistoryCodec.DigitsValueOfNatToString` | src/services/queries/bids.ts:85-89 | reading back an integer's decimal text gives the integer |
| `HistoryCodec.LeadingDigits` | src/services/queries/bids.ts:89-90 | the longest all-digit prefix of a field |
| `HistoryCodec.ParseFloat` | src/services/queries/bids.ts:89-90 | a number comes out exactly when the field starts with a digit; a missing field or one with no leading digit gives NaN; an all-digit field gives its value |
| `HistoryCodec.Split` | src/services/queries/bids.ts:87 | `split(':')` gives at least one piece and no piece contains the separator; a string without ':' is its own single piece; the first piece starts with the string's first character unless that is ':', in which case it is empty |
| `HistoryCodec.JoinOfSplit` | src/services/queries/bids.ts:87 | joining the pieces of a split with the separator gives the original string |
| `HistoryCodec.SplitOfJoin` | src/services/queries/bids.ts:87 | splitting a join of separator-free pieces gives the pieces back |
| `HistoryCodec.Serialize` | src/services/queries/bids.ts:85 | serializeHistory: the token holds exactly one ':', every other character is a decimal digit, and it starts with a digit; `RoundTrip` is its inverse |
| `HistoryCodec.Deserialize` | src/services/queries/bids.ts:86-92 | deserializeHistory: the amount is a number exactly when the token starts with a digit; a token without ':' has a NaN createdAt; a token starting with ':' has a NaN amount |
| `HistoryCodec.SerializeFields` | src/services/queries/bids.ts:85-87 | a token splits into exactly two fields: the amount's digits and the instant's digits |
| `HistoryCodec.RoundTrip` | src/services/queries/bids.ts:85-92 | deserializing a serialized bid gives back exactly its amount and its creation instant |
| `HistoryCodec.SerializeInjective` | src/services/queries/bids.ts:85 | two bids with the same token have the same amount and the same instant |
| `ListRange.LRange` | src/services/queries/bids.ts:76-80 | at most the list's length; element j is the list's element at the first selected position plus j; a position is in the result exactly when it lies between the tail-resolved start and end |
| `BidHistory.TailWindow` | src/services/queries/bids.ts:74-75 | the intended page: exactly count entries when at least count remain before the offset, otherwise every remaining entry (none once offset reaches the length); ends at the entry offset places before the tail; in stored order |
| `BidHistory.DeserializeAll` | src/services/queries/bids.ts:81 | `range.map(deserializeHistory)`: same length, and each record is the deserialization of the token at the same position |
| `BidHistory.GetBidHistory` | src/services/queries/bids.ts:69-82 | the read as written, with the defaults offset 0 and count 10: never longer than the history, every record is the deserialization of one of the item's stored tokens, and an offset at or past the length gives nothing; `GetBidHistoryWindow` pins down the page |
| `BidHistory.RangeReadsLog` | src/services/queries/bids.ts:76-81 | every record of a deserialized LRANGE is the deserialization of one of the list's tokens |
| `BidHistory.LRangeIsTailWindow` | src/services/queries/bids.ts:74-80 | the LRANGE getBidHistory sends, from `-offset - count` to `-1 - offset`, selects exactly the tail window whenever offset or count is positive |
| `BidHistory.GetBidHistoryWindow` | src/services/queries/bids.ts:69-82 | for non-negative offset and count, not both zero, the read returns exactly the tail window, each token deserialized, in stored order |
| `BidHistory.WindowAtMostCount` | src/services/queries/bids.ts:74-80 | with a positive count the LRANGE window never holds more than count entries, for any offset |
| `BidHistory.GetBidHistoryZeroCountReturnsAll` | src/services/queries/bids.ts:71-80 | as written, offset 0 and count 0 on a non-empty history return the whole history |
| `BidHistory.GetBidHistoryCorrected` | src/services/queries/bids.ts:69-82 | corrected read: for all non-negative offset and count it returns the tail window, and never more than count records |

## Left out

- `withLock`: lease acquisition, renewal, expiry and release live in `$services/redis`, which is not part of this model. Their point is mutual exclusion across processes. The lock enters the model only as the `expired` flag read before the writes. `RunSerial` assumes that lock-protected bids on one item run one after another.
- `pause(5000)` and `setTimeout`: delays with no logical effect.
- `getItem` (`src/services/queries/items`) is not part of this model. `CreateBid` takes the snapshot it returns as an `Option<Item>`. `RunSerial` and `FreshBidRaisesPrice` read that snapshot from the store's own item map.
- The Redis client and the real atomicity of the three commands sent by `Promise.all` are left out. The commit is one state transition. A partial failure of the batch is not modelled.
- Luxon `DateTime` and `DateTime.now()`: instants are integer milliseconds, and "now" is a parameter.
- Floating point: amounts and instants are non-negative integers (`nat`), prices are integers; a negative or fractional amount is not an input of the model, although `createBid` accepts one and, for a negative amount, refuses it as "Bid to low" whenever the price is non-negative. Above 2^53 JavaScript numbers lose precision, and from 10^21 upward a template string prints exponent notation. Neither is modelled.
- `HistoryCodec.ParseFloat`: reads only the unsigned decimal integer at the head of a field. Leading whitespace, a sign, a fraction, an exponent and `Infinity` are not modelled: `serializeHistory` would write a fraction (`10.5`) or an exponent (`1e-7`) for such a number, but because the model's amounts and instants are non-negative integers (see Floating point), its writer never produces them.
- `Bids.UpdatedItem`: when no hash is stored under the snapshot's id, the model builds the whole record from the snapshot, whereas Redis `hSet` would create a hash holding only `bids`, `price` and `highestBidUserId`. Under the lock, a present snapshot means the hash exists, so this case arises only for a snapshot that disagrees with the store.
- The return value of a successful call (the three command replies) is modelled as `Ok(())`.
- The commented-out WATCH / `executeIsolated` variant (src/services/queries/bids.ts:63-66).
- The sorted-set ordering of the price index: the model keeps only each member's score.

## Findings

| source | as written | input that shows it | evidently intended | confidence | as-written member | corrected member |
|---|---|---|---|---|---|---|
| src/services/queries/bids.ts:74-80 | the start index is `-offset - count`; for offset 0 and count 0 this is 0 (JavaScript's -0 is sent as "0"), not a tail index, so `LRANGE key 0 -1` returns the whole list | `getBidHistory(id, 0, 0)` on an item with at least one bid returns every bid | a request for zero records returns none | high for the arithmetic; not executed | `BidHistory.GetBidHistoryZeroCountReturnsAll` | `BidHistory.GetBidHistoryCorrected` |

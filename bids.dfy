/**
 * Placing a bid on an auctioned item (createBid in src/services/queries/bids.ts).
 *
 * The body runs inside the item's lock. It reads the item, runs three checks in
 * a fixed order (the item exists, the bid beats the current price, the auction
 * has not closed), refuses to write once the lock has expired, and otherwise
 * issues three writes together: append the bid's token to the item's history
 * list, update the item's bids / price / highest bidder, and set the item's
 * score in the global price index.
 *
 * The store is three maps, one per kind of key the writes touch. The pure
 * function PlaceBid says what one call does to them; the class BidStore holds
 * them as mutable state and its method CreateBid is proved to do exactly that.
 */
module Bids {
  import opened Wrappers
  import opened HistoryCodec

  type Id = string

  /** The fields of an item's hash that createBid reads or writes. `endingAt` is in epoch milliseconds. */
  datatype Item = Item(id: Id, price: int, bids: nat, endingAt: int, highestBidUserId: Id)

  /** The arguments of a bid: which item, who bids, how much, and when (epoch milliseconds). */
  datatype BidAttrs = BidAttrs(itemId: Id, userId: Id, amount: nat, createdAt: nat)

  /** The errors createBid throws, in the order its checks can throw them. */
  datatype BidError = ItemDoesNotExist | BidTooLow | ItemClosed | LockExpired

  /** The message each error is thrown with. */
  function Message(e: BidError): string
  {
    match e
    case ItemDoesNotExist => "Item does not exist"
    case BidTooLow => "Bid to low"
    case ItemClosed => "Item closed to bid"
    case LockExpired => "Lock expired, can write any more data"
  }

  /** Each error is thrown with its own text, so a caller can tell them apart by message. */
  lemma MessagesDistinct(e1: BidError, e2: BidError)
    requires Message(e1) == Message(e2)
    ensures e1 == e2
  {
  }

  /**
   * The state createBid writes: bid-history lists by item, item hashes by item,
   * and the price index (a sorted set whose members are item ids and whose
   * scores are prices).
   */
  datatype Store = Store(history: map<Id, seq<string>>, items: map<Id, Item>, priceIndex: map<Id, int>)

  /** A list key that holds nothing reads as the empty list. */
  function ListAt(history: map<Id, seq<string>>, id: Id): seq<string>
  {
    if id in history then history[id] else []
  }

  /** What getItem returns for `id` when it reads the store itself. */
  function Lookup(items: map<Id, Item>, id: Id): Option<Item>
  {
    if id in items then Some(items[id]) else None
  }

  // ---------------------------------------------------------------------------
  // Validation
  // ---------------------------------------------------------------------------

  /** `endingAt.diff(now).toMillis()`: how long before closing `now` is (negative once past). */
  function MillisUntilClose(endingAt: int, now: int): int
  {
    endingAt - now
  }

  /**
   * The three checks on the item snapshot, first failure wins; `None` when the
   * bid may be committed.
   */
  function Validate(snapshot: Option<Item>, amount: int, now: int): (r: Option<BidError>)
    ensures r.None? <==> snapshot.Some? && snapshot.value.price < amount && now <= snapshot.value.endingAt
    ensures r == Some(ItemDoesNotExist) <==> snapshot.None?
    ensures r == Some(BidTooLow) <==> snapshot.Some? && amount <= snapshot.value.price
    ensures r == Some(ItemClosed) <==>
              snapshot.Some? && snapshot.value.price < amount && snapshot.value.endingAt < now
    ensures r != Some(LockExpired)
  {
    if snapshot.None? then Some(ItemDoesNotExist)
    else if snapshot.value.price >= amount then Some(BidTooLow)
    else if MillisUntilClose(snapshot.value.endingAt, now) < 0 then Some(ItemClosed)
    else None
  }

  // ---------------------------------------------------------------------------
  // The commit and one whole call
  // ---------------------------------------------------------------------------

  /**
   * hSet on the item's hash: bids, price and highest bidder take their new
   * values, every other field keeps what is stored (the snapshot's own value
   * when nothing is stored under that key). The new bid count is the
   * snapshot's count plus one.
   */
  function UpdatedItem(stored: Option<Item>, item: Item, attrs: BidAttrs): (u: Item)
    ensures u.bids == item.bids + 1 && u.price == attrs.amount && u.highestBidUserId == attrs.userId
    ensures stored.Some? ==> u.id == stored.value.id && u.endingAt == stored.value.endingAt
    ensures stored.None? ==> u.id == item.id && u.endingAt == item.endingAt
  {
    var base := if stored.Some? then stored.value else item;
    base.(bids := item.bids + 1, price := attrs.amount, highestBidUserId := attrs.userId)
  }

  /** rPush: `token` goes on the end of the list at `key`; every other list is untouched. */
  function RPush(history: map<Id, seq<string>>, key: Id, token: string): (h: map<Id, seq<string>>)
    ensures ListAt(h, key) == ListAt(history, key) + [token]
    ensures h.Keys == history.Keys + {key}
    ensures forall id :: id != key ==> ListAt(h, id) == ListAt(history, id)
  {
    history[key := ListAt(history, key) + [token]]
  }

  /** hSet of the three bid fields on the hash of `item.id`; every other hash is untouched. */
  function HSetBidFields(items: map<Id, Item>, item: Item, attrs: BidAttrs): (m: map<Id, Item>)
    ensures m.Keys == items.Keys + {item.id}
    ensures m[item.id] == UpdatedItem(Lookup(items, item.id), item, attrs)
    ensures forall id :: id in items && id != item.id ==> m[id] == items[id]
  {
    items[item.id := UpdatedItem(Lookup(items, item.id), item, attrs)]
  }

  /** zAdd: `member` gets `score` in the sorted set; every other member keeps its score. */
  function ZAdd(index: map<Id, int>, member: Id, score: int): (z: map<Id, int>)
    ensures z.Keys == index.Keys + {member}
    ensures z[member] == score
    ensures forall id :: id in index && id != member ==> z[id] == index[id]
  {
    index[member := score]
  }

  /**
   * The three writes issued together: rPush onto the history list of
   * `attrs.itemId`, hSet on the hash of `item.id`, zAdd of `item.id` into the
   * price index. Nothing else changes.
   */
  function Commit(s: Store, attrs: BidAttrs, item: Item): (t: Store)
    ensures ListAt(t.history, attrs.itemId) ==
              ListAt(s.history, attrs.itemId) + [Serialize(attrs.amount, attrs.createdAt)]
    ensures t.history.Keys == s.history.Keys + {attrs.itemId}
    ensures forall id :: id != attrs.itemId ==> ListAt(t.history, id) == ListAt(s.history, id)
    ensures t.items.Keys == s.items.Keys + {item.id}
    ensures t.items[item.id].bids == item.bids + 1
    ensures t.items[item.id].price == attrs.amount
    ensures t.items[item.id].highestBidUserId == attrs.userId
    ensures item.id in s.items ==>
              t.items[item.id].id == s.items[item.id].id && t.items[item.id].endingAt == s.items[item.id].endingAt
    ensures forall id :: id in s.items && id != item.id ==> t.items[id] == s.items[id]
    ensures t.priceIndex.Keys == s.priceIndex.Keys + {item.id}
    ensures t.priceIndex[item.id] == t.items[item.id].price
    ensures forall id :: id in s.priceIndex && id != item.id ==> t.priceIndex[id] == s.priceIndex[id]
  {
    Store(RPush(s.history, attrs.itemId, Serialize(attrs.amount, attrs.createdAt)),
          HSetBidFields(s.items, item, attrs),
          ZAdd(s.priceIndex, item.id, attrs.amount))
  }

  /** The result of one createBid call and the store it leaves behind. */
  datatype Outcome = Outcome(result: Result<(), BidError>, store: Store)

  /**
   * One call of createBid's locked body on store `s`: `snapshot` is the item
   * getItem returned, `now` the current time in milliseconds, `expired` the
   * lock's expired flag as read just before the writes.
   */
  function PlaceBid(s: Store, attrs: BidAttrs, snapshot: Option<Item>, now: int, expired: bool): (o: Outcome)
    ensures o.result.Ok? <==> Validate(snapshot, attrs.amount, now).None? && !expired
    ensures o.result.Err? ==> o.store == s
    ensures Validate(snapshot, attrs.amount, now).Some? ==>
              o.result == Err(Validate(snapshot, attrs.amount, now).value)
    ensures Validate(snapshot, attrs.amount, now).None? && expired ==> o.result == Err(LockExpired)
    ensures o.result.Ok? ==> o.store == Commit(s, attrs, snapshot.value)
  {
    match Validate(snapshot, attrs.amount, now)
    case Some(e) => Outcome(Err(e), s)
    case None =>
      if expired then Outcome(Err(LockExpired), s)
      else Outcome(Ok(()), Commit(s, attrs, snapshot.value))
  }

  // ---------------------------------------------------------------------------
  // Invariants of the store and what one call does to them
  // ---------------------------------------------------------------------------

  /** Every item's score in the price index equals its price. */
  predicate IndexConsistent(s: Store)
  {
    forall id :: id in s.items ==> id in s.priceIndex && s.priceIndex[id] == s.items[id].price
  }

  /** Every item hash is stored under its own id (what getItem relies on). */
  predicate WellKeyed(s: Store)
  {
    forall id :: id in s.items ==> s.items[id].id == id
  }

  /** A call never breaks the agreement of the price index with the items' prices. */
  lemma PlaceBidKeepsIndexConsistent(s: Store, attrs: BidAttrs, snapshot: Option<Item>, now: int, expired: bool)
    requires IndexConsistent(s)
    ensures IndexConsistent(PlaceBid(s, attrs, snapshot, now, expired).store)
  {
  }

  /** Every history list after a call extends the list before it: entries are only appended. */
  lemma PlaceBidOnlyAppends(s: Store, attrs: BidAttrs, snapshot: Option<Item>, now: int, expired: bool, id: Id)
    ensures ListAt(s.history, id) <= ListAt(PlaceBid(s, attrs, snapshot, now, expired).store.history, id)
  {
  }

  /**
   * With the snapshot read from the store under the lock, an accepted bid
   * strictly raises the item's price to the bid, counts one more bid, records
   * the bidder and appends exactly the bid's token; other items and other
   * history lists do not change.
   */
  lemma FreshBidRaisesPrice(s: Store, attrs: BidAttrs, now: int, expired: bool)
    requires WellKeyed(s)
    ensures var o := PlaceBid(s, attrs, Lookup(s.items, attrs.itemId), now, expired);
            o.result.Ok? ==>
              && attrs.itemId in s.items && attrs.itemId in o.store.items
              && o.store.items[attrs.itemId].price == attrs.amount > s.items[attrs.itemId].price
              && o.store.items[attrs.itemId].bids == s.items[attrs.itemId].bids + 1
              && o.store.items[attrs.itemId].highestBidUserId == attrs.userId
              && o.store.items[attrs.itemId].endingAt == s.items[attrs.itemId].endingAt
              && ListAt(o.store.history, attrs.itemId) ==
                 ListAt(s.history, attrs.itemId) + [Serialize(attrs.amount, attrs.createdAt)]
              && WellKeyed(o.store)
  {
  }

  // ---------------------------------------------------------------------------
  // Bids for one item committed one after another under its lock
  // ---------------------------------------------------------------------------

  /** One bid attempt on a fixed item: bidder, amount, creation time, the clock and the lock flag. */
  datatype Attempt = Attempt(userId: Id, amount: nat, createdAt: nat, now: int, expired: bool)

  /** One serialised attempt on `itemId`, with the item read afresh from the store. */
  function SerialStep(s: Store, itemId: Id, a: Attempt): Outcome
  {
    PlaceBid(s, BidAttrs(itemId, a.userId, a.amount, a.createdAt), Lookup(s.items, itemId), a.now, a.expired)
  }

  /**
   * Attempts on `itemId` run in lock order; each reads the item afresh from the
   * store left by the previous one. Returns the final store and the number of
   * accepted bids.
   */
  function RunSerial(s: Store, itemId: Id, attempts: seq<Attempt>): (r: (Store, nat))
    ensures r.1 <= |attempts|
    ensures (forall i :: 0 <= i < |attempts| ==> attempts[i].expired) ==> r == (s, 0)
    decreases |attempts|
  {
    if attempts == [] then (s, 0)
    else
      var o := SerialStep(s, itemId, attempts[0]);
      var rest := RunSerial(o.store, itemId, attempts[1..]);
      (rest.0, rest.1 + if o.result.Ok? then 1 else 0)
  }

  /** What one serialised attempt does to the item it is about, and to nothing else. */
  lemma SerialStepEffect(s: Store, itemId: Id, a: Attempt)
    requires WellKeyed(s) && IndexConsistent(s) && itemId in s.items
    ensures var o := SerialStep(s, itemId, a);
            var k: nat := if o.result.Ok? then 1 else 0;
            && WellKeyed(o.store) && IndexConsistent(o.store)
            && itemId in o.store.items
            && o.store.items[itemId].bids == s.items[itemId].bids + k
            && |ListAt(o.store.history, itemId)| == |ListAt(s.history, itemId)| + k
            && ListAt(s.history, itemId) <= ListAt(o.store.history, itemId)
            && (o.result.Ok? <==> s.items[itemId].price < a.amount && a.now <= s.items[itemId].endingAt && !a.expired)
            && (o.result.Ok? ==> o.store.items[itemId].price == a.amount > s.items[itemId].price)
            && o.store.items[itemId].endingAt == s.items[itemId].endingAt
            && (o.result.Err? ==> o.store == s)
            && o.store.items.Keys == s.items.Keys
            && (forall id :: id in s.items && id != itemId ==> o.store.items[id] == s.items[id])
  {
    var attrs := BidAttrs(itemId, a.userId, a.amount, a.createdAt);
    PlaceBidKeepsIndexConsistent(s, attrs, Lookup(s.items, itemId), a.now, a.expired);
    FreshBidRaisesPrice(s, attrs, a.now, a.expired);
  }

  /**
   * Serialised bidding on one item: each accepted bid counts exactly once in
   * `bids` and in the history list, the price never falls and rises with every
   * accepted bid, the price index keeps agreeing with the prices, and other
   * items are untouched.
   */
  lemma {:induction false} RunSerialCounts(s: Store, itemId: Id, attempts: seq<Attempt>)
    requires WellKeyed(s) && IndexConsistent(s) && itemId in s.items
    ensures var t, n := RunSerial(s, itemId, attempts).0, RunSerial(s, itemId, attempts).1;
            && n <= |attempts|
            && WellKeyed(t) && IndexConsistent(t)
            && itemId in t.items
            && t.items[itemId].bids == s.items[itemId].bids + n
            && |ListAt(t.history, itemId)| == |ListAt(s.history, itemId)| + n
            && ListAt(s.history, itemId) <= ListAt(t.history, itemId)
            && t.items[itemId].price >= s.items[itemId].price
            && (n > 0 ==> t.items[itemId].price > s.items[itemId].price)
            && t.items.Keys == s.items.Keys
            && (forall id :: id in s.items && id != itemId ==> t.items[id] == s.items[id])
    decreases |attempts|
  {
    if attempts != [] {
      var o := SerialStep(s, itemId, attempts[0]);
      SerialStepEffect(s, itemId, attempts[0]);
      RunSerialCounts(o.store, itemId, attempts[1..]);
    }
  }

  /** A run of two attempts is the two steps one after the other. */
  lemma RunSerialTwo(s: Store, itemId: Id, a: Attempt, b: Attempt)
    ensures var o1 := SerialStep(s, itemId, a);
            var o2 := SerialStep(o1.store, itemId, b);
            RunSerial(s, itemId, [a, b]) ==
              (o2.store, (if o1.result.Ok? then 1 else 0) + (if o2.result.Ok? then 1 else 0))
  {
    assert [a, b][1..] == [b];
    assert [b][1..] == [];
  }

  /**
   * Two open bids of 120 and 130 on an item priced 100: committed low then
   * high both succeed (two more bids, price 130); committed high then low the
   * second is refused as too low (one more bid, price 130).
   */
  lemma OrderDecidesAcceptance(s: Store, itemId: Id, u1: Id, u2: Id, t: nat, now: int)
    requires WellKeyed(s) && IndexConsistent(s) && itemId in s.items
    requires s.items[itemId].price == 100 && s.items[itemId].endingAt >= now
    ensures var r := RunSerial(s, itemId, [Attempt(u1, 120, t, now, false), Attempt(u2, 130, t, now, false)]);
            r.1 == 2 && itemId in r.0.items && r.0.items[itemId].price == 130 && r.0.items[itemId].bids == s.items[itemId].bids + 2
    ensures var r := RunSerial(s, itemId, [Attempt(u2, 130, t, now, false), Attempt(u1, 120, t, now, false)]);
            r.1 == 1 && itemId in r.0.items && r.0.items[itemId].price == 130 && r.0.items[itemId].bids == s.items[itemId].bids + 1
  {
    var a120 := Attempt(u1, 120, t, now, false);
    var a130 := Attempt(u2, 130, t, now, false);
    var low := SerialStep(s, itemId, a120);
    SerialStepEffect(s, itemId, a120);
    SerialStepEffect(low.store, itemId, a130);
    RunSerialTwo(s, itemId, a120, a130);
    var high := SerialStep(s, itemId, a130);
    SerialStepEffect(s, itemId, a130);
    SerialStepEffect(high.store, itemId, a120);
    RunSerialTwo(s, itemId, a130, a120);
  }

  // ---------------------------------------------------------------------------
  // The store as mutable state
  // ---------------------------------------------------------------------------

  /** The three keyspaces createBid writes, updated in place. */
  class BidStore {
    var history: map<Id, seq<string>>
    var items: map<Id, Item>
    var priceIndex: map<Id, int>

    function State(): Store
      reads this
    {
      Store(history, items, priceIndex)
    }

    constructor (initial: Store)
      ensures State() == initial
    {
      history, items, priceIndex := initial.history, initial.items, initial.priceIndex;
    }

    /**
     * createBid's body under the lock. Each refusal returns before any write;
     * an accepted bid makes the three writes in one step.
     */
    method CreateBid(attrs: BidAttrs, snapshot: Option<Item>, now: int, expired: bool)
      returns (r: Result<(), BidError>)
      modifies this
      ensures Outcome(r, State()) == PlaceBid(old(State()), attrs, snapshot, now, expired)
      ensures snapshot.None? ==> r == Err(ItemDoesNotExist)
      ensures snapshot.Some? && attrs.amount <= snapshot.value.price ==> r == Err(BidTooLow)
      ensures snapshot.Some? && snapshot.value.price < attrs.amount && snapshot.value.endingAt < now ==>
                r == Err(ItemClosed)
      ensures Validate(snapshot, attrs.amount, now).None? ==> r == if expired then Err(LockExpired) else Ok(())
      ensures r.Err? ==> history == old(history) && items == old(items) && priceIndex == old(priceIndex)
      ensures r.Ok? ==>
                && history == old(history)[attrs.itemId := ListAt(old(history), attrs.itemId) + [Serialize(attrs.amount, attrs.createdAt)]]
                && items == old(items)[snapshot.value.id := UpdatedItem(Lookup(old(items), snapshot.value.id), snapshot.value, attrs)]
                && priceIndex == old(priceIndex)[snapshot.value.id := attrs.amount]
      ensures old(IndexConsistent(State())) ==> IndexConsistent(State())
    {
      if snapshot.None? {
        return Err(ItemDoesNotExist);
      }
      var item := snapshot.value;
      if item.price >= attrs.amount {
        return Err(BidTooLow);
      }
      if MillisUntilClose(item.endingAt, now) < 0 {
        return Err(ItemClosed);
      }
      var serialized := Serialize(attrs.amount, attrs.createdAt);
      if expired {
        return Err(LockExpired);
      }
      history := RPush(history, attrs.itemId, serialized);
      items := HSetBidFields(items, item, attrs);
      priceIndex := ZAdd(priceIndex, item.id, attrs.amount);
      r := Ok(());
    }
  }
}

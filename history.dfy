/**
 * Reading a page of an item's bid history (getBidHistory). The history list is
 * stored oldest first; a page is asked for by `offset` (how many of the newest
 * entries to skip) and `count` (how many to return), turned into one LRANGE
 * with indices counted from the tail, and each returned token is deserialized.
 */
module BidHistory {
  import opened HistoryCodec
  import opened ListRange
  import opened Bids

  function Max(a: int, b: int): int
  {
    if a >= b then a else b
  }

  /** `range.map(deserializeHistory)`. */
  function DeserializeAll(tokens: seq<string>): (recs: seq<BidRecord>)
    ensures |recs| == |tokens|
    ensures forall i :: 0 <= i < |tokens| ==> recs[i] == Deserialize(tokens[i])
  {
    seq(|tokens|, i requires 0 <= i < |tokens| => Deserialize(tokens[i]))
  }

  /**
   * The page a caller means: the contiguous block of `log` that ends `offset`
   * entries before the tail and holds `count` entries, or fewer where the log
   * runs out, in stored order.
   */
  function TailWindow<T>(log: seq<T>, offset: nat, count: nat): (w: seq<T>)
    ensures |w| <= count
    ensures offset >= |log| ==> w == []
    ensures offset < |log| && count > 0 ==> w != [] && w[|w| - 1] == log[|log| - 1 - offset]
    ensures |w| == if count <= |log| - offset then count else Max(0, |log| - offset)
    ensures forall j :: 0 <= j < |w| ==> w[j] == log[|log| - offset - |w| + j]
  {
    log[Max(0, |log| - offset - count)..Max(0, |log| - offset)]
  }

  /**
   * getBidHistory as written: LRANGE from `-offset - count` to `-1 - offset`,
   * then deserialize. The page is never longer than the history, every record
   * is read from the history's own tokens, and an offset at or past the length
   * gives nothing.
   */
  function GetBidHistory(history: map<Id, seq<string>>, itemId: Id, offset: int := 0, count: int := 10): (r: seq<BidRecord>)
    ensures |r| <= |ListAt(history, itemId)|
    ensures offset >= |ListAt(history, itemId)| ==> r == []
    ensures forall j :: 0 <= j < |r| ==> r[j] in DeserializeAll(ListAt(history, itemId))
  {
    var startIndex := -1 * offset - count;
    var endIndex := -1 - offset;
    RangeReadsLog(ListAt(history, itemId), startIndex, endIndex);
    DeserializeAll(LRange(ListAt(history, itemId), startIndex, endIndex))
  }

  /** Every record of a deserialized LRANGE comes from one of the list's own tokens. */
  lemma RangeReadsLog(log: seq<string>, start: int, end: int)
    ensures var r := DeserializeAll(LRange(log, start, end));
            forall j :: 0 <= j < |r| ==> r[j] in DeserializeAll(log)
  {
    var r := DeserializeAll(LRange(log, start, end));
    forall j | 0 <= j < |r|
      ensures r[j] in DeserializeAll(log)
    {
      assert r[j] == DeserializeAll(log)[FirstPosition(|log|, start) + j];
    }
  }

  /** The LRANGE getBidHistory sends selects exactly the tail window, unless offset and count are both 0. */
  lemma LRangeIsTailWindow(log: seq<string>, offset: nat, count: nat)
    requires offset > 0 || count > 0
    ensures LRange(log, -1 * offset - count, -1 - offset) == TailWindow(log, offset, count)
  {
    var len := |log|;
    var start, end := -1 * offset - count, -1 - offset;
    var r := LRange(log, start, end);
    var w := TailWindow(log, offset, count);
    var first := FirstPosition(len, start);
    assert first == Max(0, len - offset - count);
    if r != [] {
      assert Selected(len, start, end, first + |r| - 1);
    }
    if first + |r| < Max(0, len - offset) {
      assert Selected(len, start, end, first + |r|);
    }
    assert |r| == |w|;
    forall j | 0 <= j < |r|
      ensures r[j] == w[j]
    {
    }
  }

  /**
   * For any page that asks for something (a positive offset or a positive
   * count) the read returns exactly the tail window, deserialized: at most
   * `count` records, nothing once `offset` reaches the length, stored order.
   */
  lemma GetBidHistoryWindow(history: map<Id, seq<string>>, itemId: Id, offset: nat, count: nat)
    requires offset > 0 || count > 0
    ensures GetBidHistory(history, itemId, offset, count) ==
            DeserializeAll(TailWindow(ListAt(history, itemId), offset, count))
  {
    LRangeIsTailWindow(ListAt(history, itemId), offset, count);
  }

  /**
   * An offset of 0 with a count of 0 makes the start index 0 rather than a
   * negative one, so the read returns the whole history instead of nothing.
   */
  lemma GetBidHistoryZeroCountReturnsAll(history: map<Id, seq<string>>, itemId: Id)
    requires ListAt(history, itemId) != []
    ensures GetBidHistory(history, itemId, 0, 0) == DeserializeAll(ListAt(history, itemId))
    ensures |GetBidHistory(history, itemId, 0, 0)| > 0
  {
  }

  /**
   * getBidHistory with a count that asks for nothing answered by nothing; every
   * other request is read as written. For every non-negative offset and count
   * the result is the tail window, and never longer than `count`.
   */
  function GetBidHistoryCorrected(history: map<Id, seq<string>>, itemId: Id, offset: int, count: int): (r: seq<BidRecord>)
    ensures 0 <= offset && 0 <= count ==> r == DeserializeAll(TailWindow(ListAt(history, itemId), offset, count))
    ensures |r| <= Max(count, 0)
  {
    if count <= 0 then []
    else
      WindowAtMostCount(ListAt(history, itemId), offset, count);
      if offset >= 0 then GetBidHistoryWindow(history, itemId, offset, count); GetBidHistory(history, itemId, offset, count)
      else GetBidHistory(history, itemId, offset, count)
  }

  /** A positive count bounds the LRANGE window, whatever the offset. */
  lemma WindowAtMostCount(log: seq<string>, offset: int, count: int)
    requires count > 0
    ensures |LRange(log, -1 * offset - count, -1 - offset)| <= count
  {
  }
}

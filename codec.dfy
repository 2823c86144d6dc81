/**
 * The bid-history line format. Every accepted bid is stored in the item's
 * history list as one text token "<amount>:<createdAt>", the amount and the
 * creation instant (epoch milliseconds) written as JavaScript writes an integer
 * into a template string. Reading a token back splits it at ':' and hands the
 * first two fields to parseFloat.
 */
module HistoryCodec {
  import opened Wrappers

  /** A JavaScript number as parseFloat produces it in this model: a non-negative
      integer, or NaN when the field has no number at its head (or is missing). */
  datatype Num = Finite(n: nat) | NaN

  /** What deserializeHistory returns for one stored token. */
  datatype BidRecord = BidRecord(amount: Num, createdAt: Num)

  const Separator: char := ':'

  predicate IsDigit(c: char) { '0' <= c <= '9' }

  predicate AllDigits(s: string) { forall i :: 0 <= i < |s| ==> IsDigit(s[i]) }

  function DigitChar(d: nat): (c: char)
    requires d < 10
    ensures IsDigit(c) && c as int - '0' as int == d
  {
    ('0' as int + d) as char
  }

  function DigitValue(c: char): nat
    requires IsDigit(c)
  {
    c as int - '0' as int
  }

  // ---------------------------------------------------------------------------
  // Numbers to text and back
  // ---------------------------------------------------------------------------

  /** The decimal text of `n`, as a template string renders an integer: no leading zero except for 0 itself. */
  function NatToString(n: nat): (s: string)
    ensures s != [] && AllDigits(s)
    ensures Separator !in s
    ensures s[0] == '0' ==> s == "0"
  {
    if n < 10 then [DigitChar(n)] else NatToString(n / 10) + [DigitChar(n % 10)]
  }

  /** The value of a string of decimal digits, most significant first. */
  function DigitsValue(s: string): nat
    requires AllDigits(s)
  {
    if s == [] then 0 else DigitsValue(s[..|s| - 1]) * 10 + DigitValue(s[|s| - 1])
  }

  /** Reading back the decimal text of a number gives the number. */
  lemma {:induction false} DigitsValueOfNatToString(n: nat)
    ensures DigitsValue(NatToString(n)) == n
  {
    if n >= 10 {
      var s := NatToString(n);
      assert s[..|s| - 1] == NatToString(n / 10);
      DigitsValueOfNatToString(n / 10);
    }
  }

  /** A digit string that does not start with '0' denotes a positive number. */
  lemma {:induction false} DigitsValuePositive(s: string)
    requires s != [] && AllDigits(s) && s[0] != '0'
    ensures DigitsValue(s) > 0
  {
    if |s| > 1 {
      DigitsValuePositive(s[..|s| - 1]);
    }
  }

  /**
   * The decimal text is the only canonical one: every digit string without a
   * superfluous leading zero is the text of the number it denotes.
   */
  lemma {:induction false} NatToStringCanonical(s: string)
    requires s != [] && AllDigits(s)
    requires s[0] == '0' ==> s == "0"
    ensures NatToString(DigitsValue(s)) == s
  {
    if |s| > 1 {
      var p := s[..|s| - 1];
      DigitsValuePositive(p);
      NatToStringCanonical(p);
      var n := DigitsValue(s);
      assert n / 10 == DigitsValue(p) && n % 10 == DigitValue(s[|s| - 1]);
      assert s == p + [s[|s| - 1]];
    } else {
      assert DigitsValue(s) == DigitValue(s[0]);
    }
  }

  /** The longest prefix of `s` made only of decimal digits. */
  function LeadingDigits(s: string): (d: string)
    ensures AllDigits(d) && d <= s
    ensures |d| < |s| ==> !IsDigit(s[|d|])
  {
    if s != [] && IsDigit(s[0]) then [s[0]] + LeadingDigits(s[1..]) else []
  }

  /**
   * parseFloat on a field of the split token: `None` is the `undefined` a missing
   * field destructures to. A number is read from the leading digits of the field;
   * with none there the result is NaN.
   */
  function ParseFloat(field: Option<string>): (x: Num)
    ensures x.Finite? <==> field.Some? && field.value != [] && IsDigit(field.value[0])
    ensures field.Some? && field.value != [] && AllDigits(field.value) ==>
              x == Finite(DigitsValue(field.value))
  {
    match field
    case None => NaN
    case Some(s) =>
      var d := LeadingDigits(s);
      assert AllDigits(s) ==> |d| == |s| && d == s;
      if d == [] then NaN else Finite(DigitsValue(d))
  }

  // ---------------------------------------------------------------------------
  // String.prototype.split with a one-character separator, and its inverse
  // ---------------------------------------------------------------------------

  /** `s.split(sep)`: the pieces between separators, always at least one. */
  function Split(s: string, sep: char): (parts: seq<string>)
    ensures |parts| >= 1
    ensures forall i :: 0 <= i < |parts| ==> sep !in parts[i]
    ensures s != [] && s[0] != sep ==> parts[0] != [] && parts[0][0] == s[0]
    ensures s != [] && s[0] == sep ==> parts[0] == [] && |parts| >= 2
    ensures sep !in s ==> parts == [s]
  {
    if s == [] then [[]]
    else
      var rest := Split(s[1..], sep);
      if s[0] == sep then [[]] + rest
      else
        assert sep !in s ==> sep !in s[1..] && [s[0]] + s[1..] == s;
        [[s[0]] + rest[0]] + rest[1..]
  }

  /** `parts.join(sep)`. */
  function Join(parts: seq<string>, sep: char): string
    requires |parts| >= 1
  {
    if |parts| == 1 then parts[0] else parts[0] + [sep] + Join(parts[1..], sep)
  }

  /** Splitting loses nothing: joining the pieces gives the string back. */
  lemma {:induction false} JoinOfSplit(s: string, sep: char)
    ensures Join(Split(s, sep), sep) == s
  {
    if s != [] {
      var rest := Split(s[1..], sep);
      JoinOfSplit(s[1..], sep);
      if s[0] == sep {
        assert Split(s, sep) == [[]] + rest;
        assert ([[]] + rest)[1..] == rest;
      } else {
        var parts := Split(s, sep);
        assert parts == [[s[0]] + rest[0]] + rest[1..];
        if |rest| > 1 {
          assert parts[1..] == rest[1..];
        }
      }
    }
  }

  /** Splitting a string that starts with a separator-free piece `a` and a separator. */
  lemma {:induction false} SplitAfterPiece(a: string, t: string, sep: char)
    requires sep !in a
    ensures Split(a + [sep] + t, sep) == [a] + Split(t, sep)
  {
    if a == [] {
      assert [] + [sep] + t == [sep] + t;
      assert ([sep] + t)[1..] == t;
    } else {
      var s := a + [sep] + t;
      assert s[0] == a[0] && s[1..] == a[1..] + [sep] + t;
      SplitAfterPiece(a[1..], t, sep);
      assert [a[0]] + a[1..] == a;
    }
  }

  /** Splitting undoes joining, for pieces that hold no separator. */
  lemma {:induction false} SplitOfJoin(parts: seq<string>, sep: char)
    requires |parts| >= 1
    requires forall i :: 0 <= i < |parts| ==> sep !in parts[i]
    ensures Split(Join(parts, sep), sep) == parts
  {
    if |parts| > 1 {
      SplitOfJoin(parts[1..], sep);
      SplitAfterPiece(parts[0], Join(parts[1..], sep), sep);
      assert [parts[0]] + parts[1..] == parts;
    }
  }

  // ---------------------------------------------------------------------------
  // The history token
  // ---------------------------------------------------------------------------

  /** serializeHistory: the token "<amount>:<createdAt>". */
  function Serialize(amount: nat, createdAt: nat): (token: string)
    ensures forall i :: 0 <= i < |token| ==> token[i] == Separator || IsDigit(token[i])
    ensures multiset(token)[Separator] == 1
    ensures token != [] && IsDigit(token[0])
  {
    NatToString(amount) + [Separator] + NatToString(createdAt)
  }

  /** deserializeHistory: split at ':' and parse the first two fields; further fields are ignored. */
  function Deserialize(stored: string): (rec: BidRecord)
    ensures rec.amount.Finite? <==> stored != [] && IsDigit(stored[0])
    ensures Separator !in stored ==> rec.createdAt == NaN
    ensures stored != [] && stored[0] == Separator ==> rec.amount == NaN
  {
    var parts := Split(stored, Separator);
    BidRecord(ParseFloat(Some(parts[0])),
              ParseFloat(if |parts| >= 2 then Some(parts[1]) else None))
  }

  /** A token holds exactly two fields: the amount's digits and the instant's digits. */
  lemma SerializeFields(amount: nat, createdAt: nat)
    ensures Split(Serialize(amount, createdAt), Separator) == [NatToString(amount), NatToString(createdAt)]
  {
    var parts := [NatToString(amount), NatToString(createdAt)];
    assert Join(parts[1..], Separator) == NatToString(createdAt);
    assert Join(parts, Separator) == Serialize(amount, createdAt);
    SplitOfJoin(parts, Separator);
  }

  /** Reading a written token gives back exactly the amount and instant written. */
  lemma RoundTrip(amount: nat, createdAt: nat)
    ensures Deserialize(Serialize(amount, createdAt)) == BidRecord(Finite(amount), Finite(createdAt))
  {
    SerializeFields(amount, createdAt);
    DigitsValueOfNatToString(amount);
    DigitsValueOfNatToString(createdAt);
  }

  /** Two different bids never share a token. */
  lemma SerializeInjective(a1: nat, t1: nat, a2: nat, t2: nat)
    requires Serialize(a1, t1) == Serialize(a2, t2)
    ensures a1 == a2 && t1 == t2
  {
    RoundTrip(a1, t1);
    RoundTrip(a2, t2);
  }
}

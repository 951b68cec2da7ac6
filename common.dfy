/** Small pieces of Python's str and list behaviour that the bus-pass models
    rely on: an optional value, ASCII digits and lower-casing, str.join /
    str.split on one separator character, list.index / str.rfind, and the
    decimal rendering that %d and %0Nd produce. */
module Common {

  datatype Option<+T> = None | Some(value: T)

  predicate IsDigit(c: char) {
    '0' <= c <= '9'
  }

  predicate AllDigits(s: string) {
    forall i :: 0 <= i < |s| ==> IsDigit(s[i])
  }

  /** str.lower() restricted to ASCII letters. */
  function LowerChar(c: char): (r: char)
    ensures 'A' <= c <= 'Z' ==> 'a' <= r <= 'z' && r as int == c as int + 32
    ensures !('A' <= c <= 'Z') ==> r == c
  {
    if 'A' <= c <= 'Z' then (c as int + 32) as char else c
  }

  function Lower(s: string): (r: string)
    ensures |r| == |s|
    ensures forall i :: 0 <= i < |s| ==> r[i] == LowerChar(s[i])
  {
    if s == [] then [] else [LowerChar(s[0])] + Lower(s[1..])
  }

  /** The first position of x in s (list.index / str.find), if any. */
  function IndexOf<T(==)>(s: seq<T>, x: T): (r: Option<nat>)
    ensures r.None? <==> x !in s
    ensures r.Some? ==> r.value < |s| && s[r.value] == x && x !in s[..r.value]
  {
    if s == [] then None
    else if s[0] == x then Some(0)
    else match IndexOf(s[1..], x)
      case None => None
      case Some(k) => Some(k + 1)
  }

  /** The last position of x in s (str.rfind), if any. */
  function LastIndexOf<T(==)>(s: seq<T>, x: T): (r: Option<nat>)
    ensures r.None? <==> x !in s
    ensures r.Some? ==> r.value < |s| && s[r.value] == x && x !in s[r.value + 1..]
  {
    if s == [] then None
    else if s[|s| - 1] == x then Some(|s| - 1)
    else LastIndexOf(s[..|s| - 1], x)
  }

  /** str.rfind(x): the last position of x in s, or -1. */
  function RFind(s: string, x: char): (r: int)
    ensures -1 <= r < |s|
    ensures r >= 0 ==> s[r] == x
  {
    match LastIndexOf(s, x)
    case None => -1
    case Some(k) => k
  }

  /** Nothing after the position rfind reports is x. */
  lemma RFindIsLast(s: string, x: char)
    ensures forall i :: RFind(s, x) < i < |s| ==> s[i] != x
  {
    match LastIndexOf(s, x)
    case None =>
    case Some(k) =>
      assert forall i :: k < i < |s| ==> s[i] == s[k + 1..][i - k - 1];
  }

  /** sep.join(fields). */
  function Join(fields: seq<string>, sep: char): string
  {
    if |fields| == 0 then ""
    else if |fields| == 1 then fields[0]
    else fields[0] + [sep] + Join(fields[1..], sep)
  }

  /** s.split(sep): the pieces between the occurrences of sep, which Join
      puts back together. */
  function Split(s: string, sep: char): (r: seq<string>)
    ensures |r| >= 1
    ensures forall i :: 0 <= i < |r| ==> sep !in r[i]
    ensures Join(r, sep) == s
    decreases |s|
  {
    match IndexOf(s, sep)
    case None => [s]
    case Some(k) =>
      var rest := Split(s[k + 1..], sep);
      assert s == s[..k] + [sep] + s[k + 1..];
      [s[..k]] + rest
  }

  /** Splitting a string that starts with a separator-free piece and a
      separator yields that piece first. */
  lemma SplitFirst(head: string, sep: char, tail: string)
    requires sep !in head
    ensures Split(head + [sep] + tail, sep) == [head] + Split(tail, sep)
  {
    var s := head + [sep] + tail;
    var k := IndexOf(s, sep);
    assert s[|head|] == sep;
    assert s[..|head|] == head;
    assert sep in s;
    assert k.Some? && k.value == |head|;
    assert s[|head| + 1..] == tail;
  }

  /** Joining separator-free fields and splitting again gives the fields
      back: the number of pieces is the number of fields. */
  lemma {:induction false} SplitJoin(fields: seq<string>, sep: char)
    requires |fields| >= 1
    requires forall i :: 0 <= i < |fields| ==> sep !in fields[i]
    ensures Split(Join(fields, sep), sep) == fields
  {
    if |fields| == 1 {
      assert IndexOf(fields[0], sep).None?;
    } else {
      SplitJoin(fields[1..], sep);
      SplitFirst(fields[0], sep, Join(fields[1..], sep));
      assert fields == [fields[0]] + fields[1..];
    }
  }

  function DigitChar(d: nat): (c: char)
    requires d < 10
    ensures IsDigit(c) && c as int - '0' as int == d
  {
    ('0' as int + d) as char
  }

  /** The value of a string of decimal digits (int(s) for digit strings). */
  function DigitsValue(s: string): nat
    requires AllDigits(s)
  {
    if s == [] then 0
    else DigitsValue(s[..|s| - 1]) * 10 + (s[|s| - 1] as int - '0' as int)
  }

  /** str(n) for a natural number. */
  function NatToString(n: nat): (r: string)
    ensures |r| >= 1 && AllDigits(r)
  {
    if n < 10 then [DigitChar(n)] else NatToString(n / 10) + [DigitChar(n % 10)]
  }

  lemma {:induction false} NatToStringValue(n: nat)
    ensures DigitsValue(NatToString(n)) == n
  {
    if n >= 10 {
      var s := NatToString(n);
      NatToStringValue(n / 10);
      assert s[..|s| - 1] == NatToString(n / 10);
    }
  }

  function Pow10(w: nat): (p: nat)
    ensures p >= 1
  {
    if w == 0 then 1 else 10 * Pow10(w - 1)
  }

  lemma {:induction false} NatToStringLength(n: nat, w: nat)
    requires 1 <= w && n < Pow10(w)
    ensures |NatToString(n)| <= w
  {
    if n >= 10 {
      assert w >= 2;
      NatToStringLength(n / 10, w - 1);
    }
  }

  function Zeros(k: nat): (r: string)
    ensures |r| == k && forall i :: 0 <= i < k ==> r[i] == '0'
  {
    if k == 0 then "" else "0" + Zeros(k - 1)
  }

  /** The "%0wd" rendering of n: str(n), left-padded with zeros to width w. */
  function ZeroPad(n: nat, w: nat): (r: string)
    ensures AllDigits(r) && |r| >= w
    ensures 1 <= w && n < Pow10(w) ==> |r| == w
  {
    var s := NatToString(n);
    assert 1 <= w && n < Pow10(w) ==> |s| <= w by {
      if 1 <= w && n < Pow10(w) {
        NatToStringLength(n, w);
      }
    }
    if |s| >= w then s else Zeros(w - |s|) + s
  }

  lemma {:induction false} LeadingZerosValue(k: nat, s: string)
    requires AllDigits(s)
    ensures AllDigits(Zeros(k) + s) && DigitsValue(Zeros(k) + s) == DigitsValue(s)
  {
    var t := Zeros(k) + s;
    if s == [] {
      if k > 0 {
        LeadingZerosValue(k - 1, s);
        assert Zeros(k - 1) + s == Zeros(k - 1);
        assert t[..|t| - 1] == Zeros(k - 1);
      }
    } else {
      LeadingZerosValue(k, s[..|s| - 1]);
      assert t[..|t| - 1] == Zeros(k) + s[..|s| - 1];
    }
  }

  /** Padding with zeros keeps the value: int("%0wd" % n) == n. */
  lemma {:induction false} ZeroPadValue(n: nat, w: nat)
    ensures DigitsValue(ZeroPad(n, w)) == n
  {
    var s := NatToString(n);
    NatToStringValue(n);
    if |s| < w {
      LeadingZerosValue(w - |s|, s);
      assert ZeroPad(n, w) == Zeros(w - |s|) + s;
    } else {
      assert ZeroPad(n, w) == s;
    }
  }
}

/** Identifiers as the byte arrays the peers exchange: their order, their conversion to numbers and to
    hexadecimal text, and arithmetic on them. */
module ByteKeys {
  import opened Basics
  import opened IdRing

  type Key = k: seq<Byte> | |k| == KEY_LEN witness Zeros(KEY_LEN)

  function Zeros(n: nat): (z: seq<Byte>)
    ensures |z| == n && forall i | 0 <= i < n :: z[i] == 0
  {
    seq(n, i => 0)
  }

  /** --- numbers --- */

  /** The number written big-endian. */
  function Value(s: seq<Byte>): nat {
    if s == [] then 0 else Value(s[..|s| - 1]) * 256 + s[|s| - 1]
  }

  /** The shortest big-endian writing. */
  function Digits(x: nat): seq<Byte> {
    if x == 0 then [] else Digits(x / 256) + [x % 256]
  }

  lemma {:induction false} ValueOfDigits(x: nat)
    ensures Value(Digits(x)) == x
  {
    if x > 0 {
      ValueOfDigits(x / 256);
      assert Digits(x)[..|Digits(x)| - 1] == Digits(x / 256);
    }
  }

  lemma {:induction false} LeadingZeros(n: nat, s: seq<Byte>)
    ensures Value(Zeros(n) + s) == Value(s)
  {
    if s != [] {
      assert (Zeros(n) + s)[..n + |s| - 1] == Zeros(n) + s[..|s| - 1];
      LeadingZeros(n, s[..|s| - 1]);
    } else if n > 0 {
      assert Zeros(n) + s == Zeros(n) && Zeros(n)[..n - 1] == Zeros(n - 1) + s;
      LeadingZeros(n - 1, s);
    }
  }

  /** A writing of given length is determined by its value, and covers the values below 2^(8 length). */
  lemma {:induction false} ValueBounded(s: seq<Byte>)
    ensures Value(s) < Pow2(8 * |s|)
  {
    if s != [] {
      ValueBounded(s[..|s| - 1]);
      Eight(|s| - 1);
    }
  }

  lemma Eight(n: nat)
    ensures Pow2(8 * (n + 1)) == 256 * Pow2(8 * n)
  {
    var e := 8 * n;
    assert Pow2(e + 4) == 16 * Pow2(e) by {
      assert Pow2(e + 2) == 4 * Pow2(e);
    }
    assert Pow2(e + 8) == 16 * Pow2(e + 4) by {
      assert Pow2(e + 6) == 4 * Pow2(e + 4);
    }
  }

  lemma {:induction false} ValueIsInjective(s: seq<Byte>, t: seq<Byte>)
    requires |s| == |t| && Value(s) == Value(t)
    ensures s == t
  {
    if s != [] {
      var n := |s| - 1;
      ValueIsInjective(s[..n], t[..n]);
      assert s == s[..n] + [s[n]] && t == t[..n] + [t[n]];
    }
  }

  /** No leading zero: the shortest writing fits wherever any writing does. */
  lemma {:induction false} DigitsFit(x: nat, n: nat)
    ensures |Digits(x)| <= n <==> x < Pow2(8 * n)
  {
    if x > 0 && n > 0 {
      DigitsFit(x / 256, n - 1);
      Eight(n - 1);
    }
  }

  function BytesToBigInt(k: Key): (x: nat)
    ensures x < N
  {
    ValueBounded(k);
    Value(k)
  }

  function Abs(x: int): nat {
    if x < 0 then -x else x
  }

  /** The number's magnitude, padded on the left; an error when it needs more bytes than a key has. */
  function ToBytes(x: int): Option<Key> {
    var digits := Digits(Abs(x));
    if |digits| > KEY_LEN then None else Some(Zeros(KEY_LEN - |digits|) + digits)
  }

  method BigIntToBytes(number: int) returns (r: Option<Key>)
    ensures r == ToBytes(number)
  {
    var newByteArray := Digits(Abs(number));
    var arraylen := |newByteArray|;
    if arraylen > KEY_LEN {
      return None;
    }
    var byteArray := new Byte[KEY_LEN](i => 0);
    for i := 0 to arraylen
      invariant byteArray[..] == Zeros(KEY_LEN - arraylen) + newByteArray[..i] + Zeros(arraylen - i)
    {
      byteArray[KEY_LEN - arraylen + i] := newByteArray[i];
    }
    assert byteArray[..] == Zeros(KEY_LEN - arraylen) + newByteArray;
    r := Some(byteArray[..]);
  }

  /** Conversion succeeds exactly below 2^M in magnitude, and each way undoes the other. */
  lemma ConversionRoundTrips(x: int, k: Key)
    ensures ToBytes(x).Some? <==> Abs(x) < N
    ensures ToBytes(x).Some? ==> BytesToBigInt(ToBytes(x).value) == Abs(x)
    ensures ToBytes(BytesToBigInt(k)) == Some(k)
  {
    DigitsFit(Abs(x), KEY_LEN);
    if ToBytes(x).Some? {
      ValueOfDigits(Abs(x));
      LeadingZeros(KEY_LEN - |Digits(Abs(x))|, Digits(Abs(x)));
    }
    var y := BytesToBigInt(k);
    DigitsFit(y, KEY_LEN);
    ValueOfDigits(y);
    LeadingZeros(KEY_LEN - |Digits(y)|, Digits(y));
    ValueIsInjective(ToBytes(y).value, k);
  }

  /** --- order --- */

  /** Lexicographic comparison: -1, 0 or 1, the shorter of two equal beginnings first. */
  function Compare(a: seq<Byte>, b: seq<Byte>): int {
    if a == [] then (if b == [] then 0 else -1)
    else if b == [] then 1
    else if a[0] < b[0] then -1
    else if a[0] > b[0] then 1
    else Compare(a[1..], b[1..])
  }

  lemma {:induction false} ValueFromFront(s: seq<Byte>)
    requires s != []
    ensures Value(s) == s[0] * Pow2(8 * (|s| - 1)) + Value(s[1..])
  {
    var n := |s| - 1;
    if n > 0 {
      ValueFromFront(s[..n]);
      assert s[1..][..n - 1] == s[..n][1..];
      Eight(n - 1);
      assert Pow2(8 * n) == Pow2(8 * (n - 1)) * 256;
      TimesTwice(s[0], Pow2(8 * (n - 1)));
    }
  }

  lemma TimesTwice(a: nat, p: nat)
    ensures a * p * 256 == a * (p * 256)
  {
  }

  /** On keys, lexicographic order is numeric order. */
  lemma {:induction false} CompareIsNumeric(a: seq<Byte>, b: seq<Byte>)
    requires |a| == |b|
    ensures Compare(a, b) < 0 <==> Value(a) < Value(b)
    ensures Compare(a, b) == 0 <==> Value(a) == Value(b)
  {
    if a != [] {
      ValueFromFront(a);
      ValueFromFront(b);
      ValueBounded(a[1..]);
      ValueBounded(b[1..]);
      var p := Pow2(8 * (|a| - 1));
      if a[0] < b[0] {
        Leads(a[0], b[0], p);
      } else if a[0] > b[0] {
        Leads(b[0], a[0], p);
      } else {
        CompareIsNumeric(a[1..], b[1..]);
      }
    }
  }

  lemma Leads(c: nat, d: nat, p: nat)
    requires c < d
    ensures c * p + p <= d * p
  {
    TimesAtLeast(d - c, p);
    assert d * p == c * p + (d - c) * p;
  }

  lemma TimesAtLeast(d: nat, p: nat)
    requires d >= 1
    ensures d * p >= p
  {
    assert d * p == p + (d - 1) * p;
  }

  predicate IsStrictlyBetween(target: Key, lower: Key, upper: Key) {
    if Compare(lower, upper) < 0 then Compare(target, lower) > 0 && Compare(target, upper) < 0
    else Compare(target, lower) > 0 || Compare(target, upper) < 0
  }

  predicate IsBetweenLeftOpenRightClosed(target: Key, lower: Key, upper: Key) {
    if Compare(lower, upper) < 0 then Compare(target, lower) > 0 && Compare(target, upper) <= 0
    else Compare(target, lower) > 0 || Compare(target, upper) <= 0
  }

  predicate IsBetweenLeftClosedRightOpen(target: Key, lower: Key, upper: Key) {
    if Compare(lower, upper) < 0 then Compare(target, lower) >= 0 && Compare(target, upper) < 0
    else Compare(target, lower) >= 0 || Compare(target, upper) < 0
  }

  function IdOf(k: Key): Id {
    BytesToBigInt(k)
  }

  /** The interval tests on byte arrays are the cyclic ones: walking clockwise from lower, target comes
      before (or not after) upper, where equal ends leave the whole circle. */
  lemma ByteIntervalsAreCyclic(t: Key, lo: Key, hi: Key)
    ensures IsStrictlyBetween(t, lo, hi) <==> 0 < Dist(IdOf(lo), IdOf(t)) < Span(IdOf(lo), IdOf(hi))
    ensures IsBetweenLeftOpenRightClosed(t, lo, hi) <==> Span(IdOf(lo), IdOf(t)) <= Span(IdOf(lo), IdOf(hi))
    ensures IsBetweenLeftClosedRightOpen(t, lo, hi) <==> Dist(IdOf(lo), IdOf(t)) < Span(IdOf(lo), IdOf(hi))
    ensures IsStrictlyBetween(t, lo, hi) <==> StrictlyBetween(IdOf(t), IdOf(lo), IdOf(hi))
    ensures IsBetweenLeftOpenRightClosed(t, lo, hi) <==> LeftOpenRightClosed(IdOf(t), IdOf(lo), IdOf(hi))
    ensures IsBetweenLeftClosedRightOpen(t, lo, hi) <==> LeftClosedRightOpen(IdOf(t), IdOf(lo), IdOf(hi))
  {
    CompareIsNumeric(lo, hi);
    CompareIsNumeric(t, lo);
    CompareIsNumeric(t, hi);
    IntervalsAreCyclic(IdOf(t), IdOf(lo), IdOf(hi));
  }

  /** --- arithmetic --- */

  function AddIntToBytes(k: Key, v: int): Option<Key> {
    ToBytes((BytesToBigInt(k) + v) % N)
  }

  function SubtractIntFromBytes(k: Key, v: int): Option<Key> {
    ToBytes((BytesToBigInt(k) - v) % N)
  }

  lemma QuotientAtMost(d: int, m: nat, q: int, r: nat, n: nat)
    requires d * n + m == q * n + r && r < n
    ensures d <= q
  {
    if d > q {
      assert (d - q) * n == r - m;
      TimesAtLeast(d - q, n);
    }
  }

  /** Quotient and remainder are the only such pair. */
  lemma RemainderIs(s: int, q: int, r: nat, n: nat)
    requires s == q * n + r && r < n
    ensures s % n == r
  {
    assert s == (s / n) * n + s % n;
    QuotientAtMost(s / n, s % n, q, r, n);
    QuotientAtMost(q, r, s / n, s % n, n);
  }

  /** Reducing first makes no difference. */
  lemma ReducedFirst(x: nat, v: int, n: nat) returns (y: nat)
    requires x < n
    ensures y == (x + v) % n && y < n && (y - v) % n == x
  {
    y := (x + v) % n;
    var q := (x + v) / n;
    assert x + v == q * n + y;
    RemainderIs(y - v, -q, x, n);
  }

  lemma SubtractUndoesAdd(k: Key, v: int)
    ensures var r := AddIntToBytes(k, v); r.Some? && SubtractIntFromBytes(r.value, v) == Some(k)
  {
    var y := ReducedFirst(BytesToBigInt(k), v, N);
    ConversionRoundTrips(y, k);
  }

  lemma Opposite(k: Key, v: int)
    ensures AddIntToBytes(k, -v) == SubtractIntFromBytes(k, v)
  {
    assert BytesToBigInt(k) + -v == BytesToBigInt(k) - v;
  }

  /** Neither ever fails; each undoes the other, for any number, negative or beyond 2^M included. */
  lemma AddAndSubtractUndo(k: Key, v: int)
    ensures var r := AddIntToBytes(k, v); r.Some? && SubtractIntFromBytes(r.value, v) == Some(k)
    ensures var r := SubtractIntFromBytes(k, v); r.Some? && AddIntToBytes(r.value, v) == Some(k)
  {
    SubtractUndoesAdd(k, v);
    SubtractUndoesAdd(k, -v);
    Opposite(k, v);
    Opposite(SubtractIntFromBytes(k, v).value, -v);
  }

  /** On the circle they go clockwise and back. */
  lemma AddAndSubtractTurn(k: Key, v: nat)
    requires v < N
    ensures AddIntToBytes(k, v).Some? && IdOf(AddIntToBytes(k, v).value) == Forward(IdOf(k), v)
    ensures SubtractIntFromBytes(k, v).Some? && IdOf(SubtractIntFromBytes(k, v).value) == Back(IdOf(k), v)
  {
    var x := BytesToBigInt(k);
    RemainderIs(x + v, if x + v < N then 0 else 1, Forward(IdOf(k), v), N);
    RemainderIs(x - v, if v <= x then 0 else -1, Back(IdOf(k), v), N);
    ConversionRoundTrips(Forward(IdOf(k), v), k);
    ConversionRoundTrips(Back(IdOf(k), v), k);
  }

  /** --- text --- */

  function HexDigit(v: int): char
    requires 0 <= v < 16
  {
    if v < 10 then ('0' as int + v) as char else ('a' as int + v - 10) as char
  }

  /** Reads either case. */
  function HexValue(c: char): (v: Option<int>)
    ensures v.Some? ==> 0 <= v.value < 16
  {
    if '0' <= c <= '9' then Some(c as int - '0' as int)
    else if 'a' <= c <= 'f' then Some(c as int - 'a' as int + 10)
    else if 'A' <= c <= 'F' then Some(c as int - 'A' as int + 10)
    else None
  }

  function Hex(s: seq<Byte>): (text: string)
    ensures |text| == 2 * |s|
  {
    if s == [] then "" else [HexDigit(s[0] / 16), HexDigit(s[0] % 16)] + Hex(s[1..])
  }

  /** Nothing for a character that is no digit, or an odd number of them. */
  function Unhex(text: string): Option<seq<Byte>> {
    if text == "" then Some([])
    else if |text| == 1 || HexValue(text[0]).None? || HexValue(text[1]).None? then None
    else
      var rest := Unhex(text[2..]);
      if rest.None? then None
      else Some([HexValue(text[0]).value * 16 + HexValue(text[1]).value] + rest.value)
  }

  lemma HexDigits(v: int)
    requires 0 <= v < 16
    ensures HexDigit(v) == "0123456789abcdef"[v]
  {
  }

  /** Two digits for each byte, the high half first. */
  lemma {:induction false} HexSpelled(s: seq<Byte>, i: nat)
    requires i < |s|
    ensures Hex(s)[2 * i] == HexDigit(s[i] / 16) && Hex(s)[2 * i + 1] == HexDigit(s[i] % 16)
  {
    if i > 0 {
      HexSpelled(s[1..], i - 1);
    }
  }

  lemma {:induction false} UnhexHex(s: seq<Byte>)
    ensures Unhex(Hex(s)) == Some(s)
  {
    if s != [] {
      UnhexHex(s[1..]);
      assert Hex(s)[2..] == Hex(s[1..]);
      assert s == [s[0]] + s[1..];
    }
  }

  lemma {:induction false} UnhexLength(text: string)
    ensures Unhex(text).Some? ==> |text| == 2 * |Unhex(text).value|
  {
    if |text| >= 2 {
      UnhexLength(text[2..]);
    }
  }

  function LowerCase(c: char): char {
    if 'A' <= c <= 'F' then (c as int + 32) as char else c
  }

  /** Texts that decode are, up to letter case, what their bytes encode to. */
  lemma {:induction false} UnhexDetermines(text: string, s: seq<Byte>)
    ensures Unhex(text) == Some(s) <==> Lowered(text) == Hex(s)
    decreases |text|
  {
    UnhexLength(text);
    if s != [] && |text| == 2 * |s| {
      UnhexDetermines(text[2..], s[1..]);
      PairReads(text[0], text[1], s[0]);
      var front := [HexDigit(s[0] / 16), HexDigit(s[0] % 16)];
      assert Lowered(text) == [LowerCase(text[0]), LowerCase(text[1])] + Lowered(text[2..]);
      assert Hex(s)[..2] == front && Hex(s)[2..] == Hex(s[1..]);
      assert Lowered(text)[2..] == Lowered(text[2..]);
      assert s == [s[0]] + s[1..];
    }
  }

  function Lowered(text: string): (low: string)
    ensures |low| == |text|
  {
    seq(|text|, i requires 0 <= i < |text| => LowerCase(text[i]))
  }

  lemma PairReads(c: char, d: char, b: Byte)
    ensures LowerCase(c) == HexDigit(b / 16) && LowerCase(d) == HexDigit(b % 16) <==>
      HexValue(c).Some? && HexValue(d).Some? && HexValue(c).value * 16 + HexValue(d).value == b
  {
  }

  function EncodeChordIDToStr(k: Key): string {
    Hex(k)
  }

  /** What comes of decoding a text: its leading bytes, an error, or a slice that reaches past what was
      decoded. */
  datatype Parsed = Parsed(key: Key) | Malformed | TooShort

  function Parse(text: string): Parsed {
    match Unhex(text)
    case None => Malformed
    case Some(bytes) => if |bytes| < KEY_LEN then TooShort else Parsed.Parsed(bytes[..KEY_LEN])
  }

  /** The identifier a text stands for, if it is one. */
  function Decoded(text: string): Option<Key> {
    var parsed := Parse(text);
    if parsed.Parsed? then Some(parsed.key) else None
  }

  /** Slices the key off the decoded bytes without looking how many there are. */
  method DecodeChordIDFromStr(s: string) returns (r: Parsed)
    ensures r.Malformed? <==> Unhex(s).None?
    ensures r.TooShort? <==> Unhex(s).Some? && |s| < 2 * KEY_LEN
    ensures r.Parsed? ==> r.key <= Unhex(s).value && Decoded(s) == Some(r.key)
    ensures r == Parse(s)
  {
    var bytes := Unhex(s);
    UnhexLength(s);
    if bytes.None? {
      return Malformed;
    }
    if |bytes.value| < KEY_LEN {
      return TooShort;
    }
    var postID := new Byte[KEY_LEN](i => 0);
    for i := 0 to KEY_LEN
      invariant postID[..i] == bytes.value[..i]
    {
      postID[i] := bytes.value[i];
    }
    assert postID[..] == bytes.value[..KEY_LEN];
    r := Parsed.Parsed(postID[..]);
  }

  lemma TextRoundTrips(k: Key)
    ensures Decoded(EncodeChordIDToStr(k)) == Some(k)
  {
    UnhexHex(k);
    assert k[..KEY_LEN] == k;
  }
}

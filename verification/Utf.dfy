/** Text as the wasm boundary sees it: JavaScript strings are UTF-16 code units,
    linear memory holds UTF-8 (section 3 of RFC 3629). The encoder is the one of
    `TextEncoder` (a lone surrogate becomes U+FFFD), the decoder the one of a
    fatal `TextDecoder` with `ignoreBOM` set. */
module Utf {
  import opened Wrappers

  type Unit = x: int | 0 <= x < 0x1_0000
  type Scalar = x: int | 0 <= x < 0xD800 || 0xE000 <= x < 0x11_0000

  const REPLACEMENT: Scalar := 0xFFFD
  const BOM: Unit := 0xFEFF

  predicate IsHigh(u: Unit) {
    0xD800 <= u < 0xDC00
  }

  predicate IsLow(u: Unit) {
    0xDC00 <= u < 0xE000
  }

  /** No surrogate stands alone. */
  ghost predicate WellFormed(s: seq<Unit>) {
    forall i | 0 <= i < |s| :: PairedAt(s, i)
  }

  predicate PairedAt(s: seq<Unit>, i: nat)
    requires i < |s|
  {
    (IsHigh(s[i]) ==> i + 1 < |s| && IsLow(s[i + 1])) &&
    (IsLow(s[i]) ==> 0 < i && IsHigh(s[i - 1]))
  }

  // ----- Encoding -----

  /** How many code units the first scalar value of `s` takes. */
  function Width(s: seq<Unit>): (n: nat)
    requires s != []
    ensures 1 <= n <= 2 && n <= |s|
  {
    if IsHigh(s[0]) && 1 < |s| && IsLow(s[1]) then 2 else 1
  }

  /** The first scalar value of `s`. */
  function First(s: seq<Unit>): Scalar
    requires s != []
  {
    if Width(s) == 2 then 0x1_0000 + (s[0] - 0xD800) * 0x400 + (s[1] - 0xDC00)
    else if IsHigh(s[0]) || IsLow(s[0]) then REPLACEMENT
    else s[0]
  }

  /** The bit distribution table of section 3 of RFC 3629. */
  function EncodeScalar(v: Scalar): (bytes: seq<Byte>)
    ensures 1 <= |bytes| <= 4
  {
    if v < 0x80 then [v]
    else if v < 0x800 then [0xC0 + v / 0x40, 0x80 + v % 0x40]
    else if v < 0x1_0000 then [0xE0 + v / 0x1000, 0x80 + v / 0x40 % 0x40, 0x80 + v % 0x40]
    else [0xF0 + v / 0x4_0000, 0x80 + v / 0x1000 % 0x40, 0x80 + v / 0x40 % 0x40, 0x80 + v % 0x40]
  }

  /** What `TextEncoder.encode` answers. */
  function Utf8(s: seq<Unit>): seq<Byte> {
    if s == [] then [] else EncodeScalar(First(s)) + Utf8(s[Width(s)..])
  }

  // ----- Decoding -----

  predicate Tail(b: seq<Byte>, i: nat) {
    i < |b| && 0x80 <= b[i] < 0xC0
  }

  /** How many bytes the first well-formed sequence of `b` has, 0 when there is
      none: the grammar of section 4 of RFC 3629. */
  function SequenceLength(b: seq<Byte>): (n: nat)
    ensures n <= 4 && n <= |b|
  {
    if b == [] then 0
    else if b[0] < 0x80 then 1
    else if 0xC2 <= b[0] < 0xE0 then
      if Tail(b, 1) then 2 else 0
    else if 0xE0 <= b[0] < 0xF0 then
      if Tail(b, 1) && Tail(b, 2) && (b[0] == 0xE0 ==> 0xA0 <= b[1]) && (b[0] == 0xED ==> b[1] < 0xA0) then 3 else 0
    else if 0xF0 <= b[0] < 0xF5 then
      if Tail(b, 1) && Tail(b, 2) && Tail(b, 3) && (b[0] == 0xF0 ==> 0x90 <= b[1]) && (b[0] == 0xF4 ==> b[1] < 0x90)
      then 4 else 0
    else 0
  }

  function DecodeScalar(b: seq<Byte>): Scalar
    requires SequenceLength(b) != 0
  {
    match SequenceLength(b)
    case 1 => b[0]
    case 2 => (b[0] as int - 0xC0) * 0x40 + (b[1] as int - 0x80)
    case 3 => ((b[0] as int - 0xE0) * 0x40 + (b[1] as int - 0x80)) * 0x40 + (b[2] as int - 0x80)
    case _ =>
      (((b[0] as int - 0xF0) * 0x40 + (b[1] as int - 0x80)) * 0x40 + (b[2] as int - 0x80)) * 0x40 + (b[3] as int - 0x80)
  }

  /** The scalar value as a JavaScript string. */
  function Units(v: Scalar): (s: seq<Unit>)
    ensures 1 <= |s| <= 2
  {
    if v < 0x1_0000 then [v]
    else [0xD800 + (v - 0x1_0000) / 0x400, 0xDC00 + (v - 0x1_0000) % 0x400]
  }

  /** A fatal decoder that keeps a leading U+FEFF; `None` is its TypeError. */
  function Decode(b: seq<Byte>): Option<seq<Unit>> {
    if b == [] then Some([])
    else if SequenceLength(b) == 0 then None
    else
      var rest :- Decode(b[SequenceLength(b)..]);
      Some(Units(DecodeScalar(b)) + rest)
  }

  /** The decoder without `ignoreBOM`: it drops one leading U+FEFF. */
  function DecodeDroppingBom(b: seq<Byte>): Option<seq<Unit>> {
    var s :- Decode(b);
    if s != [] && s[0] == BOM then Some(s[1..]) else Some(s)
  }

  /** `s` with U+FFFD in place of every lone surrogate. */
  function ToWellFormed(s: seq<Unit>): seq<Unit> {
    if s == [] then [] else Units(First(s)) + ToWellFormed(s[Width(s)..])
  }

  // ----- One scalar value -----

  /** Six bits at a time. */
  lemma SixBits(v: nat)
    ensures v == v / 0x40 * 0x40 + v % 0x40
    ensures v / 0x1000 == v / 0x40 / 0x40
    ensures v / 0x4_0000 == v / 0x1000 / 0x40
  {
  }

  lemma LastSixBits(high: nat, low: nat)
    requires low < 0x40
    ensures (high * 0x40 + low) / 0x40 == high && (high * 0x40 + low) % 0x40 == low
  {
  }

  lemma EncodedScalarDecodes(v: Scalar, rest: seq<Byte>)
    ensures SequenceLength(EncodeScalar(v) + rest) == |EncodeScalar(v)|
    ensures DecodeScalar(EncodeScalar(v) + rest) == v
  {
    var e := EncodeScalar(v);
    var b := e + rest;
    SixBits(v);
    SixBits(v / 0x40);
    assert b[0] == e[0];
    if 0x80 <= v { assert b[1] == e[1]; }
    if 0x800 <= v { assert b[2] == e[2]; }
    if 0x1_0000 <= v { assert b[3] == e[3]; }
  }

  lemma DecodedScalarEncodes(b: seq<Byte>)
    requires SequenceLength(b) != 0
    ensures EncodeScalar(DecodeScalar(b)) == b[..SequenceLength(b)]
  {
    var n, v := SequenceLength(b), DecodeScalar(b);
    SixBits(v);
    if n == 2 {
      LastSixBits(b[0] - 0xC0, b[1] - 0x80);
    } else if n == 3 {
      ThreeDigits(b[0] - 0xE0, b[1] - 0x80, b[2] - 0x80, v);
    } else if n == 4 {
      FourDigits(b[0] - 0xF0, b[1] - 0x80, b[2] - 0x80, b[3] - 0x80, v);
    }
  }

  lemma ThreeDigits(x: nat, y: nat, z: nat, v: nat)
    requires y < 0x40 && z < 0x40 && v == (x * 0x40 + y) * 0x40 + z
    ensures v / 0x1000 == x && v / 0x40 % 0x40 == y && v % 0x40 == z
  {
    SixBits(v);
    LastSixBits(x, y);
    LastSixBits(x * 0x40 + y, z);
  }

  lemma FourDigits(w: nat, x: nat, y: nat, z: nat, v: nat)
    requires x < 0x40 && y < 0x40 && z < 0x40 && v == ((w * 0x40 + x) * 0x40 + y) * 0x40 + z
    ensures v / 0x4_0000 == w && v / 0x1000 % 0x40 == x && v / 0x40 % 0x40 == y && v % 0x40 == z
  {
    SixBits(v);
    ThreeDigits(w * 0x40 + x, y, z, v);
    LastSixBits(w, x);
  }

  /** The bytes of two scalar values compare as the values do, as section 1 of RFC 3629 has it: they first differ at `k`.
      With the two lemmas above: there is no other encoding into the sequences the decoder accepts. */
  lemma EncodingKeepsOrder(v: Scalar, w: Scalar) returns (k: nat)
    requires v < w
    ensures var a, b := EncodeScalar(v), EncodeScalar(w); k < |a| && k < |b| && a[..k] == b[..k] && a[k] < b[k]
  {
    if 0x1_0000 <= v {
      k := FourKeepOrder(v, w);
    } else if 0x800 <= v && w < 0x1_0000 {
      k := ThreeKeepOrder(v, w);
    } else if 0x80 <= v && w < 0x800 {
      HighDigits(v, w);
      k := if v / 0x40 == w / 0x40 then 1 else 0;
    } else {
      k := 0;
    }
  }

  lemma ThreeKeepOrder(v: Scalar, w: Scalar) returns (k: nat)
    requires 0x800 <= v < w < 0x1_0000
    ensures var a, b := EncodeScalar(v), EncodeScalar(w); k < 3 && a[..k] == b[..k] && a[k] < b[k]
  {
    HighDigits(v, w);
    HighDigits(v / 0x40, w / 0x40);
    SixBits(v);
    SixBits(w);
    k := if v / 0x40 == w / 0x40 then 2 else if v / 0x1000 == w / 0x1000 then 1 else 0;
  }

  lemma FourKeepOrder(v: Scalar, w: Scalar) returns (k: nat)
    requires 0x1_0000 <= v < w
    ensures var a, b := EncodeScalar(v), EncodeScalar(w); k < 4 && a[..k] == b[..k] && a[k] < b[k]
  {
    HighDigits(v, w);
    HighDigits(v / 0x40, w / 0x40);
    HighDigits(v / 0x1000, w / 0x1000);
    SixBits(v);
    SixBits(w);
    k := if v / 0x40 == w / 0x40 then 3
         else if v / 0x1000 == w / 0x1000 then 2
         else if v / 0x4_0000 == w / 0x4_0000 then 1
         else 0;
  }

  /** Of two numbers with the same digits but the last, the larger has the larger last digit. */
  lemma HighDigits(v: nat, w: nat)
    requires v <= w
    ensures v / 0x40 <= w / 0x40 && (v / 0x40 == w / 0x40 ==> w % 0x40 - v % 0x40 == w - v)
  {
  }

  /** Surrogate pairs compare as the scalar values they stand for, and so do single units. */
  lemma UnitsKeepOrder(v: Scalar, w: Scalar)
    requires v < w && (w < 0x1_0000 || 0x1_0000 <= v)
    ensures var a, b := Units(v), Units(w);
            |a| == |b| && (a[0] < b[0] || (|a| == 2 && a[0] == b[0] && a[1] < b[1]))
    ensures |Units(w)| == 2 <==> 0x1_0000 <= w
  {
  }

  /** Characters from the examples of section 7 of RFC 3629. */
  lemma ExamplesOfTheStandard()
    ensures EncodeScalar(0x41) == [0x41] && EncodeScalar(0x391) == [0xCE, 0x91]
    ensures EncodeScalar(0x2262) == [0xE2, 0x89, 0xA2] && EncodeScalar(0xD55C) == [0xED, 0x95, 0x9C]
    ensures EncodeScalar(0x2_33B4) == [0xF0, 0xA3, 0x8E, 0xB4] && Units(0x2_33B4) == [0xD84C, 0xDFB4]
  {
  }

  lemma UnitsOfFirst(s: seq<Unit>)
    requires s != []
    ensures Units(First(s)) == s[..Width(s)] <==> Width(s) == 2 || !(IsHigh(s[0]) || IsLow(s[0]))
  {
  }

  // ----- Whole strings -----

  /** Three bytes per code unit are always enough. */
  lemma {:induction false} ThreeBytesPerUnit(s: seq<Unit>)
    ensures |s| <= |Utf8(s)| <= 3 * |s|
  {
    if s != [] {
      ThreeBytesPerUnit(s[Width(s)..]);
    }
  }

  /** Two are not: the bound is met by every string of U+0800 and above outside the surrogates. */
  lemma {:induction false} ThreeBytesPerUnitIsTight(s: seq<Unit>)
    requires forall i | 0 <= i < |s| :: 0x800 <= s[i]
    requires forall i | 0 <= i < |s| - 1 :: !(IsHigh(s[i]) && IsLow(s[i + 1]))
    ensures |Utf8(s)| == 3 * |s|
  {
    if s != [] {
      ThreeBytesPerUnitIsTight(s[1..]);
    }
  }

  ghost predicate SplitsPair(s: seq<Unit>, k: nat)
    requires k <= |s|
  {
    0 < k < |s| && IsHigh(s[k - 1]) && IsLow(s[k])
  }

  /** Encoding in two pieces gives the bytes of encoding whole exactly when the
      cut does not part a surrogate pair. */
  lemma {:induction false} EncodingInPieces(s: seq<Unit>, k: nat)
    requires k <= |s|
    ensures Utf8(s[..k]) + Utf8(s[k..]) == Utf8(s) <==> !SplitsPair(s, k)
    decreases |s|
  {
    var w := if s == [] then 0 else Width(s);
    if k == 0 {
      assert s[k..] == s;
    } else if w <= k {
      EncodingInPieces(s[w..], k - w);
      CutBeyondFirst(s, k);
    } else {
      PairCut(s);
    }
  }

  lemma CutBeyondFirst(s: seq<Unit>, k: nat)
    requires s != [] && Width(s) <= k <= |s|
    ensures SplitsPair(s, k) <==> SplitsPair(s[Width(s)..], k - Width(s))
    ensures Utf8(s[..k]) + Utf8(s[k..]) == Utf8(s) <==>
            Utf8(s[Width(s)..][..k - Width(s)]) + Utf8(s[Width(s)..][k - Width(s)..]) == Utf8(s[Width(s)..])
  {
    hide EncodeScalar, First, Utf8;
    var w, e := Width(s), EncodeScalar(First(s));
    var t := s[w..];
    FirstOfPrefix(s, k);
    assert s[..k][w..] == t[..k - w];
    assert s[k..] == t[k - w..];
    assert s[0..] == s && s[..k][0..] == s[..k];
    Utf8From(s, 0);
    Utf8From(s[..k], 0);
    PrependCancels(e, Utf8(t[..k - w]), Utf8(s[k..]), Utf8(t));
  }

  lemma FirstOfPrefix(s: seq<Unit>, k: nat)
    requires s != [] && Width(s) <= k <= |s|
    ensures Width(s[..k]) == Width(s) && First(s[..k]) == First(s)
  {
  }

  /** Cut in the middle, a pair of 4 bytes becomes two replacement characters of 3. */
  lemma PairCut(s: seq<Unit>)
    requires s != [] && Width(s) == 2
    ensures |Utf8(s)| == 4 + |Utf8(s[2..])|
    ensures |Utf8(s[..1])| == 3
    ensures |Utf8(s[1..])| == 3 + |Utf8(s[2..])|
  {
    assert |EncodeScalar(First(s))| == 4;
    var a, t := s[..1], s[1..];
    assert Width(a) == 1 && a[1..] == [];
    assert Width(t) == 1 && t[1..] == s[2..];
    assert First(a) == First(t) == REPLACEMENT;
  }

  lemma PrependCancels(e: seq<Byte>, x: seq<Byte>, y: seq<Byte>, z: seq<Byte>)
    ensures (e + x) + y == e + z <==> x + y == z
  {
    assert (e + x) + y == e + (x + y);
    if e + (x + y) == e + z {
      assert x + y == (e + (x + y))[|e|..] == (e + z)[|e|..] == z;
    }
  }

  lemma Utf8From(s: seq<Unit>, k: nat)
    requires k < |s|
    ensures Utf8(s[k..]) == EncodeScalar(First(s[k..])) + Utf8(s[k + Width(s[k..])..])
  {
    assert s[k..][Width(s[k..])..] == s[k + Width(s[k..])..];
  }

  lemma ConcatAssociates(a: seq<Byte>, b: seq<Byte>, c: seq<Byte>)
    ensures a + (b + c) == (a + b) + c
  {
  }

  /** The ASCII fast path: the leading units below 0x80 are their own bytes. */
  lemma {:induction false} AsciiPrefix(s: seq<Unit>, k: nat)
    requires k <= |s|
    requires forall i | 0 <= i < k :: s[i] < 0x80
    ensures Utf8(s) == s[..k] + Utf8(s[k..])
  {
    hide Utf8;
    if k == 0 {
      assert s[..k] == [] && s[k..] == s;
    } else {
      AsciiPrefix(s, k - 1);
      AsciiUnit(s, k - 1);
      ConcatAssociates(s[..k - 1], [s[k - 1]], Utf8(s[k..]));
      assert s[..k] == s[..k - 1] + [s[k - 1]];
    }
  }

  lemma AsciiUnit(s: seq<Unit>, k: nat)
    requires k < |s| && s[k] < 0x80
    ensures Utf8(s[k..]) == [s[k]] + Utf8(s[k + 1..])
  {
    Utf8From(s, k);
  }

  /** Reading back what was encoded gives the string with its lone surrogates replaced. */
  lemma {:induction false} EncodedDecodes(s: seq<Unit>)
    ensures Decode(Utf8(s)) == Some(ToWellFormed(s))
  {
    if s != [] {
      var b, rest := Utf8(s), Utf8(s[Width(s)..]);
      EncodedScalarDecodes(First(s), rest);
      assert b[SequenceLength(b)..] == rest;
      EncodedDecodes(s[Width(s)..]);
    }
  }

  /** The decoder accepts a byte string only if encoding its answer gives those very bytes. */
  lemma {:induction false} DecodedEncodes(b: seq<Byte>)
    ensures Decode(b).Some? ==> Utf8(Decode(b).value) == b
  {
    if b != [] && Decode(b).Some? {
      DecodedEncodes(b[SequenceLength(b)..]);
      DecodedEncodesOneMore(b, Decode(b[SequenceLength(b)..]).value);
    }
  }

  lemma DecodedEncodesOneMore(b: seq<Byte>, rest: seq<Unit>)
    requires SequenceLength(b) != 0 && Utf8(rest) == b[SequenceLength(b)..]
    ensures Utf8(Units(DecodeScalar(b)) + rest) == b
  {
    hide Utf8, EncodeScalar, DecodeScalar, Units;
    DecodedScalarEncodes(b);
    PrependUnits(DecodeScalar(b), rest);
    assert b == b[..SequenceLength(b)] + b[SequenceLength(b)..];
  }

  lemma FirstOfUnits(v: Scalar, rest: seq<Unit>)
    ensures Width(Units(v) + rest) == |Units(v)|
    ensures First(Units(v) + rest) == v
    ensures (Units(v) + rest)[|Units(v)|..] == rest
  {
  }

  lemma PrependUnits(v: Scalar, rest: seq<Unit>)
    ensures Utf8(Units(v) + rest) == EncodeScalar(v) + Utf8(rest)
  {
    FirstOfUnits(v, rest);
  }

  lemma {:induction false} ToWellFormedFixes(s: seq<Unit>)
    ensures ToWellFormed(s) == s <==> WellFormed(s)
    ensures |ToWellFormed(s)| == |s|
  {
    if s != [] {
      var w := Width(s);
      var head, tail := s[..w], s[w..];
      ToWellFormedFixes(tail);
      UnitsOfFirst(s);
      assert |Units(First(s))| == w;
      assert s == head + tail;
      if Units(First(s)) == head {
        assert ToWellFormed(s) == s <==> ToWellFormed(tail) == tail by {
          if ToWellFormed(s) == s { assert ToWellFormed(tail) == ToWellFormed(s)[w..] == tail; }
        }
        WellFormedTail(s);
      } else {
        assert ToWellFormed(s)[..w] == Units(First(s));
        assert !PairedAt(s, 0);
      }
    }
  }

  /** Unit by unit: a surrogate that stands alone becomes U+FFFD, every other unit stays. */
  lemma {:induction false} ToWellFormedAt(s: seq<Unit>, i: nat)
    requires i < |s|
    ensures |ToWellFormed(s)| == |s| && ToWellFormed(s)[i] == if PairedAt(s, i) then s[i] else 0xFFFD
  {
    ToWellFormedFixes(s);
    var w := Width(s);
    if w <= i {
      ToWellFormedAt(s[w..], i - w);
      assert PairedAt(s[w..], i - w) <==> PairedAt(s, i);
    } else {
      UnitsOfFirst(s);
      assert ToWellFormed(s)[i] == Units(First(s))[i];
    }
  }

  lemma WellFormedTail(s: seq<Unit>)
    requires s != [] && (Width(s) == 2 || !(IsHigh(s[0]) || IsLow(s[0])))
    ensures WellFormed(s) <==> WellFormed(s[Width(s)..])
  {
    var w := Width(s);
    var t := s[w..];
    forall i | 0 <= i < |t|
      ensures PairedAt(t, i) <==> PairedAt(s, w + i)
    {
      assert t[i] == s[w + i];
    }
    if WellFormed(t) {
      forall i | 0 <= i < |s|
        ensures PairedAt(s, i)
      {
        if w <= i { assert PairedAt(t, i - w); }
      }
    }
  }

  /** The round trip is the identity on the well-formed strings, and on no others. */
  lemma RoundTrip(s: seq<Unit>)
    ensures Decode(Utf8(s)) == Some(s) <==> WellFormed(s)
  {
    EncodedDecodes(s);
    ToWellFormedFixes(s);
  }

  /** Without `ignoreBOM` a leading U+FEFF would be lost; nothing else would change. */
  lemma IgnoreBomIsNeeded(s: seq<Unit>)
    requires WellFormed(s)
    ensures DecodeDroppingBom(Utf8(s)) == Some(s) <==> (s == [] || s[0] != BOM)
  {
    RoundTrip(s);
  }
}

/** Hexadecimal text of byte strings: `hash_to_hex`, `hex_to_hash` (src/cas.rs) and
    `bytes_to_hex`, `hex_to_bytes` (src/presign.rs). */
module Hex {
  import opened Base
  import opened Text
  import opened TreeCodec

  function Digit(n: nat): byte
    requires n < 16
  {
    if n < 10 then (48 + n) as byte else (87 + n) as byte
  }

  predicate IsLowerDigit(c: byte) {
    48 <= c <= 57 || 97 <= c <= 102
  }

  /** Value of one digit; both cases are read. */
  function DigitValue(c: byte): (r: Option<nat>)
    ensures r.Some? ==> r.value < 16
  {
    if 48 <= c <= 57 then Some(c as nat - 48)
    else if 97 <= c <= 102 then Some(c as nat - 87)
    else if 65 <= c <= 70 then Some(c as nat - 55)
    else None
  }

  predicate IsLowerHex(s: Str) {
    forall i :: 0 <= i < |s| ==> IsLowerDigit(s[i])
  }

  function HexOf(b: byte): Str {
    [Digit(b as nat / 16), Digit(b as nat % 16)]
  }

  function Encode(b: Bytes): (s: Str)
    ensures |s| == 2 * |b|
  {
    if b == [] then [] else HexOf(b[0]) + Encode(b[1..])
  }

  /** `hex_to_bytes`: every pair of characters is two digits. */
  function DecodePair(x: byte, y: byte): Option<byte> {
    match (DigitValue(x), DigitValue(y))
    case (Some(hi), Some(lo)) => Some((hi * 16 + lo) as byte)
    case _ => None
  }

  /** `hex_to_hash` hands each pair to `u8::from_str_radix`, which also reads a plus sign and
      one digit. */
  function DecodePairRadix(x: byte, y: byte): Option<byte> {
    if x == PLUS then
      match DigitValue(y) case Some(lo) => Some(lo as byte) case None => None
    else DecodePair(x, y)
  }

  function Decode(s: Str): Option<Bytes> {
    if s == [] then Some([])
    else if |s| == 1 then None
    else match (DecodePair(s[0], s[1]), Decode(s[2..]))
      case (Some(b), Some(rest)) => Some([b] + rest)
      case _ => None
  }

  function DecodeRadix(s: Str): (r: Option<Bytes>)
    ensures r.Some? ==> 2 * |r.value| == |s|
  {
    if s == [] then Some([])
    else if |s| == 1 then None
    else match (DecodePairRadix(s[0], s[1]), DecodeRadix(s[2..]))
      case (Some(b), Some(rest)) => Some([b] + rest)
      case _ => None
  }

  function HashToHex(h: Hash): (s: Str)
    ensures |s| == 64
  {
    Encode(h)
  }

  function HexToHash(s: Str): Option<Hash> {
    if |s| != 64 then None else DecodeRadix(s)
  }

  // ----- the loops of the code ----------------------------------------------------------

  method BytesToHex(b: Bytes) returns (s: Str)
    ensures s == Encode(b)
  {
    s := [];
    var i := 0;
    assert b[0..] == b;
    while i < |b|
      invariant 0 <= i <= |b|
      invariant Encode(b) == s + Encode(b[i..])
    {
      assert b[i..][1..] == b[i + 1..];
      s := s + HexOf(b[i]);
      i := i + 1;
    }
  }

  method HexToBytes(s: Str) returns (r: Option<Bytes>)
    ensures r == Decode(s)
  {
    if |s| % 2 != 0 {
      OddDecodesToNone(s);
      return None;
    }
    var out: Bytes := [];
    var i := 0;
    assert s[0..] == s;
    assert Decode(s).Some? ==> [] + Decode(s).value == Decode(s).value;
    while i < |s|
      invariant 0 <= i <= |s| && (|s| - i) % 2 == 0
      invariant Decode(s) == match Decode(s[i..]) case None => None case Some(rest) => Some(out + rest)
    {
      assert s[i..][2..] == s[i + 2..];
      var hi, lo := DigitValue(s[i]), DigitValue(s[i + 1]);
      if hi.None? || lo.None? {
        return None;
      }
      var b := (hi.value * 16 + lo.value) as byte;
      ghost var tail := Decode(s[i + 2..]);
      assert tail.Some? ==> out + ([b] + tail.value) == (out + [b]) + tail.value;
      out := out + [b];
      i := i + 2;
    }
    assert out + [] == out;
    return Some(out);
  }

  lemma {:induction false} OddDecodesToNone(s: Str)
    requires |s| % 2 != 0
    ensures Decode(s) == None
  {
    if |s| > 1 { OddDecodesToNone(s[2..]); }
  }

  function Prepend(done: Bytes, r: Option<Bytes>): Option<Bytes> {
    match r case None => None case Some(rest) => Some(done + rest)
  }

  lemma RadixStep(s: Str, k: nat, done: Bytes)
    requires k + 2 <= |s|
    ensures Prepend(done, DecodeRadix(s[k..])) ==
            match DecodePairRadix(s[k], s[k + 1])
            case None => None
            case Some(b) => Prepend(done + [b], DecodeRadix(s[k + 2..]))
  {
    hide DecodePairRadix;
    assert s[k..][2..] == s[k + 2..];
    var tail := DecodeRadix(s[k + 2..]);
    var b := DecodePairRadix(s[k], s[k + 1]);
    assert tail.Some? && b.Some? ==> done + ([b.value] + tail.value) == (done + [b.value]) + tail.value;
  }

  method HexToHashLoop(s: Str) returns (r: Option<Hash>)
    ensures r == HexToHash(s)
  {
    if |s| != 64 {
      return None;
    }
    var h: Bytes := seq(32, i => 0);
    var i := 0;
    assert s[0..] == s;
    assert DecodeRadix(s).Some? ==> h[..0] + DecodeRadix(s).value == DecodeRadix(s).value;
    hide DecodePairRadix, DecodeRadix;
    while i < 32
      invariant 0 <= i <= 32 && |h| == 32
      invariant DecodeRadix(s) == Prepend(h[..i], DecodeRadix(s[2 * i..]))
    {
      RadixStep(s, 2 * i, h[..i]);
      var b := DecodePairRadix(s[2 * i], s[2 * i + 1]);
      if b.None? {
        return None;
      }
      ghost var before := h[..i];
      h := h[i := b.value];
      assert h[..i + 1] == before + [b.value];
      i := i + 1;
    }
    assert s[64..] == [] && h[..32] == h && h + [] == h;
    EmptyRadix();
    return Some(h);
  }

  lemma EmptyRadix()
    ensures DecodeRadix([]) == Some([])
  {
  }

  // ----- round trips --------------------------------------------------------------------

  lemma DigitInverse(n: nat, c: byte)
    requires n < 16
    ensures DigitValue(Digit(n)) == Some(n)
    ensures IsLowerDigit(c) <==> DigitValue(c).Some? && Digit(DigitValue(c).value) == c
    ensures Digit(n) != PLUS && Digit(n) != SLASH && IsLowerDigit(Digit(n))
  {
  }

  lemma PairInverse(b: byte)
    ensures DecodePair(HexOf(b)[0], HexOf(b)[1]) == Some(b)
    ensures DecodePairRadix(HexOf(b)[0], HexOf(b)[1]) == Some(b)
    ensures IsLowerHex(HexOf(b)) && SLASH !in HexOf(b)
  {
    DigitInverse(b as nat / 16, 0);
    DigitInverse(b as nat % 16, 0);
  }

  lemma {:induction false} EncodeInverse(b: Bytes)
    ensures Decode(Encode(b)) == Some(b) && DecodeRadix(Encode(b)) == Some(b)
    ensures IsLowerHex(Encode(b)) && SLASH !in Encode(b)
  {
    if b != [] {
      PairInverse(b[0]);
      EncodeInverse(b[1..]);
      assert Encode(b)[2..] == Encode(b[1..]);
      assert [b[0]] + b[1..] == b;
    }
  }

  lemma HashRoundTrip(h: Hash)
    ensures HexToHash(HashToHex(h)) == Some(h)
  {
    EncodeInverse(h);
  }

  lemma PairCanonical(x: byte, y: byte)
    requires DecodePairRadix(x, y).Some?
    ensures HexOf(DecodePairRadix(x, y).value) == [x, y] <==> IsLowerDigit(x) && IsLowerDigit(y)
  {
    var b := DecodePairRadix(x, y).value;
    DigitInverse(0, x);
    DigitInverse(0, y);
    DigitInverse(b as nat / 16, 0);
    DigitInverse(b as nat % 16, 0);
  }

  lemma {:induction false} DecodeRadixInverse(s: Str)
    requires DecodeRadix(s).Some?
    ensures Encode(DecodeRadix(s).value) == s <==> IsLowerHex(s)
  {
    if s != [] {
      PairCanonical(s[0], s[1]);
      DecodeRadixInverse(s[2..]);
      hide DecodePairRadix, HexOf;
      var v := DecodeRadix(s).value;
      assert v[1..] == DecodeRadix(s[2..]).value;
      assert Encode(v)[..2] == HexOf(v[0]) && Encode(v)[2..] == Encode(v[1..]);
      assert s == [s[0], s[1]] + s[2..];
      assert Encode(v) == s <==> Encode(v)[..2] == [s[0], s[1]] && Encode(v)[2..] == s[2..];
      assert forall i :: 2 <= i < |s| ==> s[i] == s[2..][i - 2];
      assert IsLowerHex(s) <==> IsLowerDigit(s[0]) && IsLowerDigit(s[1]) && IsLowerHex(s[2..]);
    }
  }

  /** Reading a hash and writing it back gives the same text exactly for lower-case digits:
      upper case and a plus sign are also read. */
  lemma HexCanonicalIff(s: Str)
    requires HexToHash(s).Some?
    ensures HashToHex(HexToHash(s).value) == s <==> IsLowerHex(s)
  {
    DecodeRadixInverse(s);
  }

  /** The text itself: for each byte its high digit, then its low one, in lower case. */
  lemma {:induction false} EncodeText(b: Bytes, i: nat)
    requires i < |b|
    ensures Encode(b)[2 * i] == Ascii("0123456789abcdef")[b[i] as nat / 16]
    ensures Encode(b)[2 * i + 1] == Ascii("0123456789abcdef")[b[i] as nat % 16]
  {
    if i == 0 {
      DigitText(b[0] as nat / 16);
      DigitText(b[0] as nat % 16);
    } else {
      EncodeText(b[1..], i - 1);
      assert Encode(b)[2..] == Encode(b[1..]);
    }
  }

  lemma DigitText(n: nat)
    requires n < 16
    ensures Digit(n) == Ascii("0123456789abcdef")[n]
  {
  }

  /** Which characters are read as which digit, and nothing else is. */
  lemma DigitsRead(c: byte)
    ensures forall n: nat :: DigitValue(c) == Some(n) <==>
              n < 16 && (c == Ascii("0123456789abcdef")[n] || c == Ascii("0123456789ABCDEF")[n])
  {
    var lower, upper := Ascii("0123456789abcdef"), Ascii("0123456789ABCDEF");
    forall n: nat | n < 16
      ensures DigitValue(c) == Some(n) <==> c == lower[n] || c == upper[n]
    {
      DigitText(n);
      DigitInverse(n, c);
      assert upper[n] == if n < 10 then (48 + n) as byte else (55 + n) as byte;
    }
  }

  /** The number that the `i`th pair of characters writes: two digits, or, where a sign is allowed,
      a plus sign and one digit. */
  function PairNumber(s: Str, i: nat, plus: bool): Option<nat>
    requires 2 * i + 1 < |s|
  {
    var hi := if plus && s[2 * i] == Ascii("+")[0] then Some(0) else DigitValue(s[2 * i]);
    var lo := DigitValue(s[2 * i + 1]);
    if hi.Some? && lo.Some? then Some(16 * hi.value + lo.value) else None
  }

  lemma PairNumberLater(s: Str, i: nat, plus: bool)
    requires 2 * i + 3 < |s|
    ensures PairNumber(s, i + 1, plus) == PairNumber(s[2..], i, plus)
  {
  }

  /** `hex_to_bytes` reads exactly the texts of whole pairs of digits, as the numbers they write. */
  lemma {:induction false} DecodeMeans(s: Str)
    ensures Decode(s).Some? <==> |s| % 2 == 0 && forall i: nat :: 2 * i + 1 < |s| ==> PairNumber(s, i, false).Some?
    ensures Decode(s).Some? ==>
              && |Decode(s).value| == |s| / 2
              && forall i: nat :: i < |s| / 2 ==> Some(Decode(s).value[i] as nat) == PairNumber(s, i, false)
  {
    if |s| >= 2 {
      DecodeMeans(s[2..]);
      hide PairNumber, Decode;
      DecodeFirst(s);
      PairsShift(s, false);
    }
  }

  lemma FirstPair(s: Str)
    requires |s| >= 2
    ensures DecodePair(s[0], s[1]) == match PairNumber(s, 0, false)
                                      case None => None
                                      case Some(n) => if n < 256 then Some(n as byte) else None
    ensures DecodePairRadix(s[0], s[1]) == match PairNumber(s, 0, true)
                                           case None => None
                                           case Some(n) => if n < 256 then Some(n as byte) else None
    ensures forall plus :: PairNumber(s, 0, plus).Some? ==> PairNumber(s, 0, plus).value < 256
  {
    assert Ascii("+")[0] == PLUS;
  }

  lemma DecodeFirst(s: Str)
    requires |s| >= 2
    ensures var first, rest := PairNumber(s, 0, false), Decode(s[2..]);
            if first.Some? && rest.Some? then
              first.value < 256 && Decode(s) == Some([first.value as byte] + rest.value)
            else Decode(s) == None
    ensures var first, rest := PairNumber(s, 0, true), DecodeRadix(s[2..]);
            if first.Some? && rest.Some? then
              first.value < 256 && DecodeRadix(s) == Some([first.value as byte] + rest.value)
            else DecodeRadix(s) == None
  {
    FirstPair(s);
    hide PairNumber, DecodePair, DecodePairRadix;
  }

  lemma PairsShift(s: Str, plus: bool)
    requires |s| >= 2
    ensures (forall i: nat :: 2 * i + 1 < |s| ==> PairNumber(s, i, plus).Some?) <==>
            PairNumber(s, 0, plus).Some? && forall i: nat :: 2 * i + 1 < |s[2..]| ==> PairNumber(s[2..], i, plus).Some?
    ensures forall i: nat :: 0 < i < |s| / 2 ==> PairNumber(s, i, plus) == PairNumber(s[2..], i - 1, plus)
  {
    hide PairNumber;
    forall i: nat | 2 * i + 1 < |s[2..]| ensures PairNumber(s, i + 1, plus) == PairNumber(s[2..], i, plus) {
      PairNumberLater(s, i, plus);
    }
    forall i: nat | 0 < i < |s| / 2 ensures PairNumber(s, i, plus) == PairNumber(s[2..], i - 1, plus) {
      PairNumberLater(s, i - 1, plus);
    }
    if (PairNumber(s, 0, plus).Some? && forall i: nat :: 2 * i + 1 < |s[2..]| ==> PairNumber(s[2..], i, plus).Some?) {
      forall i: nat | 2 * i + 1 < |s| ensures PairNumber(s, i, plus).Some? {
        if i > 0 { PairNumberLater(s, i - 1, plus); }
      }
    }
  }

  /** `hex_to_hash` also takes a plus sign for a first digit of zero. */
  lemma {:induction false} RadixMeans(s: Str)
    ensures DecodeRadix(s).Some? <==> |s| % 2 == 0 && forall i: nat :: 2 * i + 1 < |s| ==> PairNumber(s, i, true).Some?
    ensures DecodeRadix(s).Some? ==>
              forall i: nat :: i < |s| / 2 ==> Some(DecodeRadix(s).value[i] as nat) == PairNumber(s, i, true)
  {
    if |s| >= 2 {
      RadixMeans(s[2..]);
      hide PairNumber, DecodeRadix;
      DecodeFirst(s);
      PairsShift(s, true);
    }
  }

  /** Which texts give which hash. */
  lemma HashIsRead(s: Str)
    ensures HexToHash(s).Some? <==> |s| == 64 && forall i: nat :: i < 32 ==> PairNumber(s, i, true).Some?
    ensures HexToHash(s).Some? ==> forall i: nat :: i < 32 ==> Some(HexToHash(s).value[i] as nat) == PairNumber(s, i, true)
  {
    RadixMeans(s);
    hide PairNumber, DecodeRadix;
  }
}

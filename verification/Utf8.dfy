/** UTF-8 well-formedness (the table of section 4 of RFC 3629) and the lossy conversion
    `String::from_utf8_lossy`, which replaces every maximal ill-formed piece by U+FFFD. */
module Utf8 {
  import opened Base

  predicate Continuation(b: byte) {
    0x80 <= b <= 0xBF
  }

  /** Number of bytes announced by a lead byte, or 0 when no character starts with it. */
  function Width(b: byte): nat {
    if b <= 0x7F then 1
    else if 0xC2 <= b <= 0xDF then 2
    else if 0xE0 <= b <= 0xEF then 3
    else if 0xF0 <= b <= 0xF4 then 4
    else 0
  }

  /** The second byte's range depends on the lead byte: no overlong forms, no surrogates,
      nothing above U+10FFFF. */
  predicate SecondOk(lead: byte, b: byte) {
    if lead == 0xE0 then 0xA0 <= b <= 0xBF
    else if lead == 0xED then 0x80 <= b <= 0x9F
    else if lead == 0xF0 then 0x90 <= b <= 0xBF
    else if lead == 0xF4 then 0x80 <= b <= 0x8F
    else Continuation(b)
  }

  /** How many bytes at the front of `s` agree with the character its lead byte announces. */
  function Matched(s: Bytes): (n: nat)
    requires s != []
    ensures n <= |s| && n <= Width(s[0])
  {
    var w := Width(s[0]);
    if w <= 1 then w
    else if |s| < 2 || !SecondOk(s[0], s[1]) then 1
    else if w == 2 then 2
    else if |s| < 3 || !Continuation(s[2]) then 2
    else if w == 3 then 3
    else if |s| < 4 || !Continuation(s[3]) then 3
    else 4
  }

  /** Length of the well-formed character at the front of `s`, or 0. */
  function CharLen(s: Bytes): (n: nat)
    ensures n <= |s|
  {
    if s != [] && Width(s[0]) > 0 && Matched(s) == Width(s[0]) then Width(s[0]) else 0
  }

  predicate Valid(s: Bytes) {
    s == [] || (CharLen(s) > 0 && Valid(s[CharLen(s)..]))
  }

  const REPLACEMENT: Bytes := [0xEF, 0xBF, 0xBD]

  /** The piece an ill-formed front is replaced as: at least one byte. */
  function BadLen(s: Bytes): (n: nat)
    requires s != []
    ensures 0 < n <= |s|
  {
    if Width(s[0]) == 0 then 1 else Matched(s)
  }

  function Lossy(s: Bytes): Bytes {
    if s == [] then []
    else if CharLen(s) > 0 then s[..CharLen(s)] + Lossy(s[CharLen(s)..])
    else REPLACEMENT + Lossy(s[BadLen(s)..])
  }

  /** What follows a complete character does not change how it is read. */
  lemma CharLenAppend(s: Bytes, t: Bytes)
    requires CharLen(s) > 0
    ensures CharLen(s + t) == CharLen(s)
    ensures (s + t)[CharLen(s)..] == s[CharLen(s)..] + t
  {
  }

  lemma AsciiCharIsValid(s: Bytes)
    requires |s| == 1 && s[0] <= 0x7F
    ensures Valid(s)
  {
    assert s[1..] == [];
  }

  lemma {:induction false} ValidAppend(s: Bytes, t: Bytes)
    requires Valid(s) && Valid(t)
    ensures Valid(s + t)
    decreases |s|
  {
    if s == [] {
      assert s + t == t;
    } else {
      CharLenAppend(s, t);
      ValidAppend(s[CharLen(s)..], t);
    }
  }

  /** An ASCII byte is always a character of its own, so text splits at it. */
  lemma {:induction false} ValidAtAscii(s: Bytes, a: byte, t: Bytes)
    requires a <= 0x7F
    ensures Valid(s + [a] + t) <==> Valid(s) && Valid(t)
    decreases |s|
  {
    var u := s + [a] + t;
    if s == [] {
      assert u == [a] + t;
      assert u[1..] == t;
    } else if CharLen(s) > 0 {
      assert u == s + ([a] + t);
      CharLenAppend(s, [a] + t);
      assert s[CharLen(s)..] + [a] + t == s[CharLen(s)..] + ([a] + t);
      ValidAtAscii(s[CharLen(s)..], a, t);
    } else {
      // the ASCII byte cannot complete a character left open at the end of s
      assert CharLen(u) == 0;
    }
  }

  lemma {:induction false} LossyIsValid(s: Bytes)
    ensures Valid(Lossy(s))
    decreases |s|
  {
    if s == [] {
    } else if CharLen(s) > 0 {
      var n := CharLen(s);
      LossyIsValid(s[n..]);
      assert s == s[..n] + s[n..];
      assert CharLen(s[..n]) == n;
      assert s[..n][n..] == [];
      ValidAppend(s[..n], Lossy(s[n..]));
    } else {
      LossyIsValid(s[BadLen(s)..]);
      assert CharLen(REPLACEMENT) == 3 && REPLACEMENT[3..] == [];
      ValidAppend(REPLACEMENT, Lossy(s[BadLen(s)..]));
    }
  }

  /** The lossy conversion changes exactly the ill-formed texts. */
  lemma {:induction false} LossyFixesOnlyIllFormed(s: Bytes)
    ensures Lossy(s) == s <==> Valid(s)
    decreases |s|
  {
    LossyIsValid(s);
    if Valid(s) && s != [] {
      LossyFixesOnlyIllFormed(s[CharLen(s)..]);
      assert s == s[..CharLen(s)] + s[CharLen(s)..];
    }
  }

  /** The next piece of the text and what it is written as. */
  function PieceLen(s: Bytes): (n: nat)
    requires s != []
    ensures 0 < n <= |s|
  {
    if CharLen(s) > 0 then CharLen(s) else BadLen(s)
  }

  function Piece(s: Bytes): Bytes
    requires s != []
  {
    if CharLen(s) > 0 then s[..CharLen(s)] else REPLACEMENT
  }

  lemma LossyStep(s: Bytes)
    requires s != []
    ensures Lossy(s) == Piece(s) + Lossy(s[PieceLen(s)..])
  {
  }

  lemma FrontKept(s: Bytes, a: byte, t: Bytes)
    requires a <= 0x7F && s != []
    ensures PieceLen(s + [a] + t) == PieceLen(s) && Piece(s + [a] + t) == Piece(s)
  {
  }

  lemma LossyAscii(a: byte, t: Bytes)
    requires a <= 0x7F
    ensures Lossy([a] + t) == [a] + Lossy(t)
  {
    assert ([a] + t)[1..] == t && ([a] + t)[..1] == [a];
  }

  /** An ASCII byte neither completes nor joins an ill-formed piece, so the lossy conversion
      also splits at it. */
  lemma {:induction false} LossyAtAscii(s: Bytes, a: byte, t: Bytes)
    requires a <= 0x7F
    ensures Lossy(s + [a] + t) == Lossy(s) + [a] + Lossy(t)
    decreases |s|
  {
    hide Lossy, PieceLen, Piece;
    if s == [] {
      assert s + [a] + t == [a] + t;
      LossyAscii(a, t);
      LossyLength(s);
    } else {
      var u, n := s + [a] + t, PieceLen(s);
      FrontKept(s, a, t);
      LossyStep(s);
      LossyStep(u);
      assert u[n..] == s[n..] + [a] + t;
      LossyAtAscii(s[n..], a, t);
      var head, tail := Piece(s), Lossy(s[n..]);
      assert head + (tail + [a] + Lossy(t)) == head + tail + [a] + Lossy(t);
    }
  }

  /** The conversion makes no ASCII byte. */
  lemma {:induction false} LossyKeepsOut(s: Bytes, a: byte)
    requires a <= 0x7F && a !in s
    ensures a !in Lossy(s)
    decreases |s|
  {
    if s != [] {
      LossyKeepsOut(s[PieceLen(s)..], a);
    }
  }

  lemma {:induction false} LossyLength(s: Bytes)
    ensures Lossy(s) == [] <==> s == []
  {
  }

  /** A text and its lossy form end in the same ASCII byte, if in any. */
  lemma {:induction false} LossyLast(s: Bytes, a: byte)
    requires a <= 0x7F && s != []
    ensures Lossy(s) != [] && (Lossy(s)[|Lossy(s)| - 1] == a <==> s[|s| - 1] == a)
    decreases |s|
  {
    var n := PieceLen(s);
    if n < |s| {
      LossyLast(s[n..], a);
    } else {
      assert Lossy(s[n..]) == [];
    }
  }

  // ----- against the definition of the encoding -----------------------------------------

  /** A Unicode scalar value: a code point that is not a surrogate. */
  predicate IsScalar(c: nat) {
    c <= 0x10FFFF && !(0xD800 <= c <= 0xDFFF)
  }

  /** How a scalar value is written (section 3 of RFC 3629): its bits in groups of six. */
  function EncodeScalar(c: nat): (s: Bytes)
    requires IsScalar(c)
    ensures 1 <= |s| <= 4
  {
    var low := (0x80 + c % 64) as byte;
    if c < 0x80 then [c as byte]
    else if c < 0x800 then [(0xC0 + c / 64) as byte, low]
    else if c < 0x10000 then [(0xE0 + c / 4096) as byte, (0x80 + c / 64 % 64) as byte, low]
    else [(0xF0 + c / 262144) as byte, (0x80 + c / 4096 % 64) as byte, (0x80 + c / 64 % 64) as byte, low]
  }

  function EncodeScalars(cs: seq<nat>): Bytes
    requires forall c :: c in cs ==> IsScalar(c)
  {
    if cs == [] then [] else EncodeScalar(cs[0]) + EncodeScalars(cs[1..])
  }

  lemma ScalarIsChar(c: nat)
    requires IsScalar(c)
    ensures CharLen(EncodeScalar(c)) == |EncodeScalar(c)|
  {
  }

  lemma ScalarOfTwo(a: int, b: int)
    requires 0xC2 <= a <= 0xDF && 0x80 <= b <= 0xBF
    ensures var c: int := (a - 0xC0) * 64 + (b - 0x80);
            && 0x80 <= c < 0x800 && 0xC0 + c / 64 == a && 0x80 + c % 64 == b
  {
  }

  lemma ScalarOfThree(a: int, b: int, d: int)
    requires 0xE0 <= a <= 0xEF && 0x80 <= b <= 0xBF && 0x80 <= d <= 0xBF
    requires (a == 0xE0 ==> 0xA0 <= b) && (a == 0xED ==> b <= 0x9F)
    ensures var c: int := (a - 0xE0) * 4096 + (b - 0x80) * 64 + (d - 0x80);
            && 0x800 <= c < 0x10000 && !(0xD800 <= c <= 0xDFFF)
            && 0xE0 + c / 4096 == a && 0x80 + c / 64 % 64 == b && 0x80 + c % 64 == d
  {
    var c: int := (a - 0xE0) * 4096 + (b - 0x80) * 64 + (d - 0x80);
    assert c / 64 == (a - 0xE0) * 64 + (b - 0x80);
  }

  lemma ScalarOfFour(a: int, b: int, d: int, e: int)
    requires 0xF0 <= a <= 0xF4 && 0x80 <= b <= 0xBF && 0x80 <= d <= 0xBF && 0x80 <= e <= 0xBF
    requires (a == 0xF0 ==> 0x90 <= b) && (a == 0xF4 ==> b <= 0x8F)
    ensures var c: int := (a - 0xF0) * 262144 + (b - 0x80) * 4096 + (d - 0x80) * 64 + (e - 0x80);
            && 0x10000 <= c <= 0x10FFFF
            && 0xF0 + c / 262144 == a && 0x80 + c / 4096 % 64 == b && 0x80 + c / 64 % 64 == d && 0x80 + c % 64 == e
  {
    var c: int := (a - 0xF0) * 262144 + (b - 0x80) * 4096 + (d - 0x80) * 64 + (e - 0x80);
    assert c / 64 == (a - 0xF0) * 4096 + (b - 0x80) * 64 + (d - 0x80);
    assert c / 4096 == (a - 0xF0) * 64 + (b - 0x80);
  }

  lemma ShortCharIsScalar(s: Bytes) returns (c: nat)
    requires CharLen(s) in {1, 2}
    ensures IsScalar(c) && EncodeScalar(c) == s[..CharLen(s)]
  {
    var a: int := s[0] as int;
    if CharLen(s) == 1 {
      c := a;
    } else {
      var b: int := s[1] as int;
      ScalarOfTwo(a, b);
      c := (a - 0xC0) * 64 + (b - 0x80);
      assert s[..2] == [s[0], s[1]];
    }
  }

  lemma LongCharIsScalar(s: Bytes) returns (c: nat)
    requires CharLen(s) in {3, 4}
    ensures IsScalar(c) && EncodeScalar(c) == s[..CharLen(s)]
  {
    var a: int, b: int, d: int := s[0] as int, s[1] as int, s[2] as int;
    if CharLen(s) == 3 {
      ScalarOfThree(a, b, d);
      c := (a - 0xE0) * 4096 + (b - 0x80) * 64 + (d - 0x80);
      assert s[..3] == [s[0], s[1], s[2]];
    } else {
      var e: int := s[3] as int;
      ScalarOfFour(a, b, d, e);
      c := (a - 0xF0) * 262144 + (b - 0x80) * 4096 + (d - 0x80) * 64 + (e - 0x80);
      assert s[..4] == [s[0], s[1], s[2], s[3]];
    }
  }

  lemma CharIsScalar(s: Bytes) returns (c: nat)
    requires CharLen(s) > 0
    ensures IsScalar(c) && EncodeScalar(c) == s[..CharLen(s)]
  {
    assert CharLen(s) in {1, 2} || CharLen(s) in {3, 4};
    hide CharLen, EncodeScalar;
    if CharLen(s) in {1, 2} { c := ShortCharIsScalar(s); } else { c := LongCharIsScalar(s); }
  }

  lemma {:induction false} ScalarsAreValid(cs: seq<nat>)
    requires forall c :: c in cs ==> IsScalar(c)
    ensures Valid(EncodeScalars(cs))
  {
    if cs != [] {
      ScalarIsChar(cs[0]);
      hide EncodeScalar;
      CharLenAppend(EncodeScalar(cs[0]), EncodeScalars(cs[1..]));
      ScalarsAreValid(cs[1..]);
      var c := EncodeScalar(cs[0]);
      assert c[|c|..] == [];
    }
  }

  lemma {:induction false} ValidAreScalars(s: Bytes) returns (cs: seq<nat>)
    requires Valid(s)
    ensures (forall c :: c in cs ==> IsScalar(c)) && EncodeScalars(cs) == s
    decreases |s|
  {
    if s == [] {
      cs := [];
    } else {
      var c := CharIsScalar(s);
      hide EncodeScalar, CharLen;
      var n := CharLen(s);
      var rest := ValidAreScalars(s[n..]);
      cs := [c] + rest;
      assert cs[1..] == rest && s == s[..n] + s[n..];
    }
  }

  /** Well-formed text is exactly what some sequence of Unicode scalar values is written as. */
  lemma ValidIff(s: Bytes)
    ensures Valid(s) <==> exists cs: seq<nat> :: (forall c :: c in cs ==> IsScalar(c)) && EncodeScalars(cs) == s
  {
    if Valid(s) {
      var cs := ValidAreScalars(s);
    }
    forall cs: seq<nat> | (forall c :: c in cs ==> IsScalar(c)) && EncodeScalars(cs) == s ensures Valid(s) {
      ScalarsAreValid(cs);
    }
  }

  /** `s` is the beginning of the encoding of some scalar value. */
  ghost predicate BeginsScalar(s: Bytes) {
    exists c :: IsScalar(c) && s <= EncodeScalar(c)
  }

  /** A character begun: the encoding of the smallest scalar value that begins so. */
  function Completed(s: Bytes): Bytes
    requires s != []
  {
    var second := if s[0] == 0xE0 then 0xA0 else if s[0] == 0xF0 then 0x90 else 0x80;
    if |s| >= Width(s[0]) then s
    else if |s| == 1 then [s[0], second] + seq(if Width(s[0]) > 2 then Width(s[0]) - 2 else 0, i => 0x80)
    else s + seq(Width(s[0]) - |s|, i => 0x80)
  }

  lemma MatchedBegins(s: Bytes)
    requires s != [] && Width(s[0]) > 0 && 0 < Matched(s)
    ensures BeginsScalar(s[..Matched(s)])
  {
    var t := Completed(s[..Matched(s)]);
    assert CharLen(t) == |t|;
    var c := CharIsScalar(t);
    assert s[..Matched(s)] <= t && t[..|t|] == t;
  }

  lemma BeginningMatches(s: Bytes, c: nat, k: nat)
    requires IsScalar(c) && 0 < k <= |s| && s[..k] <= EncodeScalar(c)
    ensures Width(s[0]) > 0 && Matched(s) >= k
  {
    ScalarIsChar(c);
    hide EncodeScalar;
    var e := EncodeScalar(c);
    assert forall i :: 0 <= i < k ==> s[i] == s[..k][i] == e[i];
  }

  /** What is replaced at an ill-formed place is the longest beginning of a character there, or
      one byte where no character begins so. */
  lemma BadPieceIsMaximal(s: Bytes)
    requires s != [] && CharLen(s) == 0
    ensures var n := BadLen(s);
            && (n == 1 || BeginsScalar(s[..n]))
            && (forall k: nat :: n < k <= |s| ==> !BeginsScalar(s[..k]))
  {
    var n := BadLen(s);
    if Width(s[0]) > 0 && 0 < Matched(s) {
      MatchedBegins(s);
    }
    forall k: nat | n < k <= |s| ensures !BeginsScalar(s[..k]) {
      forall c | IsScalar(c) ensures !(s[..k] <= EncodeScalar(c)) {
        if s[..k] <= EncodeScalar(c) { BeginningMatches(s, c, k); }
      }
    }
  }

  /** The lossy conversion, read off the encoding: a character stays, an ill-formed piece becomes
      U+FFFD. */
  lemma LossyMeans(s: Bytes)
    ensures forall c :: IsScalar(c) && EncodeScalar(c) <= s ==>
              Lossy(s) == EncodeScalar(c) + Lossy(s[|EncodeScalar(c)|..])
    ensures s != [] && (forall c :: IsScalar(c) ==> !(EncodeScalar(c) <= s)) ==>
              Lossy(s) == EncodeScalar(0xFFFD) + Lossy(s[BadLen(s)..])
  {
    forall c | IsScalar(c) && EncodeScalar(c) <= s
      ensures Lossy(s) == EncodeScalar(c) + Lossy(s[|EncodeScalar(c)|..])
    {
      ScalarIsChar(c);
      var e := EncodeScalar(c);
      assert s == e + s[|e|..];
      CharLenAppend(e, s[|e|..]);
      assert s[..|e|] == e;
    }
    if CharLen(s) > 0 {
      var c := CharIsScalar(s);
      assert EncodeScalar(c) <= s;
    }
  }
}

/** Byte-string operations of the Rust standard library that several components rely on:
    literals, searching, `str::replace` with a one-byte pattern, and decimal integers. */
module Text {
  import opened Base

  /** An ASCII literal as text. */
  function Ascii(s: string): (t: Str)
    requires forall i :: 0 <= i < |s| ==> s[i] < 128 as char
    ensures |t| == |s| && forall i :: 0 <= i < |s| ==> t[i] as int == s[i] as int
  {
    seq(|s|, i requires 0 <= i < |s| => s[i] as int as byte)
  }

  /** Index of the first `c`, or the length when there is none. */
  function IndexOf(s: Str, c: byte): (k: nat)
    ensures k <= |s| && c !in s[..k] && (k < |s| ==> s[k] == c)
  {
    if s == [] || s[0] == c then 0 else 1 + IndexOf(s[1..], c)
  }

  lemma IndexOfFirst(a: Str, c: byte, b: Str)
    requires c !in a
    ensures IndexOf(a + [c] + b, c) == |a|
  {
    var s := a + [c] + b;
    var k := IndexOf(s, c);
    assert s[|a|] == c;
    assert forall i :: 0 <= i < |a| ==> s[i] == a[i] && s[i] != c;
    assert forall i :: 0 <= i < k ==> s[..k][i] != c;
  }

  lemma IndexOfNone(s: Str, c: byte)
    requires c !in s
    ensures IndexOf(s, c) == |s|
  {
  }

  /** `s.replace(c, t)` for a one-byte pattern. */
  function ReplaceByte(s: Str, c: byte, t: Str): Str {
    if s == [] then [] else (if s[0] == c then t else [s[0]]) + ReplaceByte(s[1..], c, t)
  }

  /** `s.replace(pattern, [c])`: matches are found from the left and do not overlap. */
  function ReplaceStr(s: Str, pattern: Str, c: byte): Str
    requires pattern != []
  {
    if s == [] then []
    else if pattern <= s then [c] + ReplaceStr(s[|pattern|..], pattern, c)
    else [s[0]] + ReplaceStr(s[1..], pattern, c)
  }

  // ----- decimal integers ---------------------------------------------------------------

  predicate IsDecimal(c: byte) {
    48 <= c <= 57
  }

  function ShowNat(n: nat): (s: Str)
    ensures s != []
  {
    var last := [(48 + n % 10) as byte];
    if n < 10 then last else ShowNat(n / 10) + last
  }

  function ShowInt(n: int): (s: Str)
    ensures s != []
  {
    if n < 0 then [MINUS] + ShowNat(-n) else ShowNat(n)
  }

  /** Value of a digit string; nothing but digits is read, and not the empty string. */
  function ReadNat(s: Str): Option<nat> {
    if s == [] || !IsDecimal(s[|s| - 1]) then None
    else
      var last := s[|s| - 1] as nat - 48;
      if |s| == 1 then Some(last)
      else match ReadNat(s[..|s| - 1])
        case None => None
        case Some(n) => Some(10 * n + last)
  }

  /** The values of a signed 64-bit integer. */
  predicate InI64(n: int) {
    -0x8000_0000_0000_0000 <= n < 0x8000_0000_0000_0000
  }

  /** `str::parse::<i64>`: one sign of either kind may stand in front, out of range fails. */
  function ReadI64(s: Str): Option<int> {
    var signed := s != [] && (s[0] == MINUS || s[0] == PLUS);
    match ReadNat(if signed then s[1..] else s)
    case None => None
    case Some(n) =>
      var v := (if signed && s[0] == MINUS then -1 else 1) * n;
      if InI64(v) then Some(v) else None
  }

  lemma {:induction false} NatRoundTrip(n: nat)
    ensures ReadNat(ShowNat(n)) == Some(n)
    ensures forall i :: 0 <= i < |ShowNat(n)| ==> IsDecimal(ShowNat(n)[i])
  {
    var s := ShowNat(n);
    if n >= 10 {
      NatRoundTrip(n / 10);
      assert s[..|s| - 1] == ShowNat(n / 10);
    }
  }

  /** Every 64-bit integer survives printing and parsing, and prints without a slash. */
  lemma I64RoundTrip(n: int)
    requires InI64(n)
    ensures ReadI64(ShowInt(n)) == Some(n)
    ensures SLASH !in ShowInt(n)
  {
    var m: nat := if n < 0 then -n else n;
    NatRoundTrip(m);
    assert n < 0 ==> ShowInt(n)[1..] == ShowNat(m);
    assert forall i :: 0 <= i < |ShowInt(n)| ==> IsDecimal(ShowInt(n)[i]) || ShowInt(n)[i] == MINUS;
  }

  /** The named bytes are these characters. */
  lemma NamedBytes()
    ensures [NEWLINE, SPACE, PERCENT, PLUS, MINUS, DOT, SLASH, BACKSLASH] == Ascii("\n %+-./\\")
  {
  }

  /** The number a digit string writes in base ten, read from the left. */
  function DecimalValue(s: Str, before: nat): nat
    requires forall i :: 0 <= i < |s| ==> 48 <= s[i] <= 57
  {
    if s == [] then before else DecimalValue(s[1..], 10 * before + (s[0] as nat - 48))
  }

  lemma {:induction false} DecimalSnoc(s: Str, c: byte, before: nat)
    requires 48 <= c <= 57 && forall i :: 0 <= i < |s| ==> 48 <= s[i] <= 57
    ensures DecimalValue(s + [c], before) == 10 * DecimalValue(s, before) + (c as nat - 48)
    decreases |s|
  {
    if s == [] {
      assert [c][1..] == [] && s + [c] == [c];
    } else {
      DecimalSnoc(s[1..], c, 10 * before + (s[0] as nat - 48));
      assert (s + [c])[1..] == s[1..] + [c];
    }
  }

  /** Exactly the non-empty digit strings are read, as the base-ten numbers they write. */
  lemma {:induction false} ReadNatIff(s: Str)
    ensures ReadNat(s).Some? <==> s != [] && forall i :: 0 <= i < |s| ==> 48 <= s[i] <= 57
    ensures ReadNat(s).Some? ==> ReadNat(s).value == DecimalValue(s, 0)
  {
    if s != [] {
      var init, c := s[..|s| - 1], s[|s| - 1];
      assert s == init + [c];
      ReadNatIff(init);
      if init == [] {
        assert s[1..] == [];
      } else if ReadNat(s).Some? {
        DecimalSnoc(init, c, 0);
      }
    }
  }

  /** A number is written as the digit string of its value without a leading zero. */
  lemma {:induction false} ShowNatIsDecimal(n: nat)
    ensures var s := ShowNat(n);
            && (forall i :: 0 <= i < |s| ==> 48 <= s[i] <= 57)
            && DecimalValue(s, 0) == n && (if n == 0 then s == [48] else s[0] != 48)
  {
    NatRoundTrip(n);
    ReadNatIff(ShowNat(n));
    if n >= 10 {
      ShowNatIsDecimal(n / 10);
    }
  }

  /** What `parse::<i64>` reads: a digit string, with at most one sign in front, whose number has
      64 bits. */
  lemma ReadI64Means(s: Str)
    ensures ReadI64(s).Some? ==> ReadNat(s).Some? || (s != [] && s[0] in Ascii("+-") && ReadNat(s[1..]).Some?)
    ensures ReadNat(s).Some? ==>
              ReadI64(s) == if ReadNat(s).value <= 9223372036854775807 then Some(ReadNat(s).value) else None
    ensures s != [] && s[0] in Ascii("+") && ReadNat(s[1..]).Some? ==>
              ReadI64(s) == if ReadNat(s[1..]).value <= 9223372036854775807 then Some(ReadNat(s[1..]).value) else None
    ensures s != [] && s[0] in Ascii("-") && ReadNat(s[1..]).Some? ==>
              ReadI64(s) == if ReadNat(s[1..]).value <= 9223372036854775808 then Some(-1 * ReadNat(s[1..]).value) else None
  {
    ReadNatIff(s);
    assert MINUS == Ascii("+-")[1] == Ascii("-")[0] && PLUS == Ascii("+-")[0] == Ascii("+")[0];
  }
}

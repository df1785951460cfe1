/** Printer and parser of the local stub URL (src/presign.rs). The keyed signature is a
    parameter: any function from operation, object path and expiry to 32 bytes. */
module Presign {
  import opened Base
  import opened Text
  import opened TreeCodec
  import Hex
  import Utf8

  datatype Op = Get | Put

  type Signer = (Op, Str, int) -> Hash

  datatype PresignError = Malformed | InvalidSignature | Expired

  datatype ResolvedStub = ResolvedStub(fsPath: Str, op: Op, expiresAt: int)

  const SCHEME := Ascii("stub+local://")
  const GET := Ascii("get")
  const PUT := Ascii("put")
  const PCT_PERCENT: Str := [37, 50, 53]
  const PCT_SLASH: Str := [37, 50, 70]

  function OpStr(op: Op): Str {
    match op case Get => GET case Put => PUT
  }

  function OpFromStr(s: Str): Option<Op> {
    if s == GET then Some(Get) else if s == PUT then Some(Put) else None
  }

  function PctEncode(s: Str): Str {
    ReplaceByte(ReplaceByte(s, PERCENT, PCT_PERCENT), SLASH, PCT_SLASH)
  }

  function PctDecode(s: Str): Str {
    ReplaceStr(ReplaceStr(s, PCT_SLASH, SLASH), PCT_PERCENT, PERCENT)
  }

  function BuildStubUrl(sig: Signer, base: Bytes, op: Op, path: Str, expiresAt: int): Str {
    SCHEME + (Hex.Encode(Utf8.Lossy(base)) + [SLASH] + (ShowInt(expiresAt) + [SLASH] + (OpStr(op) + [SLASH]
    + (Hex.Encode(sig(op, path, expiresAt)) + [SLASH] + PctEncode(path)))))
  }

  /** `splitn(n, '/')`: the last part keeps its slashes. */
  function SplitN(s: Str, n: nat): (parts: seq<Str>)
    requires n > 0
    ensures 0 < |parts| <= n
    decreases n
  {
    var k := IndexOf(s, SLASH);
    if n == 1 || k == |s| then [s] else [s[..k]] + SplitN(s[k + 1..], n - 1)
  }

  /** `Path::join`: an absolute path replaces the base. */
  function Join(base: Str, path: Str): Str {
    if path != [] && path[0] == SLASH then path else Under(base, path)
  }

  /** The object below the base, one slash between. */
  function Under(base: Str, path: Str): Str {
    base + (if base == [] || base[|base| - 1] == SLASH then [] else [SLASH]) + path
  }

  /** The signature is checked before the expiry. */
  function ResolveStub(sig: Signer, url: Str, now: int): Result<ResolvedStub, PresignError>
    requires url != []
  {
    if !(SCHEME <= url) then Err(Malformed)
    else
      var parts := SplitN(url[|SCHEME|..], 5);
      if |parts| < 5 then Err(Malformed)
      else
        match (Hex.Decode(parts[0]), ReadI64(parts[1]), OpFromStr(parts[2]))
        case (Some(base), Some(expiresAt), Some(op)) =>
          if !Utf8.Valid(base) then Err(Malformed) else
          var path := PctDecode(parts[4]);
          var provided := Hex.Decode(parts[3]);
          if provided.None? then Err(Malformed)
          else if |provided.value| != 32 || provided.value != sig(op, path, expiresAt) then Err(InvalidSignature)
          else if now > expiresAt then Err(Expired)
          else Ok(ResolvedStub(Join(base, path), op, expiresAt))
        case _ => Err(Malformed)
  }

  // ----- percent encoding ---------------------------------------------------------------

  lemma ReplaceStrSkip(c: byte, t: Str, pattern: Str, d: byte)
    requires pattern != [] && c != pattern[0]
    ensures ReplaceStr([c] + t, pattern, d) == [c] + ReplaceStr(t, pattern, d)
  {
    assert ([c] + t)[1..] == t;
  }

  lemma ReplaceStrHit(t: Str, pattern: Str, d: byte)
    requires pattern != []
    ensures ReplaceStr(pattern + t, pattern, d) == [d] + ReplaceStr(t, pattern, d)
  {
    assert (pattern + t)[|pattern|..] == t;
  }

  /** A `%25` is not taken for a `%2F`. */
  lemma ReplaceStrMiss(t: Str)
    ensures ReplaceStr(PCT_PERCENT + t, PCT_SLASH, SLASH) == PCT_PERCENT + ReplaceStr(t, PCT_SLASH, SLASH)
  {
    var s := PCT_PERCENT + t;
    assert s[2] != PCT_SLASH[2];
    assert s[1..] == [50] + ([53] + t);
    ReplaceStrSkip(50, [53] + t, PCT_SLASH, SLASH);
    ReplaceStrSkip(53, t, PCT_SLASH, SLASH);
  }

  lemma {:induction false} SlashesDecode(s: Str)
    ensures ReplaceStr(PctEncode(s), PCT_SLASH, SLASH) == ReplaceByte(s, PERCENT, PCT_PERCENT)
    ensures SLASH !in PctEncode(s)
  {
    if s != [] {
      hide ReplaceStr;
      var t := s[1..];
      SlashesDecode(t);
      EncodeCons(s);
      if s[0] == PERCENT {
        ReplaceStrMiss(PctEncode(t));
      } else if s[0] == SLASH {
        ReplaceStrHit(PctEncode(t), PCT_SLASH, SLASH);
      } else {
        ReplaceStrSkip(s[0], PctEncode(t), PCT_SLASH, SLASH);
      }
    }
  }

  lemma EncodeCons(s: Str)
    requires s != []
    ensures PctEncode(s) == (if s[0] == PERCENT then PCT_PERCENT else if s[0] == SLASH then PCT_SLASH else [s[0]])
                            + PctEncode(s[1..])
  {
    var r := ReplaceByte(s[1..], PERCENT, PCT_PERCENT);
    if s[0] == PERCENT {
      var e := PCT_PERCENT + r;
      assert e[1..] == [50, 53] + r && e[1..][1..] == [53] + r && e[1..][1..][1..] == r;
      assert ReplaceByte(e[1..][1..], SLASH, PCT_SLASH) == [53] + PctEncode(s[1..]);
      assert ReplaceByte(e[1..], SLASH, PCT_SLASH) == [50, 53] + PctEncode(s[1..]);
    } else {
      assert ([s[0]] + r)[1..] == r;
    }
  }

  lemma {:induction false} PercentsDecode(s: Str)
    ensures ReplaceStr(ReplaceByte(s, PERCENT, PCT_PERCENT), PCT_PERCENT, PERCENT) == s
  {
    if s != [] {
      hide ReplaceStr;
      PercentsDecode(s[1..]);
      var r := ReplaceByte(s[1..], PERCENT, PCT_PERCENT);
      assert s == [s[0]] + s[1..];
      if s[0] == PERCENT {
        ReplaceStrHit(r, PCT_PERCENT, PERCENT);
      } else {
        ReplaceStrSkip(s[0], r, PCT_PERCENT, PERCENT);
      }
    } else {
      assert ReplaceStr([], PCT_PERCENT, PERCENT) == [];
    }
  }

  /** Every text survives percent encoding, and comes out without a slash. */
  lemma PctRoundTrip(s: Str)
    ensures PctDecode(PctEncode(s)) == s
    ensures SLASH !in PctEncode(s)
  {
    hide ReplaceStr, ReplaceByte, PctEncode;
    SlashesDecode(s);
    PercentsDecode(s);
  }

  // ----- the URL ------------------------------------------------------------------------

  lemma SplitNCons(a: Str, b: Str, n: nat)
    requires SLASH !in a && n > 1
    ensures SplitN(a + [SLASH] + b, n) == [a] + SplitN(b, n - 1)
  {
    IndexOfFirst(a, SLASH, b);
    var s := a + [SLASH] + b;
    assert s[..|a|] == a && s[|a| + 1..] == b;
  }

  lemma FiveParts(a: Str, b: Str, c: Str, d: Str, e: Str)
    requires SLASH !in a && SLASH !in b && SLASH !in c && SLASH !in d
    ensures SplitN(a + [SLASH] + (b + [SLASH] + (c + [SLASH] + (d + [SLASH] + e))), 5) == [a, b, c, d, e]
  {
    hide SplitN;
    SplitNCons(a, b + [SLASH] + (c + [SLASH] + (d + [SLASH] + e)), 5);
    SplitNCons(b, c + [SLASH] + (d + [SLASH] + e), 4);
    SplitNCons(c, d + [SLASH] + e, 3);
    SplitNCons(d, e, 2);
    assert SplitN(e, 1) == [e] by { LastPart(e); }
  }

  lemma LastPart(e: Str)
    ensures SplitN(e, 1) == [e]
  {
  }

  lemma OpRoundTrip(op: Op)
    ensures OpFromStr(OpStr(op)) == Some(op) && SLASH !in OpStr(op)
  {
    assert GET[0] != PUT[0];
  }

  /** Each field can be read back from its own part of the URL. */
  lemma PartsOfUrl(sig: Signer, base: Bytes, op: Op, path: Str, expiresAt: int)
    requires InI64(expiresAt)
    ensures var url := BuildStubUrl(sig, base, op, path, expiresAt);
            |url| >= |SCHEME| &&
            var parts := SplitN(url[|SCHEME|..], 5);
            && |parts| == 5 && Hex.Decode(parts[0]) == Some(Utf8.Lossy(base)) && ReadI64(parts[1]) == Some(expiresAt)
            && OpFromStr(parts[2]) == Some(op) && Hex.Decode(parts[3]) == Some(sig(op, path, expiresAt))
            && PctDecode(parts[4]) == path
  {
    hide Hex.Encode, Hex.Decode, Utf8.Lossy, Utf8.Valid, ShowInt, ReadI64, OpStr, OpFromStr, PctEncode, PctDecode, SplitN;
    var b := Utf8.Lossy(base);
    var s := sig(op, path, expiresAt);
    Hex.EncodeInverse(b);
    Hex.EncodeInverse(s);
    I64RoundTrip(expiresAt);
    OpRoundTrip(op);
    PctRoundTrip(path);
    FiveParts(Hex.Encode(b), ShowInt(expiresAt), OpStr(op), Hex.Encode(s), PctEncode(path));
    assert BuildStubUrl(sig, base, op, path, expiresAt)[|SCHEME|..]
           == Hex.Encode(b) + [SLASH] + (ShowInt(expiresAt) + [SLASH] + (OpStr(op) + [SLASH]
              + (Hex.Encode(s) + [SLASH] + PctEncode(path))));
  }

  /** A built URL resolves, until it expires, to the four values it was built from: whatever the
      directory's bytes, the object path and the 64-bit expiry are. */
  lemma BuiltUrlResolves(sig: Signer, base: Bytes, op: Op, path: Str, expiresAt: int, now: int)
    requires InI64(expiresAt)
    ensures ResolveStub(sig, BuildStubUrl(sig, base, op, path, expiresAt), now) ==
            if now > expiresAt then Err(Expired)
            else Ok(ResolvedStub(Join(Utf8.Lossy(base), path), op, expiresAt))
  {
    hide Hex.Encode, Hex.Decode, Utf8.Lossy, Utf8.Valid, ShowInt, ReadI64, OpStr, OpFromStr, PctEncode, PctDecode, SplitN, Join;
    Utf8.LossyIsValid(base);
    PartsOfUrl(sig, base, op, path, expiresAt);
  }

  // ----- the signed message -------------------------------------------------------------

  /** What `compute_stub_sig` hashes. */
  function SignedMessage(op: Op, path: Str, expiresAt: int): Str {
    Ascii(if op.Get? then "get" else "put") + Ascii("|") + path + Ascii("|") + ShowInt(expiresAt)
  }

  /** What follows the last bar is determined. */
  lemma LastBarUnique(a: Str, x: Str, b: Str, y: Str, bar: byte)
    requires bar !in x && bar !in y && a + [bar] + x == b + [bar] + y
    ensures a == b && x == y
  {
    var s, t := a + [bar] + x, b + [bar] + y;
    assert s[|a|] == bar && forall k :: |a| < k < |s| ==> s[k] == x[k - |a| - 1];
    assert t[|b|] == bar && forall k :: |b| < k < |t| ==> t[k] == y[k - |b| - 1];
    assert |a| == |b|;
    assert a == s[..|a|] == t[..|b|] == b;
    assert x == s[|a| + 1..] && y == t[|b| + 1..];
  }

  lemma NumberHasNoBar(n: int)
    ensures Ascii("|")[0] !in ShowInt(n)
  {
    var m: nat := if n < 0 then -n else n;
    NatRoundTrip(m);
    var s := ShowInt(n);
    assert forall i :: 0 <= i < |s| ==> IsDecimal(s[i]) || s[i] == MINUS;
  }

  /** The message determines what it was made of, though a path may hold bars of its own: signing
      the message is signing operation, path and expiry. */
  lemma MessageInjective(op: Op, path: Str, expiresAt: int, op2: Op, path2: Str, expiresAt2: int)
    requires InI64(expiresAt) && InI64(expiresAt2)
    requires SignedMessage(op, path, expiresAt) == SignedMessage(op2, path2, expiresAt2)
    ensures (op, path, expiresAt) == (op2, path2, expiresAt2)
  {
    NumberHasNoBar(expiresAt);
    NumberHasNoBar(expiresAt2);
    I64RoundTrip(expiresAt);
    I64RoundTrip(expiresAt2);
    hide ShowInt, ReadI64;
    var bar := Ascii("|");
    var o, o2 := Ascii(if op.Get? then "get" else "put"), Ascii(if op2.Get? then "get" else "put");
    assert bar == [bar[0]];
    hide Ascii;
    LastBarUnique(o + bar + path, ShowInt(expiresAt), o2 + bar + path2, ShowInt(expiresAt2), bar[0]);
    FirstFields(op, path, op2, path2);
  }

  lemma FirstFields(op: Op, path: Str, op2: Op, path2: Str)
    requires Ascii(if op.Get? then "get" else "put") + Ascii("|") + path
          == Ascii(if op2.Get? then "get" else "put") + Ascii("|") + path2
    ensures op == op2 && path == path2
  {
    var bar, o, o2 := Ascii("|"), Ascii(if op.Get? then "get" else "put"), Ascii(if op2.Get? then "get" else "put");
    assert o[0] == o2[0] ==> op == op2;
    hide Ascii;
    assert (o + bar + path)[0] == o[0] && (o2 + bar + path2)[0] == o2[0];
    assert (o + bar + path)[4..] == path && (o2 + bar + path2)[4..] == path2;
  }

  // ----- any URL ------------------------------------------------------------------------

  /** The text of a URL with five fields. */
  function Url(base: Str, expires: Str, op: Str, signature: Str, path: Str): Str {
    Ascii("stub+local://") + base + Ascii("/") + expires + Ascii("/") + op + Ascii("/") + signature + Ascii("/") + path
  }

  lemma UrlParts(a: Str, b: Str, c: Str, d: Str, e: Str)
    requires SLASH !in a && SLASH !in b && SLASH !in c && SLASH !in d
    ensures var url := Url(a, b, c, d, e);
            SCHEME <= url && url != [] && SplitN(url[|SCHEME|..], 5) == [a, b, c, d, e]
  {
    hide SplitN;
    var rest := a + [SLASH] + (b + [SLASH] + (c + [SLASH] + (d + [SLASH] + e)));
    assert Ascii("/") == [SLASH];
    assert Url(a, b, c, d, e) == SCHEME + rest;
    assert (SCHEME + rest)[|SCHEME|..] == rest;
    FiveParts(a, b, c, d, e);
  }

  /** What `build_stub_url` writes. */
  lemma BuiltUrlIs(sig: Signer, base: Bytes, op: Op, path: Str, expiresAt: int)
    ensures BuildStubUrl(sig, base, op, path, expiresAt)
            == Url(Hex.Encode(Utf8.Lossy(base)), ShowInt(expiresAt), Ascii(if op.Get? then "get" else "put"),
                   Hex.Encode(sig(op, path, expiresAt)), PctEncode(path))
  {
    hide Hex.Encode, Utf8.Lossy, ShowInt, PctEncode, Url;
    UrlOfRest(Hex.Encode(Utf8.Lossy(base)), ShowInt(expiresAt), OpStr(op), Hex.Encode(sig(op, path, expiresAt)), PctEncode(path));
  }

  /** The two escapes of an object path: `%25` for a percent sign, `%2F` for a slash. */
  lemma EscapesAre(c: byte, t: Str)
    ensures PctEncode([]) == []
    ensures PctEncode([c] + t)
            == (if [c] == Ascii("%") then Ascii("%25") else if [c] == Ascii("/") then Ascii("%2F") else [c]) + PctEncode(t)
  {
    var s := [c] + t;
    assert s[1..] == t;
    EncodeCons(s);
    assert PCT_PERCENT == Ascii("%25") && PCT_SLASH == Ascii("%2F");
    assert [c] == Ascii("%") <==> c == PERCENT;
    assert [c] == Ascii("/") <==> c == SLASH;
  }

  /** What a URL of five fields resolves to, whoever wrote it. The signature must be the signer's
      for the operation, the decoded path and the expiry that the URL itself names, and is looked
      at before the expiry. */
  lemma FieldsResolve(sig: Signer, a: Str, b: Str, c: Str, d: Str, e: Str, now: int)
    requires SLASH !in a && SLASH !in b && SLASH !in c && SLASH !in d
    ensures var url := Url(a, b, c, d, e);
            url != [] &&
            var r := ResolveStub(sig, url, now);
            if !(Hex.Decode(a).Some? && Utf8.Valid(Hex.Decode(a).value) && ReadI64(b).Some?
                 && (c == Ascii("get") || c == Ascii("put")) && Hex.Decode(d).Some?) then
              r == Err(Malformed)
            else
              var base, expiresAt := Hex.Decode(a).value, ReadI64(b).value;
              var op, path := if c == Ascii("get") then Get else Put, PctDecode(e);
              if Hex.Decode(d).value != sig(op, path, expiresAt) then r == Err(InvalidSignature)
              else if expiresAt < now then r == Err(Expired)
              else
                r.Ok? && r.value.op == op && r.value.expiresAt == expiresAt
                && (r.value.fsPath ==
                    (if Ascii("/") <= path then path
                     else if base == [] || base[|base| - 1] == Ascii("/")[0] then base + path
                     else base + Ascii("/") + path))
  {
    hide Hex.Decode, Utf8.Valid, ReadI64, PctDecode, SplitN, Url;
    UrlParts(a, b, c, d, e);
    assert Ascii("/") == [SLASH];
    var path := PctDecode(e);
    if Hex.Decode(a).Some? {
      var base := Hex.Decode(a).value;
      assert base + [] + path == base + path;
    }
    assert GET[0] != PUT[0];
  }

  lemma FirstField(s: Str, n: nat) returns (head: Str, rest: Str)
    requires n > 1 && |SplitN(s, n)| == n
    ensures SLASH !in head && s == head + [SLASH] + rest && |SplitN(rest, n - 1)| == n - 1
  {
    var k := IndexOf(s, SLASH);
    head, rest := s[..k], s[k + 1..];
  }

  /** Splitting in five finds the fields, if the text has four slashes. */
  lemma FiveFields(s: Str) returns (a: Str, b: Str, c: Str, d: Str, e: Str)
    requires |SplitN(s, 5)| == 5
    ensures SLASH !in a && SLASH !in b && SLASH !in c && SLASH !in d
    ensures s == a + [SLASH] + (b + [SLASH] + (c + [SLASH] + (d + [SLASH] + e)))
  {
    hide SplitN;
    var s1, s2, s3;
    a, s1 := FirstField(s, 5);
    b, s2 := FirstField(s1, 4);
    c, s3 := FirstField(s2, 3);
    d, e := FirstField(s3, 2);
  }

  lemma UrlOfRest(a: Str, b: Str, c: Str, d: Str, e: Str)
    ensures Url(a, b, c, d, e) == SCHEME + (a + [SLASH] + (b + [SLASH] + (c + [SLASH] + (d + [SLASH] + e))))
  {
    assert Ascii("/") == [SLASH];
  }

  /** A URL that does not have the scheme and five fields is malformed; any other is one of
      `FieldsResolve`. */
  lemma OtherUrlsAreMalformed(sig: Signer, url: Str, now: int) returns (a: Str, b: Str, c: Str, d: Str, e: Str)
    requires url != []
    ensures ResolveStub(sig, url, now) == Err(Malformed)
         || (url == Url(a, b, c, d, e) && SLASH !in a && SLASH !in b && SLASH !in c && SLASH !in d)
  {
    hide SplitN, Url, Hex.Decode, Utf8.Valid, ReadI64, PctDecode, OpFromStr, Join;
    a, b, c, d, e := [], [], [], [], [];
    if SCHEME <= url && |SplitN(url[|SCHEME|..], 5)| == 5 {
      hide ResolveStub;
      var rest := url[|SCHEME|..];
      a, b, c, d, e := FiveFields(rest);
      assert url == SCHEME + rest;
      UrlOfRest(a, b, c, d, e);
    }
  }

  /** So, of any URL whatever: one that resolves, or is told to have expired, carries in its fields
      the operation and the expiry, and a signature of them and of its path by this signer. */
  lemma OnlySignedUrlsResolve(sig: Signer, url: Str, now: int)
    returns (a: Str, b: Str, c: Str, d: Str, e: Str, op: Op, expiresAt: int)
    requires url != [] && (ResolveStub(sig, url, now).Ok? || ResolveStub(sig, url, now) == Err(Expired))
    ensures url == Url(a, b, c, d, e) && SLASH !in a && SLASH !in b && SLASH !in c && SLASH !in d
    ensures c == Ascii(if op.Get? then "get" else "put") && ReadI64(b) == Some(expiresAt)
    ensures Hex.Decode(d) == Some(sig(op, PctDecode(e), expiresAt))
    ensures ResolveStub(sig, url, now).Ok? <==> now <= expiresAt
    ensures ResolveStub(sig, url, now).Ok? ==>
              ResolveStub(sig, url, now).value.op == op && ResolveStub(sig, url, now).value.expiresAt == expiresAt
  {
    hide ResolveStub, Url, Hex.Decode, Utf8.Valid, ReadI64, PctDecode;
    a, b, c, d, e := OtherUrlsAreMalformed(sig, url, now);
    FieldsResolve(sig, a, b, c, d, e, now);
    op := if c == Ascii("get") then Get else Put;
    expiresAt := ReadI64(b).value;
  }

  /** The resolved path is the object below the given directory exactly when the directory's
      name is UTF-8 and the object path is not absolute (an absolute one takes its place). */
  lemma ResolvesBelowBaseIff(base: Bytes, path: Str)
    ensures Join(Utf8.Lossy(base), path) == Under(base, path)
            <==> Utf8.Valid(base) && (base == [] || path == [] || path[0] != SLASH)
  {
    hide Utf8.Lossy, Utf8.Valid;
    Utf8.LossyFixesOnlyIllFormed(base);
    Utf8.LossyLength(base);
    var b := Utf8.Lossy(base);
    if base != [] {
      Utf8.LossyLast(base, SLASH);
      if path == [] || path[0] != SLASH {
        UnderTells(b, base, path);
      } else {
        assert |Under(base, path)| > |path|;
      }
    }
  }

  lemma UnderTells(a: Str, b: Str, path: Str)
    requires a != [] && b != [] && (a[|a| - 1] == SLASH <==> b[|b| - 1] == SLASH)
    ensures Under(a, path) == Under(b, path) <==> a == b
  {
    var rest := (if b[|b| - 1] == SLASH then [] else [SLASH]) + path;
    var x, y := a + rest, b + rest;
    assert Under(a, path) == x && Under(b, path) == y;
    assert x[..|x| - |rest|] == a && y[..|y| - |rest|] == b;
  }

  /** Two URLs are equal exactly when operation, object, expiry and the lossy form of the
      directory are: directories share a URL only if they differ in ill-formed bytes alone. */
  lemma UrlsAgreeIff(sig: Signer, base: Bytes, op: Op, path: Str, expiresAt: int,
                     base2: Bytes, op2: Op, path2: Str, expiresAt2: int)
    requires InI64(expiresAt) && InI64(expiresAt2)
    ensures BuildStubUrl(sig, base, op, path, expiresAt) == BuildStubUrl(sig, base2, op2, path2, expiresAt2)
            <==> (Utf8.Lossy(base), op, path, expiresAt) == (Utf8.Lossy(base2), op2, path2, expiresAt2)
  {
    hide Hex.Encode, Hex.Decode, Utf8.Lossy, Utf8.Valid, ShowInt, ReadI64, OpStr, OpFromStr, PctEncode, PctDecode, SplitN;
    PartsOfUrl(sig, base, op, path, expiresAt);
    PartsOfUrl(sig, base2, op2, path2, expiresAt2);
  }
}

/** The byte format of tree objects (src/tree.rs):
    mode (u32, little endian) | name length (u32, little endian) | name | 32-byte hash,
    one record per entry, records in byte order of their names. */
module TreeCodec {
  import opened Base
  import Utf8

  type Hash = h: Bytes | |h| == 32 witness seq(32, i => 0)

  datatype Entry = Entry(mode: u32, name: Str, hash: Hash)

  datatype TreeError = TooManyEntries | HeaderTooShort | BodyTooShort | NameNotUtf8

  const MODE_DIR: u32 := 0x4000
  const MODE_FILE: u32 := 0x81A4
  const MAX_ENTRIES: nat := 65536
  const U32_LIMIT: int := 0x1_0000_0000

  // ----- one record ---------------------------------------------------------------------

  /** The `k` low bytes of `x`, least significant first. */
  function ToLe(x: nat, k: nat): (b: Bytes)
    ensures |b| == k
  {
    if k == 0 then [] else [(x % 256) as byte] + ToLe(x / 256, k - 1)
  }

  function FromLe(b: Bytes): nat {
    if b == [] then 0 else b[0] as nat + 256 * FromLe(b[1..])
  }

  function Power256(k: nat): nat {
    if k == 0 then 1 else 256 * Power256(k - 1)
  }

  lemma {:induction false} FromLeBound(b: Bytes)
    ensures FromLe(b) < Power256(|b|)
  {
    if b != [] {
      FromLeBound(b[1..]);
    }
  }

  lemma {:induction false} LeInverse(x: nat, k: nat, b: Bytes)
    requires x < Power256(k) && |b| == k
    ensures FromLe(ToLe(x, k)) == x
    ensures ToLe(FromLe(b), k) == b
  {
    if k > 0 {
      LeInverse(x / 256, k - 1, b[1..]);
      assert ToLe(x, k)[1..] == ToLe(x / 256, k - 1);
      assert FromLe(b) % 256 == b[0] as nat && FromLe(b) / 256 == FromLe(b[1..]);
    }
  }

  function Le32(x: u32): (b: Bytes)
    ensures |b| == 4
  {
    ToLe(x, 4)
  }

  function FromLe32(b: Bytes): u32
    requires |b| == 4
  {
    FromLeBound(b);
    FromLe(b)
  }

  lemma Le32Inverse(x: u32, b: Bytes)
    requires |b| == 4
    ensures FromLe32(Le32(x)) == x && Le32(FromLe32(b)) == b
  {
    LeInverse(x, 4, b);
  }

  /** The cast of the name's length to `u32` wraps. */
  function EncodeEntry(e: Entry): (b: Bytes)
    ensures |b| == 40 + |e.name|
  {
    Le32(e.mode) + Le32(|e.name| % U32_LIMIT) + e.name + e.hash
  }

  /** The entries the format can carry: a `String` is always UTF-8, and its length must fit
      the length field. */
  predicate Encodable(e: Entry) {
    Utf8.Valid(e.name) && |e.name| < U32_LIMIT
  }

  function DecodeEntry(d: Bytes): (r: Result<(Entry, Bytes), TreeError>)
    ensures r.Ok? ==> |r.value.1| < |d|
  {
    if |d| < 8 then Err(HeaderTooShort)
    else
      var n := FromLe32(d[4..8]);
      if |d| < 8 + n + 32 then Err(BodyTooShort)
      else if !Utf8.Valid(d[8..8 + n]) then Err(NameNotUtf8)
      else Ok((Entry(FromLe32(d[..4]), d[8..8 + n], d[8 + n..8 + n + 32]), d[8 + n + 32..]))
  }

  // ----- a whole object -----------------------------------------------------------------

  function EncodeAll(es: seq<Entry>): Bytes {
    if es == [] then [] else EncodeEntry(es[0]) + EncodeAll(es[1..])
  }

  /** Decoding what is left of an object after `count` entries. */
  function DecodeRest(d: Bytes, count: nat): Result<seq<Entry>, TreeError>
    decreases |d|
  {
    if d == [] then Ok([])
    else if count >= MAX_ENTRIES then Err(TooManyEntries)
    else match DecodeEntry(d)
      case Err(e) => Err(e)
      case Ok((e, rest)) =>
        match DecodeRest(rest, count + 1)
        case Err(x) => Err(x)
        case Ok(es) => Ok([e] + es)
  }

  function Decode(d: Bytes): Result<seq<Entry>, TreeError> {
    DecodeRest(d, 0)
  }

  /** The record at `pos`, read through indices into the whole object. */
  lemma DecodeEntryAt(data: Bytes, pos: nat)
    requires pos <= |data|
    ensures DecodeEntry(data[pos..]) ==
            if pos + 8 > |data| then Err(HeaderTooShort)
            else
              var n := FromLe32(data[pos + 4..pos + 8]);
              if pos + 8 + n + 32 > |data| then Err(BodyTooShort)
              else if !Utf8.Valid(data[pos + 8..pos + 8 + n]) then Err(NameNotUtf8)
              else Ok((Entry(FromLe32(data[pos..pos + 4]), data[pos + 8..pos + 8 + n],
                             data[pos + 8 + n..pos + 8 + n + 32]), data[pos + 8 + n + 32..]))
  {
    var d := data[pos..];
    if pos + 8 <= |data| {
      assert d[..4] == data[pos..pos + 4] && d[4..8] == data[pos + 4..pos + 8];
      var n: nat := FromLe32(d[4..8]);
      if pos + 8 + n + 32 <= |data| {
        assert d[8..8 + n] == data[pos + 8..pos + 8 + n];
        assert d[8 + n..8 + n + 32] == data[pos + 8 + n..pos + 8 + n + 32];
        assert d[8 + n + 32..] == data[pos + 8 + n + 32..];
      }
    }
  }

  /** One turn of the decoding loop, on the specification. */
  lemma DecodeStep(d: Bytes, entries: seq<Entry>, e: Entry, rest: Bytes)
    requires d != [] && |entries| < MAX_ENTRIES && DecodeEntry(d) == Ok((e, rest))
    ensures Prepend(entries, DecodeRest(d, |entries|)) ==
            Prepend(entries + [e], DecodeRest(rest, |entries| + 1))
  {
    hide Utf8.Valid;
    var tail := DecodeRest(rest, |entries| + 1);
    assert tail.Ok? ==> entries + ([e] + tail.value) == (entries + [e]) + tail.value;
  }

  function Prepend(entries: seq<Entry>, r: Result<seq<Entry>, TreeError>): Result<seq<Entry>, TreeError> {
    match r
    case Err(x) => Err(x)
    case Ok(es) => Ok(entries + es)
  }

  /** The decoding loop of `deserialize_tree`. */
  method DeserializeTree(data: Bytes) returns (r: Result<seq<Entry>, TreeError>)
    ensures r == Decode(data)
  {
    hide Utf8.Valid, DecodeEntry;
    var entries: seq<Entry> := [];
    var pos := 0;
    assert data[0..] == data;
    assert Decode(data).Ok? ==> [] + Decode(data).value == Decode(data).value;
    while pos < |data|
      invariant 0 <= pos <= |data|
      invariant Decode(data) == Prepend(entries, DecodeRest(data[pos..], |entries|))
    {
      if |entries| >= MAX_ENTRIES {
        return Err(TooManyEntries);
      }
      DecodeEntryAt(data, pos);
      if pos + 8 > |data| {
        return Err(HeaderTooShort);
      }
      var mode := FromLe32(data[pos..pos + 4]);
      var nameLen := FromLe32(data[pos + 4..pos + 8]);
      ghost var start := pos;
      pos := pos + 8;
      if pos + nameLen + 32 > |data| {
        return Err(BodyTooShort);
      }
      var name := data[pos..pos + nameLen];
      if !Utf8.Valid(name) {
        return Err(NameNotUtf8);
      }
      pos := pos + nameLen;
      var hash: Hash := data[pos..pos + 32];
      pos := pos + 32;
      var e := Entry(mode, name, hash);
      DecodeStep(data[start..], entries, e, data[pos..]);
      entries := entries + [e];
    }
    assert entries + [] == entries;
    return Ok(entries);
  }

  lemma Regroup(d: Bytes, n: nat)
    requires |d| >= 40 + n
    ensures d == d[..4] + d[4..8] + d[8..8 + n] + d[8 + n..8 + n + 32] + d[8 + n + 32..]
  {
  }

  /** A decoded record is the encoding of the entry it gives, and nothing else is. */
  lemma DecodeEntryIsExact(d: Bytes)
    ensures DecodeEntry(d).Ok? ==>
              var (e, rest) := DecodeEntry(d).value; Encodable(e) && d == EncodeEntry(e) + rest
  {
    hide Utf8.Valid, ToLe, FromLe;
    if DecodeEntry(d).Ok? {
      var (e, rest) := DecodeEntry(d).value;
      Le32Inverse(0, d[..4]);
      Le32Inverse(0, d[4..8]);
      Regroup(d, |e.name|);
    }
  }

  lemma EncodeEntryDecodes(e: Entry, rest: Bytes)
    requires Encodable(e)
    ensures DecodeEntry(EncodeEntry(e) + rest) == Ok((e, rest))
  {
    hide Utf8.Valid;
    var n := |e.name|;
    var d := EncodeEntry(e) + rest;
    Le32Inverse(e.mode, [0, 0, 0, 0]);
    Le32Inverse(n, [0, 0, 0, 0]);
    assert d[..4] == Le32(e.mode);
    assert d[4..8] == Le32(n);
    assert d[8..8 + n] == e.name;
    assert d[8 + n..8 + n + 32] == e.hash;
    assert d[8 + n + 32..] == rest;
  }

  /** Encoding then decoding gives the same entries, up to the entry cap. */
  lemma {:induction false} DecodeOfEncode(es: seq<Entry>, count: nat)
    requires forall e :: e in es ==> Encodable(e)
    requires count + |es| <= MAX_ENTRIES
    ensures DecodeRest(EncodeAll(es), count) == Ok(es)
  {
    hide Utf8.Valid;
    if es != [] {
      EncodeEntryDecodes(es[0], EncodeAll(es[1..]));
      DecodeOfEncode(es[1..], count + 1);
      assert [es[0]] + es[1..] == es;
    }
  }

  /** Whatever decodes is a concatenation of whole entries, within the cap. */
  lemma {:induction false} DecodeIsExact(d: Bytes, count: nat)
    ensures DecodeRest(d, count).Ok? ==>
              var es := DecodeRest(d, count).value;
              && d == EncodeAll(es)
              && (forall e :: e in es ==> Encodable(e))
              && (es != [] ==> count + |es| <= MAX_ENTRIES)
    decreases |d|
  {
    hide Utf8.Valid;
    if DecodeRest(d, count).Ok? && d != [] {
      var (e, rest) := DecodeEntry(d).value;
      DecodeEntryIsExact(d);
      DecodeIsExact(rest, count + 1);
    }
  }

  /** Decoding succeeds exactly on concatenations of at most 65536 whole entries with UTF-8
      names, and then returns them. */
  lemma DecodeSucceedsExactlyOn(d: Bytes, es: seq<Entry>)
    ensures Decode(d) == Ok(es) <==>
            d == EncodeAll(es) && |es| <= 65536 && (forall e :: e in es ==> Utf8.Valid(e.name) && |e.name| < 0x1_0000_0000)
  {
    hide Utf8.Valid;
    DecodeIsExact(d, 0);
    if d == EncodeAll(es) && |es| <= MAX_ENTRIES && (forall e :: e in es ==> Encodable(e)) {
      DecodeOfEncode(es, 0);
    }
  }

  /** Small ASCII-named trees decode; used where a concrete store is exhibited. */
  lemma AsciiTreeDecodes(es: seq<Entry>)
    requires |es| <= MAX_ENTRIES && forall e :: e in es ==> |e.name| == 1 && e.name[0] <= 0x7F
    ensures Decode(EncodeAll(es)) == Ok(es)
  {
    hide Utf8.Valid, DecodeRest, EncodeAll;
    forall e | e in es ensures Encodable(e) {
      Utf8.AsciiCharIsValid(e.name);
    }
    DecodeOfEncode(es, 0);
  }

  // ----- name order ---------------------------------------------------------------------

  /** Byte order on names, as `sort_by_key(.. as_bytes())` compares them. */
  predicate NameLe(a: Str, b: Str) {
    a == [] || (b != [] && (a[0] < b[0] || (a[0] == b[0] && NameLe(a[1..], b[1..]))))
  }

  lemma {:induction false} NameLeTotal(a: Str, b: Str)
    ensures NameLe(a, b) || NameLe(b, a)
    ensures NameLe(a, b) && NameLe(b, a) ==> a == b
    ensures NameLe(a, a)
  {
    if a != [] {
      NameLeTotal(a[1..], a[1..]);
      if b != [] {
        NameLeTotal(a[1..], b[1..]);
        assert a == [a[0]] + a[1..] && b == [b[0]] + b[1..];
      }
    }
  }

  lemma {:induction false} NameLeTransitive(a: Str, b: Str, c: Str)
    requires NameLe(a, b) && NameLe(b, c)
    ensures NameLe(a, c)
  {
    if a != [] && a[0] == b[0] == c[0] {
      NameLeTransitive(a[1..], b[1..], c[1..]);
    }
  }

  predicate SortedByName(es: seq<Entry>) {
    |es| > 1 ==> NameLe(es[0].name, es[1].name) && SortedByName(es[1..])
  }

  predicate DistinctNames(es: seq<Entry>) {
    forall i, j :: 0 <= i < j < |es| ==> es[i].name != es[j].name
  }

  /** Stable sort by name: an entry goes in front of the already sorted later ones. */
  function SortByName(es: seq<Entry>): seq<Entry> {
    if es == [] then [] else InsertByName(es[0], SortByName(es[1..]))
  }

  function InsertByName(e: Entry, es: seq<Entry>): seq<Entry> {
    if es == [] || NameLe(e.name, es[0].name) then [e] + es
    else [es[0]] + InsertByName(e, es[1..])
  }

  lemma EncodeEntryParts(e: Entry, before: Bytes)
    ensures before + Le32(e.mode) + Le32(|e.name| % U32_LIMIT) + e.name + e.hash == before + EncodeEntry(e)
  {
  }

  /** The sort, in plain terms: the same entries, their names in byte order. */
  lemma SortMeans(entries: seq<Entry>)
    ensures var order := SortByName(entries);
            && multiset(order) == multiset(entries)
            && forall i: nat, j: nat :: i < j < |order| ==>
                 var a, b := order[i].name, order[j].name;
                 a <= b || exists k: nat :: k < |a| && k < |b| && a[..k] == b[..k] && a[k] < b[k]
  {
    SortKeepsAll(entries);
    forall i: nat, j: nat | i < j < |SortByName(entries)|
      ensures var a, b := SortByName(entries)[i].name, SortByName(entries)[j].name;
              a <= b || exists k: nat :: k < |a| && k < |b| && a[..k] == b[..k] && a[k] < b[k]
    {
      SortIsByteOrder(entries, i, j);
    }
  }

  /** `serialize_tree`: sort, then append record after record. */
  method SerializeTree(entries: seq<Entry>) returns (out: Bytes)
    ensures out == EncodeAll(SortByName(entries))
    ensures var order := SortByName(entries);
            && multiset(order) == multiset(entries)
            && forall i: nat, j: nat :: i < j < |order| ==>
                 var a, b := order[i].name, order[j].name;
                 a <= b || exists k: nat :: k < |a| && k < |b| && a[..k] == b[..k] && a[k] < b[k]
  {
    hide EncodeEntry, SortByName;
    var order := SortByName(entries);
    out := [];
    var i := 0;
    assert order[0..] == order;
    while i < |order|
      invariant 0 <= i <= |order|
      invariant EncodeAll(order) == out + EncodeAll(order[i..])
    {
      var e := order[i];
      assert order[i..][1..] == order[i + 1..];
      ghost var before, tail := out, EncodeAll(order[i + 1..]);
      out := out + Le32(e.mode);
      out := out + Le32(|e.name| % U32_LIMIT);
      out := out + e.name;
      out := out + e.hash;
      EncodeEntryParts(e, before);
      assert before + (EncodeEntry(e) + tail) == out + tail;
      i := i + 1;
    }
    SortMeans(entries);
  }

  lemma {:induction false} LeastName(s: set<Str>) returns (p: Str)
    requires s != {}
    ensures p in s && forall q :: q in s ==> NameLe(p, q)
    decreases |s|
  {
    p :| p in s;
    NameLeTotal(p, p);
    if s != {p} {
      var rest := s - {p};
      var least := LeastName(rest);
      NameLeTotal(p, least);
      if NameLe(p, least) {
        forall q | q in s ensures NameLe(p, q) {
          if q != p { NameLeTransitive(p, least, q); }
        }
      } else {
        p := least;
      }
    }
  }

  /** The entries with one name, in their order. */
  function Named(es: seq<Entry>, name: Str): seq<Entry> {
    if es == [] then []
    else (if es[0].name == name then [es[0]] else []) + Named(es[1..], name)
  }

  lemma {:induction false} InsertSorted(e: Entry, es: seq<Entry>)
    requires SortedByName(es)
    ensures SortedByName(InsertByName(e, es))
    ensures |InsertByName(e, es)| == |es| + 1
    ensures InsertByName(e, es)[0] == e || (es != [] && InsertByName(e, es)[0] == es[0])
  {
    hide NameLe;
    var r := InsertByName(e, es);
    if es == [] || NameLe(e.name, es[0].name) {
      assert r[1..] == es;
    } else {
      NameLeTotal(e.name, es[0].name);
      InsertSorted(e, es[1..]);
      assert r[1..] == InsertByName(e, es[1..]);
    }
  }

  lemma NamedCons(e: Entry, es: seq<Entry>, name: Str)
    ensures Named([e] + es, name) == (if e.name == name then [e] else []) + Named(es, name)
  {
    assert ([e] + es)[1..] == es;
  }

  lemma {:induction false} InsertNamed(e: Entry, es: seq<Entry>, name: Str)
    ensures Named(InsertByName(e, es), name) == (if e.name == name then [e] else []) + Named(es, name)
  {
    if es == [] || NameLe(e.name, es[0].name) {
      NamedCons(e, es, name);
    } else {
      NameLeTotal(e.name, es[0].name);
      hide NameLe, Named;
      InsertNamed(e, es[1..], name);
      NamedCons(es[0], InsertByName(e, es[1..]), name);
      NamedCons(es[0], es[1..], name);
      assert es == [es[0]] + es[1..];
      var rest := Named(es[1..], name);
      assert [] + rest == rest;
    }
  }

  /** The sort is a stable permutation into name order: per name, the same entries in the
      same order. */
  lemma {:induction false} SortSpec(es: seq<Entry>, name: Str)
    ensures SortedByName(SortByName(es)) && |SortByName(es)| == |es|
    ensures Named(SortByName(es), name) == Named(es, name)
  {
    if es != [] {
      SortSpec(es[1..], name);
      InsertSorted(es[0], SortByName(es[1..]));
      InsertNamed(es[0], SortByName(es[1..]), name);
    }
  }

  lemma {:induction false} InsertKeepsAll(e: Entry, es: seq<Entry>)
    ensures multiset(InsertByName(e, es)) == multiset{e} + multiset(es)
  {
    hide NameLe;
    if es != [] {
      InsertKeepsAll(e, es[1..]);
      assert es == [es[0]] + es[1..];
    }
  }

  lemma {:induction false} SortKeepsAll(es: seq<Entry>)
    ensures multiset(SortByName(es)) == multiset(es)
  {
    if es != [] {
      SortKeepsAll(es[1..]);
      InsertKeepsAll(es[0], SortByName(es[1..]));
      assert es == [es[0]] + es[1..];
    }
  }

  lemma {:induction false} SortedIsFixed(es: seq<Entry>)
    requires SortedByName(es)
    ensures SortByName(es) == es
  {
    if es != [] {
      SortedIsFixed(es[1..]);
      assert [es[0]] + es[1..] == es;
    }
  }

  lemma {:induction false} NamedMember(es: seq<Entry>, e: Entry)
    ensures e in Named(es, e.name) <==> e in es
  {
    if es != [] {
      NamedMember(es[1..], e);
      assert es == [es[0]] + es[1..];
    }
  }

  lemma {:induction false} SortedHeadIsLeast(es: seq<Entry>, e: Entry)
    requires SortedByName(es) && e in es
    ensures NameLe(es[0].name, e.name)
  {
    NameLeTotal(e.name, e.name);
    if e != es[0] {
      assert es == [es[0]] + es[1..];
      SortedHeadIsLeast(es[1..], e);
      NameLeTransitive(es[0].name, es[1].name, e.name);
    }
  }

  /** A sorted list is determined by what it holds under each name. */
  lemma {:induction false} SortedDeterminedByNamed(a: seq<Entry>, b: seq<Entry>)
    requires SortedByName(a) && SortedByName(b)
    requires forall name :: Named(a, name) == Named(b, name)
    ensures a == b
  {
    var probe := if a != [] then a[0].name else if b != [] then b[0].name else [];
    assert Named(a, probe) == Named(b, probe);
    if a != [] && b != [] {
      NamedMember(a, a[0]); NamedMember(b, a[0]);
      NamedMember(b, b[0]); NamedMember(a, b[0]);
      SortedHeadIsLeast(b, a[0]);
      SortedHeadIsLeast(a, b[0]);
      NameLeTotal(a[0].name, b[0].name);
      assert Named(a, a[0].name)[0] == Named(b, a[0].name)[0];
      forall name ensures Named(a[1..], name) == Named(b[1..], name) {
        assert Named(a, name) == Named(b, name);
        if name == a[0].name {
          assert Named(a, name)[1..] == Named(a[1..], name);
          assert Named(b, name)[1..] == Named(b[1..], name);
        } else {
          assert Named(a, name) == Named(a[1..], name);
          assert Named(b, name) == Named(b[1..], name);
        }
      }
      SortedDeterminedByNamed(a[1..], b[1..]);
      assert a == [a[0]] + a[1..] && b == [b[0]] + b[1..];
    }
  }

  /** With distinct names, only which entries there are matters under each name. */
  lemma {:induction false} NamedOfDistinct(es: seq<Entry>, name: Str)
    requires DistinctNames(es)
    ensures |Named(es, name)| <= 1
    ensures forall e :: e in Named(es, name) ==> e in es && e.name == name
  {
    if es != [] {
      NamedOfDistinct(es[1..], name);
      var rest := Named(es[1..], name);
      assert rest == [] || rest[0] in es[1..];
      forall e | e in Named(es, name) ensures e in es && e.name == name {
        if e in Named(es[1..], name) { assert e in es[1..]; }
      }
    }
  }

  lemma NoneOrOne(a: seq<Entry>, b: seq<Entry>)
    requires |a| <= 1 && |b| <= 1 && (a != [] ==> a[0] in b) && (b != [] ==> b[0] in a)
    ensures a == b
  {
    if a != [] {
      assert b[0] == a[0] && a == [a[0]] && b == [b[0]];
    }
  }

  lemma SameMembersSameNamed(a: seq<Entry>, b: seq<Entry>, name: Str)
    requires DistinctNames(a) && DistinctNames(b)
    requires forall e :: e in a <==> e in b
    ensures Named(a, name) == Named(b, name)
  {
    NamedOfDistinct(a, name);
    NamedOfDistinct(b, name);
    hide DistinctNames, Named;
    var na, nb := Named(a, name), Named(b, name);
    if na != [] {
      assert na[0] in na;
      NamedMember(b, na[0]);
    }
    if nb != [] {
      assert nb[0] in nb;
      NamedMember(a, nb[0]);
    }
    NoneOrOne(na, nb);
  }

  /** Encoding entries with distinct names does not depend on their order. */
  lemma EncodingIgnoresOrder(a: seq<Entry>, b: seq<Entry>)
    requires DistinctNames(a) && DistinctNames(b)
    requires forall e :: e in a <==> e in b
    ensures EncodeAll(SortByName(a)) == EncodeAll(SortByName(b))
  {
    hide SortByName, EncodeAll, NameLe, DistinctNames, Named;
    forall name ensures Named(SortByName(a), name) == Named(SortByName(b), name) {
      SortSpec(a, name);
      SortSpec(b, name);
      SameMembersSameNamed(a, b, name);
    }
    SortSpec(a, []);
    SortSpec(b, []);
    SortedDeterminedByNamed(SortByName(a), SortByName(b));
  }

  lemma {:induction false} SortKeepsMembers(es: seq<Entry>, e: Entry)
    ensures e in SortByName(es) <==> e in es
  {
    SortSpec(es, e.name);
    NamedMember(es, e);
    NamedMember(SortByName(es), e);
  }

  /** Decoding an encoded tree gives its entries sorted by name, exactly when every name fits
      the length field (and is UTF-8, as every `String` is) and the entries fit the cap. */
  lemma SerializeRoundTrip(es: seq<Entry>)
    ensures Decode(EncodeAll(SortByName(es))) == Ok(SortByName(es)) <==>
            |es| <= 65536 && (forall e :: e in es ==> Utf8.Valid(e.name) && |e.name| < 0x1_0000_0000)
  {
    hide Utf8.Valid;
    var sorted := SortByName(es);
    SortSpec(es, []);
    forall e ensures e in sorted <==> e in es {
      SortKeepsMembers(es, e);
    }
    DecodeSucceedsExactlyOn(EncodeAll(sorted), sorted);
  }

  /** Re-encoding a decoded object gives the same bytes exactly when its records were in name
      order. */
  lemma ReencodeRoundTrip(d: Bytes)
    requires Decode(d).Ok?
    ensures EncodeAll(SortByName(Decode(d).value)) == d <==> SortedByName(Decode(d).value)
  {
    hide Utf8.Valid;
    var es := Decode(d).value;
    var sorted := SortByName(es);
    DecodeIsExact(d, 0);
    SortSpec(es, []);
    if SortedByName(es) {
      SortedIsFixed(es);
    } else if EncodeAll(sorted) == d {
      forall e | e in sorted ensures Encodable(e) {
        SortKeepsMembers(es, e);
      }
      DecodeOfEncode(sorted, 0);
    }
  }

  // ----- what the definitions come to ---------------------------------------------------

  /** The number four bytes stand for, least significant first. */
  function Number(b: Bytes): nat
    requires |b| == 4
  {
    b[0] as nat + 256 * b[1] as nat + 65536 * b[2] as nat + 16777216 * b[3] as nat
  }

  lemma NumberIsLe(b: Bytes)
    requires |b| == 4
    ensures FromLe32(b) == Number(b)
  {
    var c, d, e := b[1..], b[2..], b[3..];
    assert c[1..] == d && d[1..] == e && e[1..] == [];
    assert FromLe(e) == b[3] as nat;
    assert FromLe(d) == b[2] as nat + 256 * FromLe(e);
    assert FromLe(c) == b[1] as nat + 256 * FromLe(d);
  }

  /** The bytes of a record: mode, name length, name, hash. */
  lemma RecordLayout(e: Entry)
    ensures var b := EncodeEntry(e);
            && |b| == 40 + |e.name|
            && Number(b[0..4]) == e.mode && Number(b[4..8]) == |e.name| % 0x1_0000_0000
            && b[8..8 + |e.name|] == e.name && b[8 + |e.name|..] == e.hash
  {
    var b := EncodeEntry(e);
    Le32Inverse(e.mode, Le32(e.mode));
    Le32Inverse(|e.name| % U32_LIMIT, Le32(e.mode));
    assert b[0..4] == Le32(e.mode) && b[4..8] == Le32(|e.name| % U32_LIMIT);
    NumberIsLe(b[0..4]);
    NumberIsLe(b[4..8]);
  }

  /** Which error, and when: after the whole entries `es`, what is left is the cause. */
  lemma DecodingStopsAt(es: seq<Entry>, rest: Bytes)
    requires |es| <= 65536 && rest != []
    requires forall e :: e in es ==> Utf8.Valid(e.name) && |e.name| < 0x1_0000_0000
    ensures var r := Decode(EncodeAll(es) + rest);
            && (|es| == 65536 ==> r == Err(TooManyEntries))
            && (|es| < 65536 && |rest| < 8 ==> r == Err(HeaderTooShort))
            && (|es| < 65536 && |rest| >= 8 ==>
                  var n := Number(rest[4..8]);
                  && (|rest| < 40 + n ==> r == Err(BodyTooShort))
                  && (|rest| >= 40 + n && !Utf8.Valid(rest[8..8 + n]) ==> r == Err(NameNotUtf8)))
  {
    hide Utf8.Valid, EncodeAll, DecodeRest, Number;
    StopsHere(rest, |es|);
    DecodeAfter(es, rest, 0);
  }

  /** Where the record at hand cannot be read. */
  lemma StopsHere(rest: Bytes, count: nat)
    requires count <= 65536 && rest != []
    ensures var r := DecodeRest(rest, count);
            && (count == 65536 ==> r == Err(TooManyEntries))
            && (count < 65536 && |rest| < 8 ==> r == Err(HeaderTooShort))
            && (count < 65536 && |rest| >= 8 ==>
                  var n := Number(rest[4..8]);
                  && (|rest| < 40 + n ==> r == Err(BodyTooShort))
                  && (|rest| >= 40 + n && !Utf8.Valid(rest[8..8 + n]) ==> r == Err(NameNotUtf8)))
  {
    hide Utf8.Valid, FromLe32, Number;
    if |rest| >= 8 { NumberIsLe(rest[4..8]); }
  }

  lemma {:induction false} DecodeAfter(es: seq<Entry>, rest: Bytes, count: nat)
    requires count + |es| <= 65536
    requires forall e :: e in es ==> Encodable(e)
    ensures DecodeRest(EncodeAll(es) + rest, count) == Prepend(es, DecodeRest(rest, count + |es|))
    decreases |es|
  {
    hide Utf8.Valid, DecodeEntry, EncodeEntry, Encodable;
    var r := DecodeRest(rest, count + |es|);
    if es == [] {
      assert EncodeAll(es) + rest == rest;
      assert r.Ok? ==> [] + r.value == r.value;
    } else {
      var e, tail := es[0], EncodeAll(es[1..]) + rest;
      assert e in es;
      assert EncodeAll(es) + rest == EncodeEntry(e) + tail;
      EncodeEntryDecodes(e, tail);
      DecodeAfter(es[1..], rest, count + 1);
      assert r.Ok? ==> [e] + (es[1..] + r.value) == es + r.value;
      hide DecodeRest;
      ReadOneMore(e, tail, count);
    }
  }

  lemma ReadOneMore(e: Entry, tail: Bytes, count: nat)
    requires count < 65536 && DecodeEntry(EncodeEntry(e) + tail) == Ok((e, tail))
    ensures DecodeRest(EncodeEntry(e) + tail, count) == Prepend([e], DecodeRest(tail, count + 1))
  {
    hide DecodeEntry, EncodeEntry;
  }

  /** Byte order: a prefix comes first, and otherwise the first byte that differs decides. */
  lemma {:induction false} NameLeMeans(a: Str, b: Str)
    ensures NameLe(a, b) <==> a <= b || exists k: nat :: k < |a| && k < |b| && a[..k] == b[..k] && a[k] < b[k]
  {
    if a != [] && b != [] {
      if a[0] == b[0] {
        NameLeMeans(a[1..], b[1..]);
        assert a <= b <==> a[1..] <= b[1..];
        if k: nat :| k < |a| && k < |b| && a[..k] == b[..k] && a[k] < b[k] {
          assert k > 0 && a[1..][..k - 1] == a[..k][1..] && b[1..][..k - 1] == b[..k][1..];
          assert a[1..][k - 1] < b[1..][k - 1];
        }
        if k: nat :| k < |a[1..]| && k < |b[1..]| && a[1..][..k] == b[1..][..k] && a[1..][k] < b[1..][k] {
          assert a[..k + 1] == [a[0]] + a[1..][..k] && b[..k + 1] == [b[0]] + b[1..][..k];
          assert a[k + 1] < b[k + 1];
        }
      } else {
        assert !(a <= b);
        assert forall k: nat :: 0 < k < |a| && k < |b| ==> a[..k][0] != b[..k][0];
        if a[0] < b[0] {
          assert a[..0] == b[..0];
        }
      }
    }
  }

  lemma {:induction false} SortedPairs(es: seq<Entry>, i: nat, j: nat)
    requires SortedByName(es) && i <= j < |es|
    ensures NameLe(es[i].name, es[j].name)
    decreases |es|
  {
    if i > 0 {
      SortedPairs(es[1..], i - 1, j - 1);
    } else {
      SortedHeadIsLeast(es, es[j]);
    }
  }

  /** The order of an encoded tree, in bytes: of two records the later one's name is never below
      the earlier one's, that is, the earlier name is a prefix of it or has the smaller byte
      where they first differ. */
  lemma SortIsByteOrder(es: seq<Entry>, i: nat, j: nat)
    requires i < j < |SortByName(es)|
    ensures var a, b := SortByName(es)[i].name, SortByName(es)[j].name;
            a <= b || exists k: nat :: k < |a| && k < |b| && a[..k] == b[..k] && a[k] < b[k]
  {
    SortSpec(es, []);
    SortedPairs(SortByName(es), i, j);
    NameLeMeans(SortByName(es)[i].name, SortByName(es)[j].name);
  }
}

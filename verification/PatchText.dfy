/** The unified-diff printer of src/patch.rs, and a reader of the printed text written
    independently of it: it goes by the counts of the hunk header and the line marks. */
module PatchText {
  import opened Base
  import opened Text
  import Utf8

  const TAB: byte := 9
  const QUOTE: byte := 34
  const COMMA: byte := 44

  const ZEROS := Ascii("0000000")
  const DIFF_OPEN := Ascii("diff --git a/")
  const B_OPEN := Ascii(" b/")
  const NEW_MODE := Ascii("new file mode 100644")
  const DELETED_MODE := Ascii("deleted file mode 100644")
  const INDEX := Ascii("index ")
  const DOTS := Ascii("..")
  const MODE_TAIL := Ascii(" 100644")
  const DEV_NULL := Ascii("/dev/null")
  const BINARY_OPEN := Ascii("Binary files ")
  const AND := Ascii(" and ")
  const DIFFER := Ascii(" differ")
  const FROM_OPEN := Ascii("--- ")
  const TO_OPEN := Ascii("+++ ")
  const HUNK_OPEN := Ascii("@@ -")
  const HUNK_CLOSE := Ascii(" @@")
  const NO_NEWLINE := Ascii("\\ No newline at end of file")

  // ----- pieces -------------------------------------------------------------------------

  predicate IsBinary(data: Bytes) {
    0 in data
  }

  function Abbrev(hex: Str): Str {
    if |hex| >= 7 then hex[..7] else hex
  }

  predicate NeedsQuotes(path: Str) {
    SPACE in path || TAB in path || QUOTE in path || BACKSLASH in path
  }

  function Escape(path: Str): Str {
    ReplaceByte(ReplaceByte(path, BACKSLASH, [BACKSLASH, BACKSLASH]), QUOTE, [BACKSLASH, QUOTE])
  }

  function GitPath(path: Str): Str {
    if NeedsQuotes(path) then [QUOTE] + Escape(path) + [QUOTE] else path
  }

  /** The count is left out when it is one. */
  function HunkPos(start: nat, count: nat): Str {
    if count == 0 then ShowNat(start) + [COMMA, 48]
    else if count == 1 then ShowNat(start)
    else ShowNat(start) + [COMMA] + ShowNat(count)
  }

  /** `slice::split` at newlines: never empty. */
  function Pieces(s: Bytes): (ps: seq<Bytes>)
    ensures ps != []
    decreases |s|
  {
    var k := IndexOf(s, NEWLINE);
    if k == |s| then [s] else [s[..k]] + Pieces(s[k + 1..])
  }

  function LossyAll(ps: seq<Bytes>): (ls: seq<Str>)
    ensures |ls| == |ps|
  {
    seq(|ps|, i requires 0 <= i < |ps| => Utf8.Lossy(ps[i]))
  }

  datatype Lines = Lines(lines: seq<Str>, trailing: bool)

  function SplitLines(data: Bytes): Lines {
    if data == [] then Lines([], true)
    else if data[|data| - 1] == NEWLINE then Lines(LossyAll(Pieces(data[..|data| - 1])), true)
    else Lines(LossyAll(Pieces(data)), false)
  }

  /** Rejoining: every line ends in a newline, the last one only when the text did. */
  function JoinLines(lines: seq<Str>, trailing: bool): Str {
    if lines == [] then []
    else if |lines| == 1 then lines[0] + (if trailing then [NEWLINE] else [])
    else lines[0] + [NEWLINE] + JoinLines(lines[1..], trailing)
  }

  function CountByte(s: Bytes, c: byte): nat {
    if s == [] then 0 else (if s[0] == c then 1 else 0) + CountByte(s[1..], c)
  }

  /** Lines of a text: its newlines, plus one for an unfinished last line. */
  function CountLines(data: Bytes): nat {
    CountByte(data, NEWLINE) + if data != [] && data[|data| - 1] != NEWLINE then 1 else 0
  }

  // ----- one file's section, as lines ---------------------------------------------------

  datatype Kind = New | Deleted | Changed

  datatype FileChange = FileChange(path: Str, beforeHex: Option<Str>, afterHex: Option<Str>,
                                   before: Bytes, after: Bytes)
  {
    function Kind(): Kind {
      if beforeHex.None? then New else if afterHex.None? then Deleted else Changed
    }

    function From7(): Str {
      if beforeHex.None? then ZEROS else Abbrev(beforeHex.value)
    }

    function To7(): Str {
      if afterHex.None? then ZEROS else Abbrev(afterHex.value)
    }
  }

  function FromName(q: Str, kind: Kind): Str {
    if kind.New? then DEV_NULL else Ascii("a/") + q
  }

  function ToName(q: Str, kind: Kind): Str {
    if kind.Deleted? then DEV_NULL else Ascii("b/") + q
  }

  function IndexLine(from: Str, to: Str, kind: Kind): Str {
    INDEX + from + DOTS + to + if kind.Changed? then MODE_TAIL else []
  }

  function DiffLine(q: Str): Str {
    DIFF_OPEN + q + B_OPEN + q
  }

  function ModeLines(kind: Kind): seq<Str> {
    match kind
    case New => [NEW_MODE]
    case Deleted => [DELETED_MODE]
    case Changed => []
  }

  function BinaryLine(q: Str, kind: Kind): Str {
    BINARY_OPEN + FromName(q, kind) + AND + ToName(q, kind) + DIFFER
  }

  function HunkHeader(at: HunkAt): Str {
    HUNK_OPEN + HunkPos(at.beforeStart, at.beforeCount) + [SPACE, PLUS]
    + HunkPos(at.afterStart, at.afterCount) + HUNK_CLOSE
  }

  function SideLines(lines: seq<Str>, mark: byte, trailing: bool): seq<Str> {
    if lines == [] then []
    else if |lines| == 1 then [[mark] + lines[0]] + if trailing then [] else [NO_NEWLINE]
    else [[mark] + lines[0]] + SideLines(lines[1..], mark, trailing)
  }

  function HunkLines(kind: Kind, b: Lines, a: Lines): seq<Str> {
    if b.lines == [] && a.lines == [] then []
    else
      [HunkHeader(HunkAt(if kind.New? then 0 else 1, |b.lines|, if kind.Deleted? then 0 else 1, |a.lines|))]
      + (SideLines(b.lines, MINUS, b.trailing) + SideLines(a.lines, PLUS, a.trailing))
  }

  function BodyLines(q: Str, kind: Kind, before: Bytes, after: Bytes): seq<Str> {
    if IsBinary(before) || IsBinary(after) then [BinaryLine(q, kind)]
    else
      [FROM_OPEN + FromName(q, kind), TO_OPEN + ToName(q, kind)]
      + HunkLines(kind, SplitLines(before), SplitLines(after))
  }

  function SectionLines(c: FileChange): seq<Str> {
    var q := GitPath(c.path);
    [DiffLine(q)] + (ModeLines(c.Kind()) + ([IndexLine(c.From7(), c.To7(), c.Kind())]
    + BodyLines(q, c.Kind(), c.before, c.after)))
  }

  function Unlines(ls: seq<Str>): Str {
    if ls == [] then [] else ls[0] + [NEWLINE] + Unlines(ls[1..])
  }

  function PatchOf(cs: seq<FileChange>): Str {
    if cs == [] then [] else Unlines(SectionLines(cs[0])) + PatchOf(cs[1..])
  }

  // ----- the printing loops -------------------------------------------------------------

  lemma {:induction false} UnlinesAppend(a: seq<Str>, b: seq<Str>)
    ensures Unlines(a + b) == Unlines(a) + Unlines(b)
    decreases |a|
  {
    if a == [] {
      assert a + b == b;
    } else {
      UnlinesAppend(a[1..], b);
      assert (a + b)[1..] == a[1..] + b;
    }
  }

  lemma UnlinesOne(l: Str)
    ensures Unlines([l]) == l + [NEWLINE]
  {
    assert [l][1..] == [];
  }

  /** What one turn of the printing loop writes. */
  function LineText(line: Str, mark: byte, unfinished: bool): Str {
    [mark] + line + [NEWLINE] + if unfinished then NO_NEWLINE + [NEWLINE] else []
  }

  lemma SideText(lines: seq<Str>, mark: byte, trailing: bool, i: nat)
    requires i < |lines|
    ensures Unlines(SideLines(lines[i..], mark, trailing))
         == LineText(lines[i], mark, !trailing && i + 1 == |lines|) + Unlines(SideLines(lines[i + 1..], mark, trailing))
  {
    assert lines[i..][1..] == lines[i + 1..];
    var unfinished := !trailing && i + 1 == |lines|;
    var first := [mark] + lines[i];
    var head, tail := [first] + (if unfinished then [NO_NEWLINE] else []), SideLines(lines[i + 1..], mark, trailing);
    assert SideLines(lines[i..], mark, trailing) == head + tail;
    hide Unlines, SideLines;
    UnlinesOne(first);
    if unfinished {
      UnlinesOne(NO_NEWLINE);
      UnlinesAppend([first], [NO_NEWLINE]);
    } else {
      assert head == [first];
    }
    UnlinesAppend(head, tail);
  }

  lemma NoSideLeft(mark: byte, trailing: bool)
    ensures Unlines(SideLines([], mark, trailing)) == []
  {
  }

  /** `for (i, line) in lines.iter().enumerate() { .. }` */
  method AppendSide(out: Str, lines: seq<Str>, mark: byte, trailing: bool) returns (r: Str)
    ensures r == out + Unlines(SideLines(lines, mark, trailing))
  {
    hide Unlines, SideLines;
    r := out;
    var i := 0;
    ghost var all := Unlines(SideLines(lines, mark, trailing));
    assert lines[0..] == lines;
    while i < |lines|
      invariant 0 <= i <= |lines|
      invariant r + Unlines(SideLines(lines[i..], mark, trailing)) == out + all
    {
      SideText(lines, mark, trailing, i);
      ghost var before, rest := r, Unlines(SideLines(lines[i + 1..], mark, trailing));
      r := r + [mark];
      r := r + lines[i];
      r := r + [NEWLINE];
      if !trailing && i + 1 == |lines| {
        r := r + NO_NEWLINE + [NEWLINE];
      }
      assert r == before + LineText(lines[i], mark, !trailing && i + 1 == |lines|);
      assert r + rest == before + (LineText(lines[i], mark, !trailing && i + 1 == |lines|) + rest);
      i := i + 1;
    }
    assert lines[i..] == [];
    NoSideLeft(mark, trailing);
    assert r + [] == r;
  }

  /** The lines in front of the body, written out. */
  lemma HeadText(d: Str, kind: Kind, index: Str)
    ensures Unlines([d] + (ModeLines(kind) + [index])) == d + [NEWLINE] +
            (match kind
             case New => NEW_MODE + [NEWLINE] + index + [NEWLINE]
             case Deleted => DELETED_MODE + [NEWLINE] + index + [NEWLINE]
             case Changed => index + [NEWLINE])
  {
    UnlinesOne(d);
    UnlinesOne(index);
    UnlinesAppend([d], ModeLines(kind) + [index]);
    UnlinesAppend(ModeLines(kind), [index]);
    match kind
    case New => UnlinesOne(NEW_MODE);
    case Deleted => UnlinesOne(DELETED_MODE);
    case Changed =>
  }

  lemma SectionText(c: FileChange)
    ensures Unlines(SectionLines(c)) ==
            Unlines([DiffLine(GitPath(c.path))] + (ModeLines(c.Kind()) + [IndexLine(c.From7(), c.To7(), c.Kind())]))
            + Unlines(BodyLines(GitPath(c.path), c.Kind(), c.before, c.after))
  {
    hide Unlines, DiffLine, IndexLine, BodyLines, ModeLines, GitPath;
    var q := GitPath(c.path);
    var head := [DiffLine(q)] + (ModeLines(c.Kind()) + [IndexLine(c.From7(), c.To7(), c.Kind())]);
    assert SectionLines(c) == head + BodyLines(q, c.Kind(), c.before, c.after);
    UnlinesAppend(head, BodyLines(q, c.Kind(), c.before, c.after));
  }

  method AppendFileDiff(out: Str, c: FileChange) returns (r: Str)
    requires c.beforeHex.Some? || c.afterHex.Some?
    ensures r == out + Unlines(SectionLines(c))
  {
    hide Unlines, IndexLine, DiffLine, BodyLines, GitPath, SectionLines;
    var qp := GitPath(c.path);
    var isNew, isDeleted := c.beforeHex.None?, c.afterHex.None?;
    var index := IndexLine(c.From7(), c.To7(), c.Kind());
    SectionText(c);
    HeadText(DiffLine(qp), c.Kind(), index);
    r := out + (DiffLine(qp) + [NEWLINE]);
    if isNew {
      r := r + (NEW_MODE + [NEWLINE] + index + [NEWLINE]);
    } else if isDeleted {
      r := r + (DELETED_MODE + [NEWLINE] + index + [NEWLINE]);
    } else {
      r := r + (index + [NEWLINE]);
    }
    r := AppendBody(r, qp, c.Kind(), c.before, c.after);
  }

  lemma TwoLines(x: Str, y: Str, rest: seq<Str>)
    ensures Unlines([x, y] + rest) == x + [NEWLINE] + (y + [NEWLINE]) + Unlines(rest)
  {
    UnlinesOne(x);
    UnlinesOne(y);
    UnlinesAppend([x], [y]);
    UnlinesAppend([x] + [y], rest);
    assert [x] + [y] == [x, y];
  }

  lemma ThreeParts(x: Str, b: seq<Str>, a: seq<Str>)
    ensures Unlines([x] + (b + a)) == x + [NEWLINE] + Unlines(b) + Unlines(a)
  {
    UnlinesOne(x);
    UnlinesAppend(b, a);
    UnlinesAppend([x], b + a);
  }

  method AppendHunk(out: Str, kind: Kind, b: Lines, a: Lines) returns (r: Str)
    ensures r == out + Unlines(HunkLines(kind, b, a))
  {
    hide HunkHeader, SideLines, Unlines;
    var bc, ac := |b.lines|, |a.lines|;
    r := out;
    if bc > 0 || ac > 0 {
      var beforeStart := if kind.New? then 0 else 1;
      var afterStart := if kind.Deleted? then 0 else 1;
      var header := HunkHeader(HunkAt(beforeStart, bc, afterStart, ac));
      ThreeParts(header, SideLines(b.lines, MINUS, b.trailing), SideLines(a.lines, PLUS, a.trailing));
      r := r + (header + [NEWLINE]);
      r := AppendSide(r, b.lines, MINUS, b.trailing);
      r := AppendSide(r, a.lines, PLUS, a.trailing);
    } else {
      assert Unlines([]) == [] by { UnlinesNone(); }
    }
  }

  lemma UnlinesNone()
    ensures Unlines([]) == []
  {
  }

  method AppendBody(out: Str, qp: Str, kind: Kind, before: Bytes, after: Bytes) returns (r: Str)
    ensures r == out + Unlines(BodyLines(qp, kind, before, after))
  {
    hide BinaryLine, HunkLines, SplitLines, Unlines, FromName, ToName;
    if IsBinary(before) || IsBinary(after) {
      UnlinesOne(BinaryLine(qp, kind));
      return out + (BinaryLine(qp, kind) + [NEWLINE]);
    }
    var b, a := SplitLines(before), SplitLines(after);
    var from, to := FROM_OPEN + FromName(qp, kind), TO_OPEN + ToName(qp, kind);
    TwoLines(from, to, HunkLines(kind, b, a));
    r := out + (from + [NEWLINE] + (to + [NEWLINE]));
    r := AppendHunk(r, kind, b, a);
  }

  // ----- the printed text, written out --------------------------------------------------

  /** The first seven digits of a hash. */
  function First7(hex: Option<Str>): Str {
    if hex.None? then Ascii("0000000") else if |hex.value| < 7 then hex.value else hex.value[..7]
  }

  /** The lines in front of the texts: names, mode and hashes. A new file has no old hash, a
      deleted one no new hash, and only a changed one carries its mode on the index line. */
  lemma HeadLinesAre(c: FileChange)
    requires c.beforeHex.Some? || c.afterHex.Some?
    ensures var q, from, to := GitPath(c.path), First7(c.beforeHex), First7(c.afterHex);
            var diff := Ascii("diff --git a/") + q + Ascii(" b/") + q;
            SectionLines(c) ==
              (if c.beforeHex.None? then [diff, Ascii("new file mode 100644"), Ascii("index 0000000..") + to]
               else if c.afterHex.None? then [diff, Ascii("deleted file mode 100644"), Ascii("index ") + from + Ascii("..0000000")]
               else [diff, Ascii("index ") + from + Ascii("..") + to + Ascii(" 100644")])
              + BodyLines(q, c.Kind(), c.before, c.after)
  {
    hide GitPath, BodyLines, Ascii, First7, IndexLine;
    var q, kind := GitPath(c.path), c.Kind();
    IndexLineIs(c);
    assert ModeLines(kind) == if c.beforeHex.None? then [Ascii("new file mode 100644")]
                              else if c.afterHex.None? then [Ascii("deleted file mode 100644")] else [];
    assert DiffLine(q) == Ascii("diff --git a/") + q + Ascii(" b/") + q;
    hide DiffLine, ModeLines;
    var index, body := IndexLine(c.From7(), c.To7(), kind), BodyLines(q, kind, c.before, c.after);
    FourParts(DiffLine(q), ModeLines(kind), index, body);
  }

  lemma FourParts(a: Str, b: seq<Str>, c: Str, d: seq<Str>)
    ensures [a] + (b + ([c] + d)) == [a] + b + [c] + d
  {
  }

  lemma IndexLineIs(c: FileChange)
    requires c.beforeHex.Some? || c.afterHex.Some?
    ensures var from, to := First7(c.beforeHex), First7(c.afterHex);
            IndexLine(c.From7(), c.To7(), c.Kind()) ==
              if c.beforeHex.None? then Ascii("index 0000000..") + to
              else if c.afterHex.None? then Ascii("index ") + from + Ascii("..0000000")
              else Ascii("index ") + from + Ascii("..") + to + Ascii(" 100644")
  {
    assert Ascii("index 0000000..") == Ascii("index ") + Ascii("0000000") + Ascii("..");
    assert Ascii("..0000000") == Ascii("..") + Ascii("0000000");
  }

  /** The rest of a section. Texts with a zero byte are only said to differ; otherwise the two
      names stand in front of the hunk, the missing side's being `/dev/null`. */
  lemma BodyLinesAre(q: Str, kind: Kind, before: Bytes, after: Bytes)
    ensures var from := if kind.New? then Ascii("/dev/null") else Ascii("a/") + q;
            var to := if kind.Deleted? then Ascii("/dev/null") else Ascii("b/") + q;
            var b, a := SplitLines(before), SplitLines(after);
            BodyLines(q, kind, before, after) ==
              if 0 in before || 0 in after then [Ascii("Binary files ") + from + Ascii(" and ") + to + Ascii(" differ")]
              else [Ascii("--- ") + from, Ascii("+++ ") + to] + HunkLines(kind, b, a)
  {
    hide SplitLines, HunkLines, Ascii;
  }

  /** The hunk: nothing for two empty texts, else its position, all old lines, all new lines. */
  lemma HunkLinesAre(kind: Kind, b: Lines, a: Lines)
    ensures HunkLines(kind, b, a) ==
            if |b.lines| == 0 && |a.lines| == 0 then []
            else
              var from := Ascii(if kind.New? then "0" else "1") + CountText(|b.lines|);
              var to := Ascii(if kind.Deleted? then "0" else "1") + CountText(|a.lines|);
              [Ascii("@@ -") + from + Ascii(" +") + to + Ascii(" @@")]
              + (SideLines(b.lines, Ascii("-")[0], b.trailing) + SideLines(a.lines, Ascii("+")[0], a.trailing))
  {
    hide SideLines, Ascii;
    var at := HunkAt(if kind.New? then 0 else 1, |b.lines|, if kind.Deleted? then 0 else 1, |a.lines|);
    HunkHeaderIs(at);
    MarksAre();
    hide HunkHeader, HunkPos, CountText;
  }

  lemma MarksAre()
    ensures Ascii("-")[0] == MINUS && Ascii("+")[0] == PLUS
  {
  }

  /** How a count is appended to a position: not at all when it is one. */
  function CountText(n: nat): Str {
    if n == 1 then [] else Ascii(",") + ShowNat(n)
  }

  lemma HunkHeaderIs(at: HunkAt)
    requires at.beforeStart <= 1 && at.afterStart <= 1
    ensures HunkHeader(at) == Ascii("@@ -") + (Ascii(if at.beforeStart == 0 then "0" else "1") + CountText(at.beforeCount))
                              + Ascii(" +") + (Ascii(if at.afterStart == 0 then "0" else "1") + CountText(at.afterCount))
                              + Ascii(" @@")
  {
    HunkPosIs(at.beforeStart, at.beforeCount);
    HunkPosIs(at.afterStart, at.afterCount);
    assert Ascii(" +") == [SPACE, PLUS];
    hide Ascii, HunkPos, CountText;
  }

  lemma HunkPosIs(start: nat, count: nat)
    requires start <= 1
    ensures HunkPos(start, count) == Ascii(if start == 0 then "0" else "1") + CountText(count)
  {
    assert ShowNat(start) == Ascii(if start == 0 then "0" else "1");
    assert ShowNat(0) == [48] && Ascii(",") == [COMMA];
    assert [COMMA] + [48] == [COMMA, 48];
    hide ShowNat, Ascii;
    if count > 1 {
      assert ShowNat(start) + [COMMA] + ShowNat(count) == ShowNat(start) + ([COMMA] + ShowNat(count));
    }
  }

  /** One side: each line behind its mark, and the note once, after an unfinished last line. */
  lemma {:induction false} SideLinesAre(lines: seq<Str>, mark: byte, trailing: bool)
    ensures var r := SideLines(lines, mark, trailing);
            && |r| == |lines| + (if trailing || lines == [] then 0 else 1)
            && (forall k: nat :: k < |lines| ==> r[k] == [mark] + lines[k])
            && (|r| > |lines| ==> r[|lines|] == Ascii("\\ No newline at end of file"))
    decreases |lines|
  {
    if |lines| > 1 {
      SideLinesAre(lines[1..], mark, trailing);
    }
  }

  /** How a path is written: as it is, unless it has a blank, a tab, a quote or a backslash. */
  lemma PathIs(path: Str)
    ensures GitPath(path) ==
            if exists i: nat :: i < |path| && path[i] in Ascii(" \t\"\\") then Ascii("\"") + Escape(path) + Ascii("\"")
            else path
  {
    var t := Ascii(" \t\"\\");
    assert t == [SPACE, TAB, QUOTE, BACKSLASH] && Ascii("\"") == [QUOTE];
    assert forall c :: c in t <==> c == SPACE || c == TAB || c == QUOTE || c == BACKSLASH;
    hide Escape, Ascii;
  }

  /** Inside the quotes a quote or backslash has a backslash before it. */
  lemma EscapesAre(c: byte, t: Str)
    ensures Escape([]) == []
    ensures Escape([c] + t) ==
            (if [c] == Ascii("\\") then Ascii("\\\\") else if [c] == Ascii("\"") then Ascii("\\\"") else [c]) + Escape(t)
  {
    var s := [c] + t;
    assert s[1..] == t;
    assert Ascii("\\\\") == [BACKSLASH, BACKSLASH] && Ascii("\\\"") == [BACKSLASH, QUOTE];
    assert Ascii("\\") == [BACKSLASH] && Ascii("\"") == [QUOTE];
    assert ([c] == Ascii("\\") <==> c == BACKSLASH) && ([c] == Ascii("\"") <==> c == QUOTE);
    var r := ReplaceByte(t, BACKSLASH, [BACKSLASH, BACKSLASH]);
    if c == BACKSLASH {
      var e := [BACKSLASH, BACKSLASH] + r;
      assert e[1..] == [BACKSLASH] + r && e[1..][1..] == r;
      assert ReplaceByte(e[1..], QUOTE, [BACKSLASH, QUOTE]) == [BACKSLASH] + Escape(t);
    } else {
      assert ([c] + r)[1..] == r;
    }
  }

  // ----- an independent reader ----------------------------------------------------------

  datatype HunkAt = HunkAt(beforeStart: nat, beforeCount: nat, afterStart: nat, afterCount: nat)

  datatype Body = Binary | Texts(before: Bytes, after: Bytes, at: Option<HunkAt>)

  datatype Section = Section(path: Str, kind: Kind, from: Str, to: Str, body: Body)

  type Lns = seq<Str>

  /** Lines of a text; what follows the last newline is a line unless it is empty. */
  function TextLines(s: Str): Lns
    decreases |s|
  {
    var k := IndexOf(s, NEWLINE);
    if k == |s| then (if s == [] then [] else [s]) else [s[..k]] + TextLines(s[k + 1..])
  }

  /** A backslash stands before the byte it escapes. */
  function Unescape(s: Str): Str {
    if s == [] then []
    else if s[0] == BACKSLASH && |s| > 1 then [s[1]] + Unescape(s[2..])
    else [s[0]] + Unescape(s[1..])
  }

  function UnquotePath(q: Str): Str {
    if |q| >= 2 && q[0] == QUOTE then Unescape(q[1..|q| - 1]) else q
  }

  /** The name stands twice, so its length follows from the line's. */
  function ReadDiffLine(l: Str): Option<Str> {
    if !(DIFF_OPEN <= l) || |l| < |DIFF_OPEN| + 3 then None
    else
      var body := l[|DIFF_OPEN|..];
      var n := (|body| - 3) / 2;
      if body == body[..n] + B_OPEN + body[..n] then Some(body[..n]) else None
  }

  function ReadIndexLine(l: Str, kind: Kind): Option<(Str, Str)> {
    if |l| < 22 then None
    else if l == IndexLine(l[6..13], l[15..22], kind) then Some((l[6..13], l[15..22]))
    else None
  }

  function ReadPos(s: Str): Option<(nat, nat)> {
    var k := IndexOf(s, COMMA);
    match (ReadNat(s[..k]), if k == |s| then Some(1) else ReadNat(s[k + 1..]))
    case (Some(start), Some(count)) => Some((start, count))
    case _ => None
  }

  /** `b +a @@` */
  function ReadRanges(s: Str): Option<HunkAt> {
    var k := IndexOf(s, SPACE);
    if !([SPACE, PLUS] <= s[k..]) then None
    else
      var s2 := s[k + 2..];
      var k2 := IndexOf(s2, SPACE);
      if s2[k2..] != HUNK_CLOSE then None
      else match (ReadPos(s[..k]), ReadPos(s2[..k2]))
        case (Some(b), Some(a)) => Some(HunkAt(b.0, b.1, a.0, a.1))
        case _ => None
  }

  function ReadHunkHeader(l: Str): Option<HunkAt> {
    if HUNK_OPEN <= l then ReadRanges(l[|HUNK_OPEN|..]) else None
  }

  function ReadSide(ls: Lns, mark: byte, n: nat): (r: Option<(Bytes, Lns)>)
    ensures r.Some? ==> |r.value.1| <= |ls|
    decreases n
  {
    if n == 0 then Some(([], ls))
    else if ls == [] || !([mark] <= ls[0]) then None
    else if n == 1 && |ls| > 1 && ls[1] == NO_NEWLINE then Some((ls[0][1..], ls[2..]))
    else match ReadSide(ls[1..], mark, n - 1)
      case None => None
      case Some(r) => Some((ls[0][1..] + [NEWLINE] + r.0, r.1))
  }

  function ReadHunk(ls: Lns): (r: Option<(Body, Lns)>)
    ensures r.Some? ==> |r.value.1| <= |ls|
  {
    if ls == [] || !(HUNK_OPEN <= ls[0]) then Some((Texts([], [], None), ls))
    else match ReadHunkHeader(ls[0])
      case None => None
      case Some(at) =>
        match ReadSide(ls[1..], MINUS, at.beforeCount)
        case None => None
        case Some(b) =>
          match ReadSide(b.1, PLUS, at.afterCount)
          case None => None
          case Some(a) => Some((Texts(b.0, a.0, Some(at)), a.1))
  }

  function ReadBody(ls: Lns, q: Str, kind: Kind): (r: Option<(Body, Lns)>)
    ensures r.Some? ==> |r.value.1| <= |ls|
  {
    if ls != [] && ls[0] == BinaryLine(q, kind) then Some((Binary, ls[1..]))
    else if |ls| >= 2 && ls[0] == FROM_OPEN + FromName(q, kind) && ls[1] == TO_OPEN + ToName(q, kind) then
      ReadHunk(ls[2..])
    else None
  }

  function ReadSection(ls: Lns): (r: Option<(Section, Lns)>)
    ensures r.Some? ==> |r.value.1| < |ls|
  {
    if |ls| < 2 then None
    else match ReadDiffLine(ls[0])
      case None => None
      case Some(q) =>
        var kind := if ls[1] == NEW_MODE then New else if ls[1] == DELETED_MODE then Deleted else Changed;
        var k := if kind.Changed? then 1 else 2;
        if |ls| <= k then None
        else match (ReadIndexLine(ls[k], kind), ReadBody(ls[k + 1..], q, kind))
          case (Some(ix), Some(b)) => Some((Section(UnquotePath(q), kind, ix.0, ix.1, b.0), b.1))
          case _ => None
  }

  function ReadSections(ls: Lns): Option<seq<Section>>
    decreases |ls|
  {
    if ls == [] then Some([])
    else match ReadSection(ls)
      case None => None
      case Some(r) =>
        match ReadSections(r.1)
        case None => None
        case Some(more) => Some([r.0] + more)
  }

  function ReadPatch(text: Str): Option<seq<Section>> {
    ReadSections(TextLines(text))
  }

  // ----- what a reader should see -------------------------------------------------------

  /** The texts as they are printed, with counts that are the numbers of their lines. */
  function SectionOf(c: FileChange): Section {
    var body :=
      if IsBinary(c.before) || IsBinary(c.after) then Binary
      else
        Texts(Utf8.Lossy(c.before), Utf8.Lossy(c.after),
              if c.before == [] && c.after == [] then None
              else Some(HunkAt(if c.Kind().New? then 0 else 1, CountLines(c.before),
                               if c.Kind().Deleted? then 0 else 1, CountLines(c.after))));
    Section(c.path, c.Kind(), c.From7(), c.To7(), body)
  }

  function SectionsOf(cs: seq<FileChange>): seq<Section> {
    if cs == [] then [] else [SectionOf(cs[0])] + SectionsOf(cs[1..])
  }

  /** One side is there, and hashes are written in at least seven bytes without a newline. */
  predicate Wf(c: FileChange) {
    && (c.beforeHex.Some? || c.afterHex.Some?)
    && (c.beforeHex.Some? ==> |c.beforeHex.value| >= 7 && NEWLINE !in c.beforeHex.value)
    && (c.afterHex.Some? ==> |c.afterHex.value| >= 7 && NEWLINE !in c.afterHex.value)
  }

  // ----- splitting and rejoining --------------------------------------------------------

  predicate Clean(ls: seq<Str>) {
    forall l :: l in ls ==> NEWLINE !in l
  }

  lemma JoinCons(l: Str, ls: seq<Str>, trailing: bool)
    requires ls != []
    ensures JoinLines([l] + ls, trailing) == l + [NEWLINE] + JoinLines(ls, trailing)
  {
    assert ([l] + ls)[1..] == ls;
  }

  lemma JoinOne(l: Str, trailing: bool)
    ensures JoinLines([l], trailing) == l + (if trailing then [NEWLINE] else [])
  {
  }

  lemma {:induction false} JoinPieces(s: Bytes, trailing: bool)
    ensures JoinLines(LossyAll(Pieces(s)), trailing) == Utf8.Lossy(s) + (if trailing then [NEWLINE] else [])
    decreases |s|
  {
    hide Utf8.Lossy, JoinLines;
    var k := IndexOf(s, NEWLINE);
    if k < |s| {
      JoinPieces(s[k + 1..], trailing);
      PiecesStep(s);
      Utf8.LossyAtAscii(s[..k], NEWLINE, s[k + 1..]);
      var l, ls := Utf8.Lossy(s[..k]), LossyAll(Pieces(s[k + 1..]));
      hide Pieces, LossyAll, IndexOf;
      JoinCons(l, ls, trailing);
      var tail, end := Utf8.Lossy(s[k + 1..]), if trailing then [NEWLINE] else [];
      assert l + [NEWLINE] + (tail + end) == l + [NEWLINE] + tail + end;
    } else {
      assert LossyAll(Pieces(s)) == [Utf8.Lossy(s)];
      JoinOne(Utf8.Lossy(s), trailing);
    }
  }

  /** One more piece in front. */
  lemma PiecesStep(s: Bytes)
    requires IndexOf(s, NEWLINE) < |s|
    ensures var k := IndexOf(s, NEWLINE);
            && LossyAll(Pieces(s)) == [Utf8.Lossy(s[..k])] + LossyAll(Pieces(s[k + 1..]))
            && |Pieces(s)| == 1 + |Pieces(s[k + 1..])|
            && s == s[..k] + [NEWLINE] + s[k + 1..]
  {
    hide Utf8.Lossy, IndexOf;
    var k := IndexOf(s, NEWLINE);
    assert Pieces(s) == [s[..k]] + Pieces(s[k + 1..]);
  }

  lemma {:induction false} PiecesAreLines(s: Bytes)
    ensures Clean(LossyAll(Pieces(s)))
    ensures |Pieces(s)| == CountByte(s, NEWLINE) + 1
    decreases |s|
  {
    hide Utf8.Lossy;
    var k := IndexOf(s, NEWLINE);
    Utf8.LossyKeepsOut(s[..k], NEWLINE);
    CountNone(s[..k]);
    if k == |s| {
      assert s[..k] == s;
    } else {
      PiecesAreLines(s[k + 1..]);
      PiecesStep(s);
      hide Pieces, LossyAll, CountByte, IndexOf;
      CountSplit(s[..k] + [NEWLINE], s[k + 1..]);
      FinishedCount(s[..k]);
    }
  }

  lemma FinishedCount(t: Bytes)
    ensures CountByte(t + [NEWLINE], NEWLINE) == CountByte(t, NEWLINE) + 1
  {
    CountSplit(t, [NEWLINE]);
    assert [NEWLINE][1..] == [];
  }

  lemma {:induction false} CountSplit(a: Bytes, b: Bytes)
    ensures CountByte(a + b, NEWLINE) == CountByte(a, NEWLINE) + CountByte(b, NEWLINE)
    decreases |a|
  {
    if a == [] {
      assert a + b == b;
    } else {
      CountSplit(a[1..], b);
      assert (a + b)[1..] == a[1..] + b;
    }
  }

  lemma {:induction false} CountNone(s: Bytes)
    requires NEWLINE !in s
    ensures CountByte(s, NEWLINE) == 0
  {
    if s != [] { CountNone(s[1..]); }
  }

  lemma FinishedLossy(t: Bytes)
    ensures Utf8.Lossy(t + [NEWLINE]) == Utf8.Lossy(t) + [NEWLINE]
  {
    hide Utf8.Lossy, Utf8.Valid;
    Utf8.LossyAtAscii(t, NEWLINE, []);
    Utf8.LossyLength([]);
    assert t + [NEWLINE] + [] == t + [NEWLINE];
    var l := Utf8.Lossy(t);
    assert l + [NEWLINE] + [] == l + [NEWLINE];
  }

  lemma EndsInNewline(data: Bytes)
    requires data != [] && data[|data| - 1] == NEWLINE
    ensures Utf8.Lossy(data) == Utf8.Lossy(data[..|data| - 1]) + [NEWLINE]
    ensures CountByte(data, NEWLINE) == CountByte(data[..|data| - 1], NEWLINE) + 1
  {
    hide Utf8.Lossy, Utf8.Valid, CountByte;
    var t := data[..|data| - 1];
    assert data == t + [NEWLINE];
    FinishedLossy(t);
    FinishedCount(t);
  }

  /** Splitting into lines loses nothing but the ill-formed bytes: rejoining gives the lossy
      text, which is the text itself exactly when that is UTF-8. */
  lemma RejoinIff(data: Bytes)
    ensures var s := SplitLines(data); JoinLines(s.lines, s.trailing) == Utf8.Lossy(data)
    ensures var s := SplitLines(data); JoinLines(s.lines, s.trailing) == data <==> Utf8.Valid(data)
    ensures Clean(SplitLines(data).lines)
    ensures |SplitLines(data).lines| == CountLines(data)
    ensures SplitLines(data).lines == [] <==> data == []
  {
    hide Utf8.Lossy, Utf8.Valid, Pieces, LossyAll, JoinLines, CountByte;
    Utf8.LossyFixesOnlyIllFormed(data);
    if data == [] {
      EmptyLines();
    } else if data[|data| - 1] == NEWLINE {
      JoinPieces(data[..|data| - 1], true);
      PiecesAreLines(data[..|data| - 1]);
      EndsInNewline(data);
    } else {
      JoinPieces(data, false);
      PiecesAreLines(data);
      assert Utf8.Lossy(data) + [] == Utf8.Lossy(data);
    }
  }

  lemma EmptyLines()
    ensures JoinLines([], true) == [] && Utf8.Lossy([]) == [] && CountByte([], NEWLINE) == 0
  {
  }

  /** Reading one side back by the count and the mark. */
  lemma {:induction false} SideReadsBack(lines: seq<Str>, mark: byte, trailing: bool, rest: Lns)
    requires rest == [] || rest[0] != NO_NEWLINE
    requires mark != BACKSLASH
    ensures ReadSide(SideLines(lines, mark, trailing) + rest, mark, |lines|)
         == Some((JoinLines(lines, trailing), rest))
    decreases |lines|
  {
    var ls := SideLines(lines, mark, trailing) + rest;
    if lines == [] {
      assert ls == rest;
    } else {
      assert ls[0] == [mark] + lines[0] && ls[0][1..] == lines[0];
      if |lines| == 1 {
        if trailing {
          assert ls[1..] == rest && (|ls| > 1 ==> ls[1] == rest[0]);
          assert lines[0] + [NEWLINE] + [] == lines[0] + [NEWLINE];
          assert ReadSide(rest, mark, 0) == Some(([], rest));
        } else {
          assert ls[1] == NO_NEWLINE && ls[2..] == rest && lines[0] + [] == lines[0];
        }
      } else {
        assert ls[1..] == SideLines(lines[1..], mark, trailing) + rest;
        SideReadsBack(lines[1..], mark, trailing, rest);
      }
    }
  }

  // ----- headers ------------------------------------------------------------------------

  lemma PosReadsBack(start: nat, count: nat)
    ensures ReadPos(HunkPos(start, count)) == Some((start, count))
    ensures SPACE !in HunkPos(start, count) && NEWLINE !in HunkPos(start, count)
  {
    NatRoundTrip(start);
    NatRoundTrip(count);
    var s := HunkPos(start, count);
    var a, b := ShowNat(start), ShowNat(count);
    assert forall i :: 0 <= i < |a| ==> IsDecimal(a[i]);
    assert COMMA !in a;
    if count == 1 {
      IndexOfNone(s, COMMA);
      assert s[..|s|] == s;
    } else {
      assert count == 0 ==> b == [48];
      assert s == a + [COMMA] + b;
      IndexOfFirst(a, COMMA, b);
      assert s[..|a|] == a && s[|a| + 1..] == b;
    }
  }

  lemma RangesReadBack(b: Str, a: Str, at: HunkAt)
    requires SPACE !in b && SPACE !in a
    requires ReadPos(b) == Some((at.beforeStart, at.beforeCount))
    requires ReadPos(a) == Some((at.afterStart, at.afterCount))
    ensures ReadRanges(b + [SPACE, PLUS] + a + HUNK_CLOSE) == Some(at)
  {
    hide ReadPos, IndexOf;
    var s := b + [SPACE, PLUS] + a + HUNK_CLOSE;
    SplitAtSpace(s, b, [PLUS] + a + HUNK_CLOSE);
    var s2 := s[|b| + 2..];
    assert s2 == a + HUNK_CLOSE;
    SplitAtSpace(s2, a, HUNK_CLOSE[1..]);
    assert s[|b|..][..2] == [SPACE, PLUS];
  }

  lemma HunkHeaderReadsBack(at: HunkAt)
    ensures ReadHunkHeader(HunkHeader(at)) == Some(at)
    ensures NEWLINE !in HunkHeader(at) && HUNK_OPEN <= HunkHeader(at)
  {
    hide HunkPos, ReadPos, ReadRanges;
    PosReadsBack(at.beforeStart, at.beforeCount);
    PosReadsBack(at.afterStart, at.afterCount);
    var b, a := HunkPos(at.beforeStart, at.beforeCount), HunkPos(at.afterStart, at.afterCount);
    RangesReadBack(b, a, at);
    assert HunkHeader(at)[|HUNK_OPEN|..] == b + [SPACE, PLUS] + a + HUNK_CLOSE;
  }

  lemma SplitAtSpace(s: Str, a: Str, b: Str)
    requires SPACE !in a && s == a + [SPACE] + b
    ensures IndexOf(s, SPACE) == |a| && s[..|a|] == a && s[|a|..] == [SPACE] + b
  {
    IndexOfFirst(a, SPACE, b);
  }

  lemma DiffLineReadsBack(q: Str)
    ensures ReadDiffLine(DiffLine(q)) == Some(q)
    ensures NEWLINE !in DiffLine(q) <==> NEWLINE !in q
  {
    var l := DiffLine(q);
    var body := l[|DIFF_OPEN|..];
    assert body == q + B_OPEN + q;
    assert body[..|q|] == q;
    assert (|body| - 3) / 2 == |q|;
  }

  lemma IndexLineReadsBack(from: Str, to: Str, kind: Kind)
    requires |from| == 7 && |to| == 7
    ensures ReadIndexLine(IndexLine(from, to, kind), kind) == Some((from, to))
  {
    var l := IndexLine(from, to, kind);
    assert l[6..13] == from && l[15..22] == to;
  }

  lemma {:induction false} UnescapeInverse(p: Str)
    ensures Unescape(Escape(p)) == p
  {
    if p != [] {
      UnescapeInverse(p[1..]);
      var r := ReplaceByte(p[1..], BACKSLASH, [BACKSLASH, BACKSLASH]);
      var e := Escape(p);
      if p[0] == BACKSLASH {
        var s := ReplaceByte(p, BACKSLASH, [BACKSLASH, BACKSLASH]);
        assert s == [BACKSLASH, BACKSLASH] + r;
        assert s[1..] == [BACKSLASH] + r && s[1..][1..] == r;
        assert ReplaceByte(s[1..], QUOTE, [BACKSLASH, QUOTE]) == [BACKSLASH] + Escape(p[1..]);
        assert e == [BACKSLASH, BACKSLASH] + Escape(p[1..]);
        assert e[2..] == Escape(p[1..]);
      } else if p[0] == QUOTE {
        var s := ReplaceByte(p, BACKSLASH, [BACKSLASH, BACKSLASH]);
        assert s[1..] == r;
        assert e[2..] == Escape(p[1..]);
      } else {
        var s := ReplaceByte(p, BACKSLASH, [BACKSLASH, BACKSLASH]);
        assert s[1..] == r;
        assert e[1..] == Escape(p[1..]);
      }
    }
  }

  /** Quoting loses nothing: every path is read back from what stands in the header. */
  lemma PathReadsBack(p: Str)
    ensures UnquotePath(GitPath(p)) == p
  {
    hide Escape, Unescape;
    UnescapeInverse(p);
    var q := GitPath(p);
    if NeedsQuotes(p) {
      assert q[1..|q| - 1] == Escape(p);
    }
  }

  // ----- sections -----------------------------------------------------------------------

  /** What may follow a section: nothing, or the next one. */
  predicate AtSection(rest: Lns) {
    rest == [] || DIFF_OPEN <= rest[0]
  }

  lemma FirstBytes(rest: Lns)
    requires AtSection(rest) && rest != []
    ensures rest[0] != NO_NEWLINE && !(HUNK_OPEN <= rest[0])
  {
    assert rest[0][0] == DIFF_OPEN[0];
  }

  lemma SideStart(lines: seq<Str>, mark: byte, trailing: bool, rest: Lns)
    requires mark != BACKSLASH && (rest == [] || rest[0] != NO_NEWLINE)
    ensures var ls := SideLines(lines, mark, trailing) + rest; ls == [] || ls[0] != NO_NEWLINE
  {
    if lines != [] {
      assert (SideLines(lines, mark, trailing) + rest)[0] == [mark] + lines[0];
      assert NO_NEWLINE[0] == BACKSLASH;
    }
  }

  function HunkAtOf(kind: Kind, bc: nat, ac: nat): HunkAt {
    HunkAt(if kind.New? then 0 else 1, bc, if kind.Deleted? then 0 else 1, ac)
  }

  lemma HunkReadsBack(kind: Kind, b: Lines, a: Lines, rest: Lns)
    requires AtSection(rest)
    ensures ReadHunk(HunkLines(kind, b, a) + rest)
         == Some((Texts(JoinLines(b.lines, b.trailing), JoinLines(a.lines, a.trailing),
                        if b.lines == [] && a.lines == [] then None
                        else Some(HunkAtOf(kind, |b.lines|, |a.lines|))), rest))
  {
    hide SideLines, ReadSide, HunkHeader, ReadHunkHeader;
    if rest != [] { FirstBytes(rest); }
    var ls := HunkLines(kind, b, a) + rest;
    if b.lines == [] && a.lines == [] {
      assert ls == rest;
      assert JoinLines(b.lines, b.trailing) == [] && JoinLines(a.lines, a.trailing) == [];
    } else {
      var at := HunkAtOf(kind, |b.lines|, |a.lines|);
      HunkHeaderReadsBack(at);
      var minus, plus := SideLines(b.lines, MINUS, b.trailing), SideLines(a.lines, PLUS, a.trailing);
      assert ls[0] == HunkHeader(at);
      assert ls[1..] == minus + (plus + rest);
      SideStart(a.lines, PLUS, a.trailing, rest);
      SideReadsBack(b.lines, MINUS, b.trailing, plus + rest);
      SideReadsBack(a.lines, PLUS, a.trailing, rest);
    }
  }

  lemma MarksDiffer(q: Str, kind: Kind)
    ensures BinaryLine(q, kind) != FROM_OPEN + FromName(q, kind)
  {
    assert BinaryLine(q, kind)[0] == BINARY_OPEN[0];
    assert (FROM_OPEN + FromName(q, kind))[0] == FROM_OPEN[0];
  }

  lemma BodyReadsBack(q: Str, c: FileChange, rest: Lns)
    requires AtSection(rest)
    ensures ReadBody(BodyLines(q, c.Kind(), c.before, c.after) + rest, q, c.Kind()) == Some((SectionOf(c).body, rest))
  {
    hide BinaryLine, FromName, ToName, HunkLines, ReadHunk, SplitLines, CountLines, Utf8.Lossy;
    var kind := c.Kind();
    var ls := BodyLines(q, kind, c.before, c.after) + rest;
    MarksDiffer(q, kind);
    if IsBinary(c.before) || IsBinary(c.after) {
      assert ls[1..] == rest;
    } else {
      var b, a := SplitLines(c.before), SplitLines(c.after);
      assert ls[2..] == HunkLines(kind, b, a) + rest;
      HunkReadsBack(kind, b, a, rest);
      RejoinIff(c.before);
      RejoinIff(c.after);
    }
  }

  lemma IndexLineStart(from: Str, to: Str, kind: Kind)
    ensures IndexLine(from, to, kind) != NEW_MODE && IndexLine(from, to, kind) != DELETED_MODE
    ensures NEW_MODE != DELETED_MODE
  {
    assert IndexLine(from, to, kind)[0] == INDEX[0];
    assert NEW_MODE[0] != INDEX[0] && DELETED_MODE[0] != INDEX[0];
  }

  /** A printed section, read line by line, gives the change it was printed from: quoted path,
      kind, abbreviated hashes, both texts, and counts that are the numbers of their lines. */
  lemma SectionReadsBack(c: FileChange, rest: Lns)
    requires Wf(c) && AtSection(rest)
    ensures ReadSection(SectionLines(c) + rest) == Some((SectionOf(c), rest))
  {
    hide BodyLines, ReadBody, IndexLine, ReadIndexLine, DiffLine, ReadDiffLine, GitPath, UnquotePath;
    var q, kind := GitPath(c.path), c.Kind();
    var ls := SectionLines(c) + rest;
    var body := BodyLines(q, kind, c.before, c.after);
    DiffLineReadsBack(q);
    IndexLineReadsBack(c.From7(), c.To7(), kind);
    IndexLineStart(c.From7(), c.To7(), kind);
    PathReadsBack(c.path);
    BodyReadsBack(q, c, rest);
    var k := if kind.Changed? then 1 else 2;
    assert ls[0] == DiffLine(q);
    assert ls[k] == IndexLine(c.From7(), c.To7(), kind);
    assert ls[k + 1..] == body + rest;
  }

  // ----- from text to lines -------------------------------------------------------------

  lemma TextLinesCons(l: Str, t: Str)
    requires NEWLINE !in l
    ensures TextLines(l + [NEWLINE] + t) == [l] + TextLines(t)
  {
    IndexOfFirst(l, NEWLINE, t);
    var s := l + [NEWLINE] + t;
    assert s[..|l|] == l && s[|l| + 1..] == t;
  }

  lemma {:induction false} TextLinesInverse(ls: Lns, t: Str)
    requires Clean(ls)
    ensures TextLines(Unlines(ls) + t) == ls + TextLines(t)
    decreases |ls|
  {
    hide TextLines;
    if ls == [] {
      assert Unlines(ls) + t == t;
    } else {
      TextLinesInverse(ls[1..], t);
      TextLinesCons(ls[0], Unlines(ls[1..]) + t);
      assert Unlines(ls) + t == ls[0] + [NEWLINE] + (Unlines(ls[1..]) + t);
      assert ls == [ls[0]] + ls[1..];
    }
  }

  lemma {:induction false} TextLinesClean(s: Str)
    ensures Clean(TextLines(s))
    decreases |s|
  {
    var k := IndexOf(s, NEWLINE);
    if k < |s| {
      TextLinesClean(s[k + 1..]);
    } else {
      assert s[..k] == s;
    }
  }

  lemma FirstLine(open: Str, s: Str)
    requires open <= s && open != [] && NEWLINE !in open
    ensures TextLines(s) != [] && open <= TextLines(s)[0]
  {
    var k := IndexOf(s, NEWLINE);
    assert forall i :: 0 <= i < |open| ==> open[i] == s[i] && open[i] != NEWLINE;
    assert k >= |open|;
    assert s[..k][..|open|] == s[..|open|];
    assert k == |s| ==> s[..k] == s;
  }

  lemma {:induction false} SideLinesClean(lines: seq<Str>, mark: byte, trailing: bool)
    requires Clean(lines) && mark != NEWLINE
    ensures Clean(SideLines(lines, mark, trailing))
    decreases |lines|
  {
    if |lines| > 1 {
      SideLinesClean(lines[1..], mark, trailing);
    }
    if lines != [] {
      assert lines[0] in lines;
      assert NEWLINE !in [mark] + lines[0];
    }
  }

  lemma EscapeKeeps(path: Str)
    requires NEWLINE !in path
    ensures NEWLINE !in GitPath(path)
  {
    ReplaceKeeps(path, BACKSLASH, [BACKSLASH, BACKSLASH]);
    ReplaceKeeps(ReplaceByte(path, BACKSLASH, [BACKSLASH, BACKSLASH]), QUOTE, [BACKSLASH, QUOTE]);
  }

  lemma {:induction false} ReplaceKeeps(s: Str, c: byte, t: Str)
    requires NEWLINE !in s && NEWLINE !in t
    ensures NEWLINE !in ReplaceByte(s, c, t)
  {
    if s != [] {
      ReplaceKeeps(s[1..], c, t);
    }
  }

  lemma {:induction false} UnescapeKeeps(s: Str)
    requires NEWLINE !in s
    ensures NEWLINE !in Unescape(s)
    decreases |s|
  {
    if s != [] {
      UnescapeKeeps(s[1..]);
      if |s| > 1 { UnescapeKeeps(s[2..]); }
    }
  }

  lemma NameClean(q: Str, kind: Kind)
    requires NEWLINE !in q
    ensures NEWLINE !in FromName(q, kind) && NEWLINE !in ToName(q, kind)
  {
    assert NEWLINE !in Ascii("a/") && NEWLINE !in Ascii("b/") && NEWLINE !in DEV_NULL;
  }

  lemma BinaryLineClean(q: Str, kind: Kind)
    requires NEWLINE !in q
    ensures NEWLINE !in BinaryLine(q, kind)
  {
    hide FromName, ToName;
    NameClean(q, kind);
    assert NEWLINE !in BINARY_OPEN && NEWLINE !in AND && NEWLINE !in DIFFER;
  }

  lemma IndexLineClean(c: FileChange)
    requires Wf(c)
    ensures NEWLINE !in IndexLine(c.From7(), c.To7(), c.Kind())
  {
    assert NEWLINE !in INDEX && NEWLINE !in DOTS && NEWLINE !in MODE_TAIL;
    assert NEWLINE !in c.From7() && NEWLINE !in c.To7();
  }

  lemma NamesClean(q: Str, c: FileChange)
    requires Wf(c) && NEWLINE !in q
    ensures Clean([DiffLine(q)]) && Clean(ModeLines(c.Kind())) && Clean([IndexLine(c.From7(), c.To7(), c.Kind())])
    ensures Clean([BinaryLine(q, c.Kind())])
    ensures Clean([FROM_OPEN + FromName(q, c.Kind()), TO_OPEN + ToName(q, c.Kind())])
  {
    hide FromName, ToName, IndexLine, BinaryLine, DiffLine;
    NameClean(q, c.Kind());
    IndexLineClean(c);
    BinaryLineClean(q, c.Kind());
    DiffLineReadsBack(q);
    assert NEWLINE !in FROM_OPEN && NEWLINE !in TO_OPEN;
  }

  lemma SectionLinesClean(c: FileChange)
    requires Wf(c) && NEWLINE !in c.path
    ensures Clean(SectionLines(c))
  {
    hide DiffLine, IndexLine, BinaryLine, FromName, ToName, HunkHeader, GitPath, SplitLines, SideLines, ModeLines;
    var q := GitPath(c.path);
    EscapeKeeps(c.path);
    NamesClean(q, c);
    var b, a := SplitLines(c.before), SplitLines(c.after);
    RejoinIff(c.before);
    RejoinIff(c.after);
    SideLinesClean(b.lines, MINUS, b.trailing);
    SideLinesClean(a.lines, PLUS, a.trailing);
    var at := HunkAtOf(c.Kind(), |b.lines|, |a.lines|);
    HunkHeaderReadsBack(at);
    assert Clean(HunkLines(c.Kind(), b, a));
    assert Clean(BodyLines(q, c.Kind(), c.before, c.after));
  }

  lemma ReadPathIsALine(ls: Lns)
    requires Clean(ls) && ReadSection(ls).Some?
    ensures NEWLINE !in ReadSection(ls).value.0.path
  {
    hide ReadIndexLine, ReadBody, Unescape;
    assert ls[0] in ls;
    var q := ReadDiffLine(ls[0]).value;
    assert forall i :: 0 <= i < |q| ==> q[i] == ls[0][|DIFF_OPEN| + i];
    if |q| >= 2 {
      UnescapeKeeps(q[1..|q| - 1]);
    }
  }

  lemma PatchStart(cs: seq<FileChange>)
    ensures AtSection(TextLines(PatchOf(cs)))
    ensures cs != [] ==> TextLines(PatchOf(cs)) != []
  {
    hide BodyLines, ModeLines, IndexLine, GitPath, TextLines;
    if cs == [] {
      EmptyText();
    } else {
      var ls := SectionLines(cs[0]);
      assert ls[0] == DiffLine(GitPath(cs[0].path));
      assert DIFF_OPEN <= ls[0] <= Unlines(ls) <= PatchOf(cs);
      FirstLine(DIFF_OPEN, PatchOf(cs));
    }
  }

  lemma EmptyText()
    ensures TextLines([]) == []
  {
  }

  /** A whole patch reads back as one section per change, in order, with exactly the texts
      that were printed, if and only if no path has a newline in it: such a path is the one
      thing the header quoting lets break a line. */
  lemma {:induction false} PatchReadsBackIff(cs: seq<FileChange>)
    requires forall c :: c in cs ==> Wf(c)
    ensures ReadPatch(PatchOf(cs)) == Some(SectionsOf(cs)) <==> forall c :: c in cs ==> NEWLINE !in c.path
    decreases |cs|
  {
    hide SectionLines, TextLines, ReadSection, SectionOf, Wf;
    if cs == [] {
      EmptyText();
    } else {
      var c, more := cs[0], PatchOf(cs[1..]);
      PatchStart(cs);
      TextLinesClean(PatchOf(cs));
      if NEWLINE in c.path {
        var ls := TextLines(PatchOf(cs));
        assert ReadSections(ls).Some? ==> ReadSections(ls).value[0] == ReadSection(ls).value.0;
        if ReadSection(ls).Some? {
          ReadPathIsALine(ls);
        }
        PathOfSection(c);
        assert SectionsOf(cs)[0] == SectionOf(c);
      } else {
        SectionLinesClean(c);
        TextLinesInverse(SectionLines(c), more);
        PatchStart(cs[1..]);
        SectionReadsBack(c, TextLines(more));
        PatchReadsBackIff(cs[1..]);
        SectionNotEmpty(c);
        assert forall d :: d in cs <==> d == c || d in cs[1..];
        assert [SectionOf(c)] + SectionsOf(cs[1..]) == SectionsOf(cs);
        var r := ReadSections(TextLines(more));
        assert r.Some? ==> ([SectionOf(c)] + r.value == SectionsOf(cs) <==> r.value == SectionsOf(cs[1..])) by {
          assert r.Some? ==> ([SectionOf(c)] + r.value)[1..] == r.value;
          assert SectionsOf(cs)[1..] == SectionsOf(cs[1..]);
        }
      }
    }
  }

  lemma PathOfSection(c: FileChange)
    ensures SectionOf(c).path == c.path
  {
  }

  lemma SectionNotEmpty(c: FileChange)
    ensures SectionLines(c) != []
  {
  }

  /** Both texts of a change come back byte for byte exactly when neither holds a zero byte,
      which prints the change without its contents, and both are UTF-8. */
  lemma TextsSurviveIff(c: FileChange)
    requires Wf(c) && NEWLINE !in c.path
    ensures var got := ReadPatch(PatchOf([c]));
            (got.Some? && |got.value| == 1 && got.value[0].body.Texts?
             && got.value[0].body.before == c.before && got.value[0].body.after == c.after)
            <==> !IsBinary(c.before) && !IsBinary(c.after) && Utf8.Valid(c.before) && Utf8.Valid(c.after)
  {
    hide Utf8.Valid, Utf8.Lossy, ReadPatch, PatchOf, CountLines;
    PatchReadsBackIff([c]);
    assert SectionsOf([c]) == [SectionOf(c)];
    Utf8.LossyFixesOnlyIllFormed(c.before);
    Utf8.LossyFixesOnlyIllFormed(c.after);
  }
}

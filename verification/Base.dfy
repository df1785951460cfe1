/** Shared vocabulary: bytes, text, and the two result types every component uses.

    A Rust `String` is a sequence of UTF-8 bytes and every string operation of the
    source (comparison, `starts_with`, `rfind`, slicing, `len`) works on those bytes,
    so text is modelled as `Str`, a sequence of bytes. */
module Base {

  newtype byte = b: int | 0 <= b < 256

  type Bytes = seq<byte>
  type Str = Bytes

  /** Unsigned 32-bit integers, the width of `mode` and `name_len` in a tree object. */
  type u32 = x: int | 0 <= x < 0x1_0000_0000

  datatype Option<+T> = None | Some(value: T)

  /** Usable with `:-`, as the source uses `?`. */
  datatype Result<+T, +E> = Ok(value: T) | Err(error: E) {
    predicate IsFailure() {
      Err?
    }

    function PropagateFailure<U>(): Result<U, E>
      requires Err?
    {
      Err(error)
    }

    function Extract(): T
      requires Ok?
    {
      value
    }
  }

  const NEWLINE: byte := 10
  const SPACE: byte := 32
  const PERCENT: byte := 37
  const PLUS: byte := 43
  const MINUS: byte := 45
  const DOT: byte := 46
  const SLASH: byte := 47
  const BACKSLASH: byte := 92

  function Min(a: int, b: int): int {
    if a <= b then a else b
  }

  predicate NoDup<T(==)>(s: seq<T>) {
    forall i, j :: 0 <= i < j < |s| ==> s[i] != s[j]
  }

  /** `p` is a proper prefix of `q`. */
  predicate StrictlyUnder<T(==)>(p: seq<T>, q: seq<T>) {
    |p| < |q| && p == q[..|p|]
  }

  /** Neither path is the other or lies above it. */
  predicate Apart<T(==)>(p: seq<T>, q: seq<T>) {
    !(p <= q) && !(q <= p)
  }

  /** The kinds of node the file systems show. */
  datatype NodeKind = FileKind | DirKind

  /** The elements of a set in some order. */
  ghost function SomeOrder<T(!new)>(s: set<T>): (r: seq<T>)
    ensures NoDup(r) && forall p :: p in r <==> p in s
    decreases |s|
  {
    if s == {} then [] else
      var p :| p in s;
      var rest := SomeOrder(s - {p});
      assert p !in rest;
      rest + [p]
  }

  /** The set of elements of a sequence. */
  function Elems<T>(s: seq<T>): set<T> {
    set x | x in s
  }
}

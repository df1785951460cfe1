/** The atomic compare-and-swap ref store (src/ref_advance.rs). */
module RefStore {
  import opened Base

  datatype CasResult = Committed(value: Str) | Mismatch(current: Str)

  type Refs = map<Str, Str>

  /** Whether an advance from `expected` may happen: a first write needs an absent ref, an
      update needs the expected value. */
  predicate MayAdvance(refs: Refs, name: Str, expected: Option<Str>) {
    match expected
    case None => name !in refs
    case Some(v) => name in refs && refs[name] == v
  }

  /** What a refused caller is told: the current value, or the empty string when there is none. */
  function CurrentOf(refs: Refs, name: Str): Str {
    if name in refs then refs[name] else []
  }

  class MemRefStore {
    var refs: Refs

    constructor ()
      ensures refs == map[]
    {
      refs := map[];
    }

    method Advance(name: Str, expectedOld: Option<Str>, newValue: Str) returns (r: CasResult)
      requires name != [] && newValue != []
      modifies this
      ensures var here := if name in old(refs) then Some(old(refs)[name]) else None;
              if here == expectedOld then r == Committed(newValue) && refs == old(refs)[name := newValue]
              else r == Mismatch(if here.Some? then here.value else []) && refs == old(refs)
      ensures r.Committed? <==> MayAdvance(old(refs), name, expectedOld)
    {
      var current := if name in refs then Some(refs[name]) else None;
      match (expectedOld, current) {
        case (None, None) =>
          refs := refs[name := newValue];
          return Committed(newValue);
        case (None, Some(cur)) =>
          return Mismatch(cur);
        case (Some(_), None) =>
          return Mismatch([]);
        case (Some(expected), Some(cur)) =>
          if cur == expected {
            refs := refs[name := newValue];
            return Committed(newValue);
          }
          return Mismatch(cur);
      }
    }

    method Read(name: Str) returns (r: Option<Str>)
      requires name != []
      ensures r == if name in refs then Some(refs[name]) else None
    {
      r := if name in refs then Some(refs[name]) else None;
    }
  }
}

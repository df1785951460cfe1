/** Content-addressed blob stores (src/cas.rs). The digest is a parameter: any function from
    bytes to hashes. Where a theorem needs two blobs under one hash to be the same blob it says
    so of the blobs at hand. */
module Cas {
  import opened Base
  import opened TreeCodec
  import opened Merkle

  type Digest = Bytes -> Hash

  /** Every blob is stored under its own digest. */
  ghost predicate Sound(digest: Digest, s: Store) {
    forall h :: h in s ==> digest(s[h]) == h
  }

  /** Where both stores hold a hash they hold the same blob under it. */
  ghost predicate Agree(a: Store, b: Store) {
    forall h :: h in a && h in b ==> a[h] == b[h]
  }

  ghost predicate Extends(a: Store, b: Store) {
    forall h :: h in a ==> h in b && b[h] == a[h]
  }

  datatype FetchError = HashMismatch | RemoteFailed

  class MemStore {
    var data: Store
    const digest: Digest

    constructor (digest: Digest)
      ensures this.digest == digest && data == map[]
    {
      this.digest := digest;
      data := map[];
    }

    /** Stores the bytes under their digest; a blob already there is left alone. */
    method Put(bytes: Bytes) returns (h: Hash)
      modifies this
      ensures h == digest(bytes)
      ensures data == if h in old(data) then old(data) else old(data)[h := bytes]
      ensures Extends(old(data), data)
      ensures old(Sound(digest, data)) ==> Sound(digest, data)
    {
      h := digest(bytes);
      if h !in data {
        data := data[h := bytes];
      }
    }

    method Get(h: Hash) returns (r: Option<Bytes>)
      ensures r == if h in data then Some(data[h]) else None
    {
      r := if h in data then Some(data[h]) else None;
    }

    method Has(h: Hash) returns (b: bool)
      ensures b <==> h in data
    {
      b := h in data;
    }
  }

  /** A local store backed by a remote source, read through `Get` only. The remote is not
      trusted: its answer for a hash can be any bytes. */
  class HydratingStore {
    const local: MemStore

    constructor (local: MemStore)
      ensures this.local == local
    {
      this.local := local;
    }

    /** `remote` is what the source answers for `h`, `None` when it has no such blob. A blob
        handed out was local already or hashes to what was asked for; a wrong answer is an
        error and leaves the local store alone. */
    method Get(h: Hash, remote: Result<Option<Bytes>, FetchError>) returns (r: Result<Option<Bytes>, FetchError>)
      modifies local
      ensures h in old(local.data) ==> r == Ok(Some(old(local.data)[h])) && local.data == old(local.data)
      ensures h !in old(local.data) ==>
                match remote
                case Err(e) => r == Err(e) && local.data == old(local.data)
                case Ok(None) => r == Ok(None) && local.data == old(local.data)
                case Ok(Some(b)) =>
                  if local.digest(b) == h then r == Ok(Some(b)) && local.data == old(local.data)[h := b]
                  else r == Err(HashMismatch) && local.data == old(local.data)
      ensures old(Sound(local.digest, local.data)) ==> Sound(local.digest, local.data)
      ensures old(Sound(local.digest, local.data)) && r.Ok? && r.value.Some? ==> local.digest(r.value.value) == h
    {
      var here := local.Get(h);
      if here.Some? {
        return Ok(here);
      }
      if remote.Err? {
        return Err(remote.error);
      }
      if remote.value.None? {
        return Ok(None);
      }
      var fetched := remote.value.value;
      if local.digest(fetched) != h {
        return Err(HashMismatch);
      }
      var _ := local.Put(fetched);
      return Ok(Some(fetched));
    }
  }
}

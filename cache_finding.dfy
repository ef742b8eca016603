/** The lease-holding result of a cache lookup (arangod/Cache/Cache.cpp,
    class `Cache::Finding`): while a `Finding` over a value is alive, it
    holds one lease on that value, so the cache will not free it. */
module CacheFinding {

  /** A cached key/value pair with its lease counter. */
  class CachedValue {
    const key: seq<bv8>
    const value: seq<bv8>
    var leases: nat

    constructor (key: seq<bv8>, value: seq<bv8>)
      ensures this.key == key && this.value == value && leases == 0
    {
      this.key := key;
      this.value := value;
      leases := 0;
    }

    method Lease()
      modifies this
      ensures leases == old(leases) + 1
    {
      leases := leases + 1;
    }

    method Release()
      requires leases > 0
      modifies this
      ensures leases == old(leases) - 1
    {
      leases := leases - 1;
    }

    /** A new, unleased value with the same key and value. */
    method Copy() returns (c: CachedValue)
      ensures fresh(c) && c.key == key && c.value == value && c.leases == 0
    {
      c := new CachedValue(key, value);
    }
  }

  class Finding {
    /** The value found, or null when the lookup found nothing. */
    const held: CachedValue?

    /** A live finding over a value holds a lease on it. */
    ghost predicate Valid()
      reads held
    {
      held != null ==> held.leases > 0
    }

    /** Takes one lease on `v` when there is one; touches nothing otherwise. */
    constructor (v: CachedValue?)
      modifies v
      ensures held == v && Valid()
      ensures v != null ==> v.leases == old(v.leases) + 1
    {
      held := v;
      new;
      if v != null {
        v.Lease();
      }
    }

    /** The destructor: gives back the lease the constructor took. */
    method Dispose()
      requires Valid()
      modifies held
      ensures held != null ==> held.leases == old(held.leases) - 1
    {
      if held != null {
        held.Release();
      }
    }

    /** Something was found; a live finding that found something holds a
        lease on it. */
    predicate Found(): (r: bool)
      reads held
      ensures r <==> held != null
      ensures r && Valid() ==> held.leases > 0
    {
      held != null
    }

    function Value(): (r: CachedValue?)
      reads held
      ensures r != null <==> Found()
    {
      held
    }

    /** A copy of the value found, or null when nothing was found; the
        copy holds no lease and the value found keeps its leases. */
    method Copy() returns (c: CachedValue?)
      ensures c == null <==> !Found()
      ensures c != null ==> fresh(c) && c.key == held.key && c.value == held.value && c.leases == 0
    {
      if held == null {
        c := null;
      } else {
        c := held.Copy();
      }
    }
  }

  /** A finding's whole lifetime: constructed over `v`, queried, then
      destroyed. It leaves the lease count of `v` as it was, and the
      `Finding` reports exactly what it was given. */
  method FindingScope(v: CachedValue?) returns (found: bool, seen: CachedValue?)
    modifies v
    ensures found <==> v != null
    ensures seen == v
    ensures v != null ==> v.leases == old(v.leases)
  {
    var f := new Finding(v);
    found := f.Found();
    seen := f.Value();
    f.Dispose();
  }
}

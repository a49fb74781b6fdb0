/**
 * The store as the index and the fragment allocator see it: an
 * append-only transaction whose `alloc_rw` hands out aligned space past
 * everything written so far. The memory-mapped regions behind it are not
 * part of this model; each allocation records the object constructed there.
 */
module Store {
  import SieveOutput

  /** `pstore::aligned`: the least multiple of `a` that is at least `n`. */
  function AlignUp(n: nat, a: nat): (r: nat)
    requires a >= 1
    ensures n <= r < n + a
    ensures r % a == 0
  {
    if n % a == 0 then n
    else
      var q := n / a;
      assert n == a * q + n % a;
      assert n + (a - n % a) == a * (q + 1);
      SieveOutput.DivUnique(n + (a - n % a), a, q + 1, 0);
      n + (a - n % a)
  }

  /** No multiple of `a` lies between `n` and `AlignUp(n, a)`. */
  lemma AlignUpIsLeast(n: nat, a: nat, m: nat)
    requires a >= 1 && m % a == 0 && n <= m
    ensures AlignUp(n, a) <= m
  {
    var r := AlignUp(n, a);
    if m < r {
      var qm, qr := m / a, r / a;
      assert m == a * qm && r == a * qr;
      if qm >= qr {
        SieveOutput.MulLe(a, qr, qm);
        assert false;
      }
      SieveOutput.MulLe(a, qm + 1, qr);
      assert false;
    }
  }

  /**
   * A write transaction. `next` is the first byte past the data appended
   * so far; `records` maps every allocated address to what was built there.
   */
  class Transaction<Rec> {
    var next: nat
    var records: map<nat, Rec>

    /** Every allocation lies below `next`. */
    ghost predicate Valid()
      reads this
    {
      forall a :: a in records ==> a < next
    }

    /** A transaction that starts appending at `start`, the end of the file so far. */
    constructor (start: nat)
      ensures Valid() && next == start && records == map[]
    {
      next := start;
      records := map[];
    }

    /**
     * `alloc_rw(size, align)`: space for `size` bytes at the first address
     * aligned to `align` past the data written so far, into which `rec` is
     * constructed.
     */
    method AllocRw(size: nat, align: nat, rec: Rec) returns (addr: nat)
      requires Valid() && size >= 1 && align >= 1
      modifies this
      ensures Valid()
      ensures addr == AlignUp(old(next), align) && next == addr + size
      ensures records == old(records)[addr := rec]
      ensures forall a :: a in old(records) ==> a < addr
    {
      addr := AlignUp(next, align);
      next := addr + size;
      records := records[addr := rec];
    }
  }
}

// The 32-bit unsigned offset arithmetic of scmalloc and scfree, and for how many slabs it is right
// (src/slab.c:389, 463-490).
module SlabOffsets {
  import opened Arithmetic
  import opened Common
  import opened SlabPool
  import opened SizeClasses

  /** With n slabs, the 32-bit unsigned arithmetic of scmalloc and scfree sends slot k of slab s
      to its address and back: the bounds check passes and slab and slot are recovered. */
  ghost predicate Recovers32(n: nat, s: nat, size: nat, k: nat)
    requires 0 < size
  {
    var offset := (s * SLAB_SIZE) % U32 + (size * k) % U32;
    var pdiff := offset % U32;
    && offset == Address(s, size, k)
    && pdiff <= (n * SLAB_SIZE) % U32
    && pdiff / SLAB_SIZE == s
    && (pdiff % SLAB_SIZE) / size == k
  }

  /** Every chunk of every class survives. */
  ghost predicate AllRecover32(n: nat) {
    forall s, c, k | 0 <= s < n && 0 <= c < CACHE_COUNT && 0 <= k < ChunkCount(Table()[c]) ::
      Recovers32(n, s, Table()[c], k)
  }

  /** The offsets of the allocator's own chunks survive the 32-bit arithmetic exactly when there are
      fewer than 4096 slabs. */
  lemma Offsets32Exactly(n: nat)
    ensures AllRecover32(n) <==> n < 4096
  {
    TableOk();
    if n < 4096 {
      forall s, c, k | 0 <= s < n && 0 <= c < CACHE_COUNT && 0 <= k < ChunkCount(Table()[c])
        ensures Recovers32(n, s, Table()[c], k) {
        RecoversBelow4096(n, s, Table()[c], k);
      }
    } else {
      FailsFrom4096(n);
      FirstClass();
      assert 0 < ChunkCount(Table()[0]);
    }
  }

  lemma RecoversBelow4096(n: nat, s: nat, size: nat, k: nat)
    requires s < n < 4096 && 0 < size <= SLAB_SIZE && k < ChunkCount(size)
    ensures Recovers32(n, s, size, k)
  {
    AddressDecodes(s, size, k);
    NoWrap(n, s, size * k);
  }

  lemma NoWrap(n: nat, s: nat, x: nat)
    requires s < n < 4096 && x < SLAB_SIZE
    ensures (s * SLAB_SIZE) % U32 == s * SLAB_SIZE && x % U32 == x
    ensures (s * SLAB_SIZE + x) % U32 == s * SLAB_SIZE + x <= n * SLAB_SIZE == (n * SLAB_SIZE) % U32
  {
  }

  /** With the smallest class: either the check rejects slab 4095 or slab 4096 comes back as slab 0. */
  lemma FailsFrom4096(n: nat)
    requires n >= 4096
    ensures !Recovers32(n, 4095, 24, 0) || (n > 4096 && !Recovers32(n, 4096, 24, 0))
  {
  }

  /** Multiples of the slab size repeat every 4096 slabs in 32-bit arithmetic. */
  lemma Region32(n: nat)
    ensures (n * SLAB_SIZE) % U32 == (n % 4096) * SLAB_SIZE
  {
  }

  /** The size of the region that is asked for is right exactly when there are fewer than 4096 slabs;
      from there on the region is too small. */
  lemma RegionFits32(n: nat)
    ensures (n * SLAB_SIZE) % U32 == n * SLAB_SIZE <==> n < 4096
    ensures n >= 4096 ==> (n * SLAB_SIZE) % U32 < n * SLAB_SIZE
  {
    Region32(n);
  }
}

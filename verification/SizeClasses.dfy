// The size classes: the table init_cache_manager builds at factor 1.25 and the ceiling search
// scmalloc uses on it (src/slab.c:261-302, 346-368).
module SizeClasses {
  import opened Arithmetic
  import opened Common
  import opened SlabPool
  import opened SlabLists

  const INT_MAX: nat := 0x7FFF_FFFF
  const MIN_SLAB_CHUNK_SIZE: nat := 20
  const MAX_CLASSES: nat := 0x4000_0001  // 2^30 + 1, see SumsFitExactly
  const CACHE_COUNT: nat := 47           // floor(log_1.25(SLAB_SIZE / MIN_SLAB_CHUNK_SIZE)) - 1

  // ----- the ceiling search -----------------------------------------------------------------

  ghost predicate Nondecreasing(arr: seq<Cache>) {
    forall i, j | 0 <= i <= j < |arr| :: arr[i].chunkSize <= arr[j].chunkSize
  }

  /** The index of a class of least size that is at least `key`, None exactly when there is none.
      `arr` is None for a NULL table. `top` is the largest l + r on the way, which has to fit a C int. */
  method SizeToCache(arr: Option<seq<Cache>>, arrSize: nat, key: nat) returns (res: Option<nat>, ghost top: int)
    requires arr.Some? && 1 <= arrSize < INT_MAX ==> arrSize == |arr.value| && Nondecreasing(arr.value)
    ensures arr.None? || arrSize >= INT_MAX || arrSize < 1 ==> res == None
    ensures arr.Some? && 1 <= arrSize < INT_MAX ==>
              match res
              case None => forall i | 0 <= i < arrSize :: arr.value[i].chunkSize < key
              case Some(c) =>
                && c < arrSize && key <= arr.value[c].chunkSize
                && forall i | 0 <= i < arrSize
                && key <= arr.value[i].chunkSize :: arr.value[c].chunkSize <= arr.value[i].chunkSize
    ensures arr.Some? && 1 <= arrSize < INT_MAX ==> top == MaxSum(Sizes(arr.value), key, 0, arrSize - 1)
    ensures arrSize <= MAX_CLASSES ==> top <= INT_MAX
  {
    hide MaxSum;
    top := 0;
    if arr.None? || arrSize >= INT_MAX || arrSize < 1 {
      return None, top;
    }
    var a := arr.value;
    ghost var sizes := Sizes(a);
    SumBound(sizes, key, 0, arrSize - 1);
    var l, m: int, r: int := 0, 0, arrSize - 1;
    while l < r
      invariant 0 <= l <= r + 1 <= arrSize && l < arrSize
      invariant forall i | 0 <= i < l :: a[i].chunkSize < key
      invariant forall i | r < i < arrSize :: key < a[i].chunkSize
      invariant 0 <= top && MaxSum(sizes, key, 0, arrSize - 1) == Max(top, MaxSum(sizes, key, l, r))
      decreases r - l
    {
      MaxSumStep(sizes, key, l, r);
      top := Max(top, l + r);
      m := (l + r) / 2;
      var msize := a[m].chunkSize;
      if key > msize {
        l := m + 1;
      } else if key < msize {
        r := m - 1;
      } else {
        return Some(m), top;
      }
    }
    MaxSumEnd(sizes, key, l, r);
    if r < 0 {
      r := 0;
    }
    if key <= a[r].chunkSize {
      return Some(r), top;
    } else if r < arrSize - 1 {
      if key <= a[r + 1].chunkSize {
        return Some(r + 1), top;
      }
    }
    return None, top;
  }

  function Sizes(arr: seq<Cache>): (sizes: seq<nat>)
    ensures |sizes| == |arr|
  {
    seq(|arr|, i requires 0 <= i < |arr| => arr[i].chunkSize)
  }

  function Max(a: int, b: int): int {
    if a < b then b else a
  }

  /** The largest l + r that the search computes on its way. */
  function MaxSum(sizes: seq<nat>, key: nat, l: int, r: int): (top: int)
    requires 0 <= l && r < |sizes|
    ensures 0 <= top
    decreases r - l
  {
    if l >= r then 0
    else
      var m := (l + r) / 2;
      var rest :=
        if key > sizes[m] then MaxSum(sizes, key, m + 1, r)
        else if key < sizes[m] then MaxSum(sizes, key, l, m - 1)
        else 0;
      Max(l + r, rest)
  }

  lemma MaxSumStep(sizes: seq<nat>, key: nat, l: int, r: int)
    requires 0 <= l < r < |sizes|
    ensures var m := (l + r) / 2;
            MaxSum(sizes, key, l, r) ==
              Max(l + r,
                  if key > sizes[m] then MaxSum(sizes, key, m + 1, r)
                  else if key < sizes[m] then MaxSum(sizes, key, l, m - 1)
                  else 0)
  {
  }

  lemma MaxSumEnd(sizes: seq<nat>, key: nat, l: int, r: int)
    requires 0 <= l && r < |sizes| && l >= r
    ensures MaxSum(sizes, key, l, r) == 0
  {
  }

  predicate Sorted(sizes: seq<nat>) {
    forall i, j | 0 <= i <= j < |sizes| :: sizes[i] <= sizes[j]
  }

  predicate SearchFits(sizes: seq<nat>, key: nat) {
    MaxSum(sizes, key, 0, |sizes| - 1) <= INT_MAX
  }

  /** No search in a sorted table of n classes leaves the range of a C int. */
  ghost predicate SumsFit(n: nat) {
    forall sizes: seq<nat>, key: nat | |sizes| == n && Sorted(sizes) :: SearchFits(sizes, key)
  }

  lemma {:induction false} SumBound(sizes: seq<nat>, key: nat, l: int, r: int)
    requires 0 <= l && r < |sizes|
    ensures MaxSum(sizes, key, l, r) <= 0 || MaxSum(sizes, key, l, r) <= 2 * |sizes| - 3
    decreases r - l
  {
    if l < r {
      var m := (l + r) / 2;
      SumBound(sizes, key, m + 1, r);
      SumBound(sizes, key, l, m - 1);
    }
  }

  /** A key above all sizes takes the search to the right end. */
  lemma {:induction false} RightmostSum(sizes: seq<nat>, key: nat, l: int)
    requires 0 <= l < |sizes| - 1 && forall i | 0 <= i < |sizes| :: sizes[i] < key
    ensures MaxSum(sizes, key, l, |sizes| - 1) >= 2 * |sizes| - 4
    decreases |sizes| - l
  {
    var m := (l + |sizes| - 1) / 2;
    if m + 1 < |sizes| - 1 {
      RightmostSum(sizes, key, m + 1);
    }
  }

  /** l + r stays a C int in every search exactly for tables of at most 2^30 + 1 classes. */
  lemma SumsFitExactly(n: nat)
    requires n > 0
    ensures SumsFit(n) <==> n <= MAX_CLASSES
  {
    hide MaxSum;
    if n <= MAX_CLASSES {
      forall sizes: seq<nat>, key: nat | |sizes| == n && Sorted(sizes)
        ensures SearchFits(sizes, key) {
        SumBound(sizes, key, 0, n - 1);
      }
    } else {
      var sizes := seq(n, _ => 0);
      RightmostSum(sizes, 1, 0);
      assert Sorted(sizes) && !SearchFits(sizes, 1);
    }
  }

  // ----- the table at factor 1.25 -----------------------------------------------------------

  function RoundUp(size: nat): nat {
    if size % ALIGN_BYTES != 0 then size + (ALIGN_BYTES - size % ALIGN_BYTES) else size
  }

  /** The chunk size of class i; scaling by 1.25 truncates. */
  function ClassSize(i: nat): (size: nat)
    ensures size > 0
  {
    if i == 0 then RoundUp(MIN_SLAB_CHUNK_SIZE) else RoundUp(ClassSize(i - 1) * 5 / 4)
  }

  /** One step of the loop, from an aligned size to the next. */
  lemma ScalingGrows(size: nat)
    requires 24 <= size
    ensures RoundUp(size * 5 / 4) % ALIGN_BYTES == 0 && size < RoundUp(size * 5 / 4)
  {
    var t := size * 5 / 4;
    var q, r := t / ALIGN_BYTES, t % ALIGN_BYTES;
    assert t == q * ALIGN_BYTES + r && size < t;
    if r != 0 {
      assert RoundUp(t) == (q + 1) * ALIGN_BYTES;
    }
  }

  lemma {:induction false} ClassSizeGrows(i: nat)
    ensures ClassSize(i) % ALIGN_BYTES == 0 && 24 <= ClassSize(i)
    ensures i > 0 ==> ClassSize(i - 1) < ClassSize(i)
  {
    hide RoundUp;
    if i > 0 {
      ClassSizeGrows(i - 1);
      ScalingGrows(ClassSize(i - 1));
    } else {
      FirstClass();
    }
  }

  lemma {:induction false} ClassSizeMonotone(i: nat, j: nat)
    requires i < j
    ensures ClassSize(i) < ClassSize(j)
  {
    ClassSizeGrows(j);
    if i < j - 1 {
      ClassSizeMonotone(i, j - 1);
    }
  }

  function Table(): (t: seq<nat>)
    ensures |t| == CACHE_COUNT && forall i | 0 <= i < CACHE_COUNT :: t[i] == ClassSize(i) > 0
  {
    seq(CACHE_COUNT, i requires 0 <= i => ClassSize(i))
  }

  lemma ScaleStep(i: nat, size: nat, next: nat)
    requires ClassSize(i) == size && next == RoundUp(size * 5 / 4)
    ensures ClassSize(i + 1) == next
  {
  }

  lemma FirstClass()
    ensures ClassSize(0) == 24
  {
  }

  lemma MiddleClass()
    ensures ClassSize(23) == 5680
  {
    FirstClass();
    hide ClassSize;
    ScaleStep(0, 24, 32); ScaleStep(1, 32, 40); ScaleStep(2, 40, 56); ScaleStep(3, 56, 72);
    ScaleStep(4, 72, 96); ScaleStep(5, 96, 120); ScaleStep(6, 120, 152); ScaleStep(7, 152, 192);
    ScaleStep(8, 192, 240); ScaleStep(9, 240, 304); ScaleStep(10, 304, 384); ScaleStep(11, 384, 480);
    ScaleStep(12, 480, 600); ScaleStep(13, 600, 752); ScaleStep(14, 752, 944); ScaleStep(15, 944, 1184);
    ScaleStep(16, 1184, 1480); ScaleStep(17, 1480, 1856); ScaleStep(18, 1856, 2320); ScaleStep(19, 2320, 2904);
    ScaleStep(20, 2904, 3632); ScaleStep(21, 3632, 4544); ScaleStep(22, 4544, 5680);
  }

  lemma LargestClasses()
    ensures ClassSize(43) == 493552 && ClassSize(44) == 616944 && ClassSize(46) == 963984
  {
    MiddleClass();
    hide ClassSize;
    ScaleStep(23, 5680, 7104); ScaleStep(24, 7104, 8880); ScaleStep(25, 8880, 11104);
    ScaleStep(26, 11104, 13880); ScaleStep(27, 13880, 17352); ScaleStep(28, 17352, 21696);
    ScaleStep(29, 21696, 27120); ScaleStep(30, 27120, 33904); ScaleStep(31, 33904, 42384);
    ScaleStep(32, 42384, 52984); ScaleStep(33, 52984, 66232); ScaleStep(34, 66232, 82792);
    ScaleStep(35, 82792, 103496); ScaleStep(36, 103496, 129376); ScaleStep(37, 129376, 161720);
    ScaleStep(38, 161720, 202152); ScaleStep(39, 202152, 252696); ScaleStep(40, 252696, 315872);
    ScaleStep(41, 315872, 394840); ScaleStep(42, 394840, 493552); ScaleStep(43, 493552, 616944);
    ScaleStep(44, 616944, 771184); ScaleStep(45, 771184, 963984);
  }

  /** The table is aligned, strictly increasing and within a slab; its last three classes hold one
      chunk per slab, the ones before hold more. */
  lemma TableOk()
    ensures ClassesOk(Table())
    ensures forall c | 0 <= c < CACHE_COUNT :: ChunkCount(Table()[c]) == 1 <==> CACHE_COUNT - 3 <= c
  {
    LargestClasses();
    hide ClassSize;
    forall c | 0 <= c < CACHE_COUNT
      ensures 0 < Table()[c] <= SLAB_SIZE && Table()[c] % ALIGN_BYTES == 0
      ensures ChunkCount(Table()[c]) == 1 <==> CACHE_COUNT - 3 <= c {
      ClassSizeGrows(c);
      if c < 46 { ClassSizeMonotone(c, 46); }
      if c < 43 { ClassSizeMonotone(c, 43); }
      if c > 44 { ClassSizeMonotone(44, c); }
      OneChunk(ClassSize(c));
    }
    forall c, d | 0 <= c < d < CACHE_COUNT
      ensures Table()[c] < Table()[d] {
      ClassSizeMonotone(c, d);
    }
  }

  lemma OneChunk(size: nat)
    requires 0 < size <= SLAB_SIZE
    ensures ChunkCount(size) == 1 <==> SLAB_SIZE < 2 * size
  {
  }

  /** So scmalloc never gets a NULL class for a size within the largest class. */
  lemma InRangeSizeHasClass(classes: seq<nat>, size: nat)
    requires ClassesOk(classes)
    ensures CacheFor(classes, size) < |classes| <==> size <= classes[|classes| - 1]
  {
  }

  /** Builds the table of empty classes (src/slab.c:355-368). */
  method BuildClasses() returns (caches: seq<Cache>)
    ensures |caches| == CACHE_COUNT
    ensures forall c | 0 <= c < CACHE_COUNT ::
              EmptyClass(caches[c], c) && fresh(caches[c].slabsPartial) && fresh(caches[c].slabsFull)
  {
    hide ChunkCount;
    caches := [];
    var i, size := 0, MIN_SLAB_CHUNK_SIZE;
    while i < CACHE_COUNT
      invariant 0 <= i <= CACHE_COUNT && |caches| == i
      invariant size == if i == 0 then MIN_SLAB_CHUNK_SIZE else ClassSize(i - 1) * 5 / 4
      invariant forall c | 0 <= c < i ::
                  EmptyClass(caches[c], c) && fresh(caches[c].slabsPartial) && fresh(caches[c].slabsFull)
    {
      if size % ALIGN_BYTES != 0 {
        size := size + (ALIGN_BYTES - size % ALIGN_BYTES);
      }
      assert size == ClassSize(i);
      var cache := new Cache(i, size);
      caches := caches + [cache];
      size := size * 5 / 4;
      i := i + 1;
    }
  }

  ghost predicate EmptyClass(cache: Cache, c: nat)
    reads cache.slabsPartial, cache.slabsFull
  {
    && cache.index == c && cache.chunkSize == ClassSize(c) > 0 && cache.chunkCountPerSlab == ChunkCount(ClassSize(c))
    && cache.slabsPartial.id == PartialList(c) && cache.slabsPartial.nodes == [] && cache.slabsPartial.head == null
    && cache.slabsPartial.tail == null
    && cache.slabsFull.id == FullList(c) && cache.slabsFull.nodes == [] && cache.slabsFull.head == null
    && cache.slabsFull.tail == null
  }
}

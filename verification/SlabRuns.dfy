// Whole runs of the slab allocator: any sequence of scmalloc and scfree calls by a client that
// frees only what it holds (src/slab.c:420-513).
module SlabRuns {
  import opened Arithmetic
  import opened Common
  import opened SlabPool

  datatype Op = Alloc(size: nat) | Release(a: nat)

  /** The allocator and what its client holds: each live offset with the size asked for. */
  datatype Client = Client(pool: Pool, live: map<nat, nat>)

  ghost predicate ClientInv(st: Client) {
    && Inv(st.pool)
    && (forall a: nat :: a in st.live <==> IsLive(st.pool, a))
    && (forall a | a in st.live :: st.live[a] <= ChunkAt(st.pool, a))
  }

  ghost predicate Allowed(st: Client, op: Op) {
    op.Release? ==> op.a in st.live
  }

  /** The client state after a call; a NULL result changes nothing. */
  ghost function Step(st: Client, op: Op): (r: Client)
    requires ClientInv(st) && Allowed(st, op)
    ensures ClientInv(r)
    ensures r.pool.classes == st.pool.classes && |r.pool.slabs| == |st.pool.slabs|
    ensures op.Release? ==> r.live == st.live - {op.a}
  {
    match op
    case Alloc(size) => AllocKeeps(st, size); Allocated(st, size)
    case Release(a) => ReleaseKeeps(st, a); Released(st, a)
  }

  ghost function Allocated(st: Client, size: nat): Client
    requires Inv(st.pool)
  {
    match Malloc(st.pool, size)
    case (p, None) => Client(p, st.live)
    case (p, Some(a)) => Client(p, st.live[a := size])
  }

  ghost function Released(st: Client, a: nat): Client
    requires Inv(st.pool) && IsLive(st.pool, a)
  {
    Client(Free(st.pool, a), st.live - {a})
  }

  lemma AllocKeeps(st: Client, size: nat)
    requires ClientInv(st)
    ensures var r := Allocated(st, size);
            ClientInv(r) && r.pool.classes == st.pool.classes && |r.pool.slabs| == |st.pool.slabs|
  {
    hide Inv, Malloc, IsLive, ChunkAt;
    MallocKeepsInv(st.pool, size);
    MallocAddsOne(st.pool, size);
    MallocFrame(st.pool, size);
  }

  lemma ReleaseKeeps(st: Client, a: nat)
    requires ClientInv(st) && a in st.live
    ensures var r := Released(st, a);
            ClientInv(r) && r.pool.classes == st.pool.classes && |r.pool.slabs| == |st.pool.slabs|
  {
    hide Inv, IsLive, ChunkAt, Free;
    FreeFrame(st.pool, a);
    FreeKeepsInv(st.pool, a);
    FreeEndsOne(st.pool, a);
  }

  lemma MallocFrame(p: Pool, size: nat)
    requires Inv(p)
    ensures Malloc(p, size).0.classes == p.classes && |Malloc(p, size).0.slabs| == |p.slabs|
  {
    if Malloc(p, size).1.Some? {
      var q, c, s := MallocTakesSlot(p, size);
    }
  }

  lemma FreeFrame(p: Pool, a: nat)
    requires Inv(p) && IsLive(p, a)
    ensures Free(p, a).classes == p.classes && |Free(p, a).slabs| == |p.slabs|
  {
  }

  /** Every release in the run names an offset the client holds at that point. */
  ghost predicate LegalRun(st: Client, ops: seq<Op>)
    requires ClientInv(st)
    decreases |ops|
  {
    ops == [] || (Allowed(st, ops[0]) && LegalRun(Step(st, ops[0]), ops[1..]))
  }

  ghost function Run(st: Client, ops: seq<Op>): (r: Client)
    requires ClientInv(st) && LegalRun(st, ops)
    ensures ClientInv(r)
    ensures r.pool.classes == st.pool.classes && |r.pool.slabs| == |st.pool.slabs|
    decreases |ops|
  {
    if ops == [] then st else Run(Step(st, ops[0]), ops[1..])
  }

  /** What a call returns: the offset handed out by scmalloc, None for NULL and for scfree. */
  ghost function Result(st: Client, op: Op): Option<nat>
    requires ClientInv(st) && Allowed(st, op)
  {
    match op
    case Alloc(size) => Malloc(st.pool, size).1
    case Release(_) => None
  }

  /** What a call returns is what it adds to the client's chunks; NULL changes nothing, and scfree takes
      away the chunk it is given. */
  lemma StepResult(st: Client, op: Op)
    requires ClientInv(st) && Allowed(st, op)
    ensures match op
            case Release(a) => a in st.live && Step(st, op).live == st.live - {a} && Result(st, op) == None
            case Alloc(size) =>
              match Result(st, op)
              case None => Step(st, op) == st
              case Some(a) =>
                && a !in st.live && Step(st, op).live == st.live[a := size]
                && IsLive(Step(st, op).pool, a) && size <= ChunkAt(Step(st, op).pool, a)
  {
    hide Malloc, Inv, Free, IsLive, ChunkAt;
    if op.Alloc? {
      MallocAddsOne(st.pool, op.size);
    }
  }

  /** What the calls of a run return. */
  ghost function Results(st: Client, ops: seq<Op>): (rs: seq<Option<nat>>)
    requires ClientInv(st) && LegalRun(st, ops)
    ensures |rs| == |ops|
    decreases |ops|
  {
    if ops == [] then [] else [Result(st, ops[0])] + Results(Step(st, ops[0]), ops[1..])
  }

  // ----- the initial state ------------------------------------------------------------------

  function UpTo(n: nat): seq<nat> {
    seq(n, i => i)
  }

  /** What init_cache_manager builds: every slab on the free list in index order, no class. */
  ghost function InitPool(classes: seq<nat>, n: nat): Pool {
    Pool(classes, seq(n, i => Slab(0, {}, NO_CACHE)), InitLists(|classes|, n), 0)
  }

  ghost function AllLists(count: nat): (r: set<ListId>)
    ensures forall c: nat :: (PartialList(c) in r <==> c < count) && (FullList(c) in r <==> c < count)
    ensures FreeList in r
  {
    {FreeList} + (set c | 0 <= c < count :: PartialList(c)) + (set c | 0 <= c < count :: FullList(c))
  }

  ghost function InitLists(count: nat, n: nat): map<ListId, seq<nat>> {
    map id | id in AllLists(count) :: if id == FreeList then UpTo(n) else []
  }

  lemma {:induction false} NoBytes(p: Pool, slabs: seq<Slab>)
    requires forall s | 0 <= s < |slabs| :: slabs[s].nused == 0
    ensures TotalBytes(p, slabs) == 0
  {
    if slabs != [] {
      NoBytes(p, slabs[1..]);
      if HasCache(p, slabs[0]) {
        assert 0 * p.classes[slabs[0].cache] == 0;
      }
    }
  }

  lemma InitInv(classes: seq<nat>, n: nat)
    requires ClassesOk(classes)
    ensures ClientInv(Client(InitPool(classes, n), map[]))
  {
    var p := InitPool(classes, n);
    NoBytes(p, p.slabs);
    forall s: nat | s < n
      ensures s in UpTo(n) {
      assert UpTo(n)[s] == s;
    }
    assert ListsAgree(p.lists, Homes(p));
    forall id
      ensures id in p.lists <==> IdOk(|p.classes|, id) {
      match id
      case FreeList =>
      case PartialList(c) =>
      case FullList(c) =>
    }
  }

  ghost function InitClient(classes: seq<nat>, n: nat): (st: Client)
    requires ClassesOk(classes)
    ensures ClientInv(st) && |st.pool.slabs| == n
  {
    InitInv(classes, n);
    Client(InitPool(classes, n), map[])
  }

  // ----- what every reachable state satisfies ----------------------------------------------

  /** Each slab is in exactly one list: free with no slot used, partial of its own class with some
      but not all slots used, or full of its own class with all slots used. */
  ghost predicate OneList(p: Pool, s: nat)
    requires s < |p.slabs|
  {
    var sl := p.slabs[s];
    && (exists id :: id in p.lists && s in p.lists[id])
    && (forall id | id in p.lists && s in p.lists[id] ::
          match id
          case FreeList => sl.nused == 0 && sl.used == {}
          case PartialList(c) =>
            c == sl.cache && HasCache(p, sl) && 0 < p.classes[c] && 0 < sl.nused < ChunkCount(p.classes[c])
          case FullList(c) =>
            c == sl.cache && HasCache(p, sl) && 0 < p.classes[c] && sl.nused == ChunkCount(p.classes[c]) > 0)
    && (forall id, id' | id in p.lists && id' in p.lists && s in p.lists[id] && s in p.lists[id'] :: id == id')
  }

  lemma InvOneList(p: Pool, s: nat)
    requires Inv(p) && s < |p.slabs|
    ensures OneList(p, s)
  {
  }

  /** A live chunk lies inside its slab and starts at a multiple of eight. */
  lemma LivePlace(p: Pool, a: nat)
    requires Inv(p) && IsLive(p, a)
    ensures a % ALIGN_BYTES == 0
    ensures a / SLAB_SIZE * SLAB_SIZE <= a && a + ChunkAt(p, a) <= a / SLAB_SIZE * SLAB_SIZE + SLAB_SIZE
    ensures a + ChunkAt(p, a) <= |p.slabs| * SLAB_SIZE
  {
    LiveFacts(p, a);
    var s, size := a / SLAB_SIZE, ChunkAt(p, a);
    var k := (a % SLAB_SIZE) / size;
    SlotFits(size, k);
    var e := size / ALIGN_BYTES;
    DivMod(size, ALIGN_BYTES);
    assert size * k == ALIGN_BYTES * (e * k) by {
      assert size == e * ALIGN_BYTES;
      MulRegroup(e, ALIGN_BYTES, k);
    }
    DivModUnique(a, ALIGN_BYTES, s * (SLAB_SIZE / ALIGN_BYTES) + e * k, 0);
    MulMonotone(s + 1, |p.slabs|, SLAB_SIZE);
  }

  /** Two live chunks never overlap. */
  lemma LiveDisjoint(p: Pool, a: nat, b: nat)
    requires Inv(p) && IsLive(p, a) && IsLive(p, b) && a < b
    ensures a + ChunkAt(p, a) <= b
  {
    LivePlace(p, a);
    LivePlace(p, b);
    var s, t, size := a / SLAB_SIZE, b / SLAB_SIZE, ChunkAt(p, a);
    if s == t {
      var k, m := (a % SLAB_SIZE) / size, (b % SLAB_SIZE) / size;
      SlotsDisjoint(s, size, k, m);
    } else {
      MulMonotone(s + 1, t, SLAB_SIZE);
    }
  }

  lemma SlotsDisjoint(s: nat, size: nat, k: nat, m: nat)
    requires Address(s, size, k) < Address(s, size, m)
    ensures Address(s, size, k) + size <= Address(s, size, m)
  {
    if m <= k {
      MulMonotone(m, k, size);
      assert false;
    }
    MulMonotone(k + 1, m, size);
    MulSucc(k, size);
  }

  /** The bytes handed out never exceed the slab region. */
  lemma {:induction false} BytesBounded(p: Pool, slabs: seq<Slab>)
    requires ClassesOk(p.classes) && forall s | 0 <= s < |slabs| :: SlabOk(p, slabs[s])
    ensures TotalBytes(p, slabs) <= |slabs| * SLAB_SIZE
  {
    if slabs != [] {
      assert slabs[0] in slabs;
      BytesBounded(p, slabs[1..]);
      var sl := slabs[0];
      if HasCache(p, sl) && sl.nused > 0 {
        var size := p.classes[sl.cache];
        MulMonotone(sl.nused, ChunkCount(size), size);
        DivMod(SLAB_SIZE, size);
      } else if HasCache(p, sl) {
        assert 0 * p.classes[sl.cache] == 0;
      }
    }
  }

  /** Each slab is in exactly one list and in the right one, the client's chunks are aligned, large
      enough, inside the region and pairwise disjoint, and the memory counter is the sum over slabs
      of used chunks times chunk size, within the region. */
  ghost predicate Safe(st: Client, n: nat) {
    && |st.pool.slabs| == n
    && (forall s | 0 <= s < n :: OneList(st.pool, s))
    && (forall a | a in st.live :: a % ALIGN_BYTES == 0 && a + st.live[a] <= n * SLAB_SIZE)
    && (forall a, b | a in st.live && b in st.live && a < b :: a + st.live[a] <= b)
    && st.pool.memUsed == TotalBytes(st.pool, st.pool.slabs) <= n * SLAB_SIZE
  }

  /** Every run from initialization ends in a safe state. */
  lemma EveryRunIsSafe(classes: seq<nat>, n: nat, ops: seq<Op>)
    requires ClassesOk(classes)
    requires LegalRun(InitClient(classes, n), ops)
    ensures Safe(Run(InitClient(classes, n), ops), n)
  {
    hide Run, LegalRun;
    InvIsSafe(Run(InitClient(classes, n), ops));
  }

  lemma InvIsSafe(st: Client)
    requires ClientInv(st)
    ensures Safe(st, |st.pool.slabs|)
  {
    hide OneList, IsLive, ChunkAt, ListsAgree;
    var n := |st.pool.slabs|;
    forall s | 0 <= s < n
      ensures OneList(st.pool, s) {
      InvOneList(st.pool, s);
    }
    forall a | a in st.live
      ensures a % ALIGN_BYTES == 0 && a + st.live[a] <= n * SLAB_SIZE {
      LivePlace(st.pool, a);
    }
    forall a, b | a in st.live && b in st.live && a < b
      ensures a + st.live[a] <= b {
      LiveDisjoint(st.pool, a, b);
    }
    BytesBounded(st.pool, st.pool.slabs);
  }

  // ----- when scmalloc returns NULL ---------------------------------------------------------

  /** Slab s could serve class c: it is empty, or it belongs to c and is not full. */
  ghost predicate CouldServe(p: Pool, c: nat, s: nat)
    requires c < |p.classes| && s < |p.slabs| && 0 < p.classes[c]
  {
    p.slabs[s].nused == 0 || (p.slabs[s].cache == c && p.slabs[s].nused < ChunkCount(p.classes[c]))
  }

  /** scmalloc returns NULL exactly when no class is large enough, or no slab of the whole pool is
      empty or a non-full slab of the least class that is. */
  lemma MallocNullExactly(p: Pool, size: nat, c: nat)
    requires Inv(p) && c == CacheFor(p.classes, size)
    ensures Malloc(p, size).1.None? <==>
              p.classes[|p.classes| - 1] < size ||
              (c < |p.classes| && forall s | 0 <= s < |p.slabs| :: !CouldServe(p, c, s))
  {
    if c < |p.classes| {
      assert size <= p.classes[|p.classes| - 1];
      InvGivesLists(p, c);
      var partial, free := p.lists[PartialList(c)], p.lists[FreeList];
      if partial != [] {
        assert partial[0] in p.lists[PartialList(c)];
        assert CouldServe(p, c, partial[0]);
      } else if free != [] {
        assert free[0] in p.lists[FreeList];
        InvOneList(p, free[0]);
        assert CouldServe(p, c, free[0]);
      } else {
        forall s | 0 <= s < |p.slabs|
          ensures !CouldServe(p, c, s) {
          assert SlabOk(p, p.slabs[s]);
          var id := Homes(p)[s];
          assert s in p.lists[id];
        }
      }
    }
  }

  // ----- freeing everything -----------------------------------------------------------------

  function Releases(order: seq<nat>): (ops: seq<Op>)
    ensures |ops| == |order| && forall i | 0 <= i < |order| :: ops[i] == Release(order[i])
  {
    seq(|order|, i requires 0 <= i < |order| => Release(order[i]))
  }

  lemma RunFirst(st: Client, op: Op, rest: seq<Op>)
    requires ClientInv(st) && Allowed(st, op) && LegalRun(Step(st, op), rest)
    ensures LegalRun(st, [op] + rest) && Run(st, [op] + rest) == Run(Step(st, op), rest)
  {
    hide ClientInv, Step;
    assert ([op] + rest)[1..] == rest;
  }

  lemma HeldAfter(st: Client, next: Client, order: seq<nat>)
    requires NoDuplicates(order) && order != [] && forall a :: a in order <==> a in st.live
    requires next.live == st.live - {order[0]}
    ensures NoDuplicates(order[1..]) && forall b :: b in order[1..] <==> b in next.live
  {
    assert order == [order[0]] + order[1..];
  }

  lemma {:induction false} ReleasingAll(st: Client, order: seq<nat>)
    requires ClientInv(st) && NoDuplicates(order)
    requires forall a :: a in order <==> a in st.live
    ensures LegalRun(st, Releases(order)) && Run(st, Releases(order)).live == map[]
    decreases |order|
  {
    hide ClientInv, Step, NoDuplicates;
    if order == [] {
      assert st.live == map[];
    } else {
      var a, rest := order[0], order[1..];
      var next := Step(st, Release(a));
      HeldAfter(st, next, order);
      ReleasingAll(next, rest);
      assert Releases(order) == [Release(a)] + Releases(rest);
      RunFirst(st, Release(a), Releases(rest));
    }
  }

  /** Freeing all live chunks, in any order, empties every slab, puts all of them on the free list
      and brings the memory counter to zero; every class can then be served again. */
  lemma DrainFreesEverything(st: Client, order: seq<nat>, size: nat)
    requires ClientInv(st) && NoDuplicates(order)
    requires forall a :: a in order <==> a in st.live
    ensures LegalRun(st, Releases(order))
    ensures var p := Run(st, Releases(order)).pool;
            && p.memUsed == 0
            && (forall s | 0 <= s < |p.slabs| :: p.slabs[s].used == {} && s in p.lists[FreeList])
            && (|p.slabs| > 0 && size <= p.classes[|p.classes| - 1] ==> Malloc(p, size).1.Some?)
  {
    hide Run, LegalRun, NoDuplicates, Inv, IsLive, Malloc;
    ReleasingAll(st, order);
    var end := Run(st, Releases(order));
    NothingLive(end);
    EmptyPool(end.pool, size);
  }

  lemma NothingLive(st: Client)
    requires ClientInv(st) && st.live == map[]
    ensures forall a: nat :: !IsLive(st.pool, a)
  {
    hide Inv, IsLive;
    assert forall a: nat :: a in st.live <==> IsLive(st.pool, a);
  }

  lemma EmptyPool(p: Pool, size: nat)
    requires Inv(p) && forall a: nat :: !IsLive(p, a)
    ensures FreeList in p.lists && 0 < |p.classes| && p.memUsed == 0
    ensures forall s | 0 <= s < |p.slabs| :: p.slabs[s].used == {} && s in p.lists[FreeList]
    ensures |p.slabs| > 0 && size <= p.classes[|p.classes| - 1] ==> Malloc(p, size).1.Some?
  {
    hide Malloc, IsLive, SlabOk;
    forall s | 0 <= s < |p.slabs|
      ensures p.slabs[s].used == {} && p.slabs[s].nused == 0 && s in p.lists[FreeList] {
      NothingLiveMeansEmpty(p, s);
      assert Homes(p)[s] == FreeList;
    }
    NoBytes(p, p.slabs);
    if |p.slabs| > 0 && size <= p.classes[|p.classes| - 1] {
      var c := CacheFor(p.classes, size);
      MallocNullExactly(p, size, c);
      assert CouldServe(p, c, 0);
    }
  }

  lemma NothingLiveMeansEmpty(p: Pool, s: nat)
    requires Inv(p) && s < |p.slabs|
    requires forall a: nat :: !IsLive(p, a)
    ensures p.slabs[s].used == {} && p.slabs[s].nused == 0
  {
    var sl := p.slabs[s];
    assert SlabOk(p, sl);
    if sl.used != {} {
      var k :| k in sl.used;
      var size := p.classes[sl.cache];
      AddressDecodes(s, size, k);
      assert IsLive(p, Address(s, size, k));
    }
  }
}

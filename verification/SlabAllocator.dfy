// The slab allocator proper: scmalloc and scfree over control blocks, intrusive lists and
// bitmaps, each tied to the state machine of SlabPool (src/slab.c:328-513).
module SlabAllocator {
  import opened Arithmetic
  import opened Bits
  import opened Common
  import opened SlabPool
  import opened SlabLists
  import opened SizeClasses
  import SlabOffsets
  import SlabRuns

  const HEADER: nat := 8                 // sizeof(uint64_t), kept in front of every malloci block

  /** The sizes of the C structures, which depend on the platform. */
  datatype StructSizes = StructSizes(manager: nat, cache: nat, ctl: nat) {
    function Metadata(): nat {
      manager + HEADER + cache * CACHE_COUNT + HEADER
    }

    /** The class table fits in the smallest limit, 1 MB. */
    predicate Fits() {
      Metadata() + 2 * HEADER <= 0x10_0000
    }
  }

  /** Which of the four allocations of init_cache_manager the system grants. */
  datatype Mallocs = Mallocs(manager: bool, caches: bool, ctls: bool, slabs: bool) {
    predicate All() {
      manager && caches && ctls && slabs
    }
  }

  /** The quotient, stored in an unsigned int. */
  function SlabCtlCount(z: StructSizes, memLimit: nat): nat
    requires z.Fits() && 0x10_0000 <= memLimit
  {
    ((memLimit - z.Metadata() - 2 * HEADER) / (SLAB_SIZE + z.ctl)) % U32
  }

  /** k slabs with their control blocks fit in the limit, beside the manager, the classes and the headers
      of the four allocations. */
  predicate SlabsFitIn(z: StructSizes, memLimit: nat, k: nat) {
    z.manager + z.cache * CACHE_COUNT + 4 * HEADER + k * (SLAB_SIZE + z.ctl) <= memLimit
  }

  ghost predicate MostThatFit(z: StructSizes, memLimit: nat, q: nat) {
    forall k: nat :: SlabsFitIn(z, memLimit, k) <==> k <= q
  }

  /** The number of slabs is the most that fit in the limit, as long as an unsigned int holds it; else
      its low 32 bits. */
  lemma CountIsMost(z: StructSizes, memLimit: nat) returns (q: nat)
    requires z.Fits() && 0x10_0000 <= memLimit
    ensures MostThatFit(z, memLimit, q) && SlabCtlCount(z, memLimit) == q % U32
    ensures memLimit < U32 * SLAB_SIZE ==> q < U32
  {
    var d, room := SLAB_SIZE + z.ctl, memLimit - z.Metadata() - 2 * HEADER;
    q := room / d;
    DivMod(room, d);
    forall k: nat
      ensures SlabsFitIn(z, memLimit, k) <==> k <= q {
      if k <= q {
        MulMonotone(k, q, d);
      } else {
        MulMonotone(q + 1, k, d);
        MulSucc(q, d);
      }
    }
    if memLimit < U32 * SLAB_SIZE && q >= U32 {
      MulAbove(q, d);
    }
  }

  lemma MulAbove(q: nat, d: nat)
    requires d >= SLAB_SIZE && q >= U32
    ensures q * d >= U32 * SLAB_SIZE
  {
    MulMonotone(U32, q, d);
    assert U32 * d >= U32 * SLAB_SIZE;
  }

  /** The control blocks, slabs and their headers fit in the limit. */
  lemma SlabsFit(z: StructSizes, memLimit: nat)
    requires z.Fits() && 0x10_0000 <= memLimit
    ensures var n := SlabCtlCount(z, memLimit);
            z.Metadata() + z.ctl * n + HEADER + SLAB_SIZE * n + HEADER <= memLimit
  {
    var d := SLAB_SIZE + z.ctl;
    var q := (memLimit - z.Metadata() - 2 * HEADER) / d;
    var n := SlabCtlCount(z, memLimit);
    DivMod(memLimit - z.Metadata() - 2 * HEADER, d);
    DivMod(q, U32);
    MulMonotone(n, q, d);
    assert n * d == z.ctl * n + SLAB_SIZE * n;
  }

  ghost predicate FreshBlock(t: SlabCtl, i: nat)
    reads t`nused, t`cache, t.slots, t.slots.words
  {
    t.nindex == i && t.nused == 0 && t.cache == null && t.slots.Valid() && t.slots.used == {}
  }

  method NewBlocks(count: nat) returns (blocks: seq<SlabCtl>)
    ensures |blocks| == count && Distinct(blocks)
    ensures forall i | 0 <= i < count ::
              FreshBlock(blocks[i], i) && fresh(blocks[i]) && fresh(blocks[i].slots) && fresh(blocks[i].slots.words)
    ensures forall i, j | 0 <= i < j < count ::
              blocks[i].slots != blocks[j].slots && blocks[i].slots.words != blocks[j].slots.words
  {
    blocks := [];
    var i := 0;
    while i < count
      invariant 0 <= i <= count && |blocks| == i && Distinct(blocks)
      invariant forall k | 0 <= k < i ::
                  FreshBlock(blocks[k], k) && fresh(blocks[k]) && fresh(blocks[k].slots) && fresh(blocks[k].slots.words)
      invariant forall k, j | 0 <= k < j < i ::
                  blocks[k].slots != blocks[j].slots && blocks[k].slots.words != blocks[j].slots.words
    {
      var t := new SlabCtl(i);
      blocks := blocks + [t];
      i := i + 1;
    }
  }

  class CacheManager {
    const caches: seq<Cache>
    const slabCtls: seq<SlabCtl>
    const slabsFree: SlabList
    const slabs: nat                     // the address of the slab region
    const memMallocd: nat
    const memLimit: nat
    var memUsed: nat
    ghost var pool: Pool
    ghost const lists: set<SlabList>     // all lists, all control blocks, all bitmaps
    ghost const ctls: set<SlabCtl>
    ghost const bitmaps: set<BitSet>
    ghost const words: set<array<bv64>>

    /** What never changes after initialization. */
    ghost predicate Layout() {
      && 0 < |caches| <= MAX_CLASSES
      && slabsFree.id == FreeList
      && (forall c | 0 <= c < |caches| ::
            && caches[c].index == c
            && caches[c].chunkSize >= MIN_SLAB_CHUNK_SIZE
            && caches[c].chunkCountPerSlab == ChunkCount(caches[c].chunkSize)
            && caches[c].slabsPartial.id == PartialList(c)
            && caches[c].slabsFull.id == FullList(c))
      && (forall i | 0 <= i < |slabCtls| :: slabCtls[i].nindex == i)
      && (forall i, j | 0 <= i < j < |slabCtls| ::
            slabCtls[i].slots != slabCtls[j].slots && slabCtls[i].slots.words != slabCtls[j].slots.words)
      && slabsFree in lists
      && (forall c | c in caches :: c.slabsPartial in lists && c.slabsFull in lists)
      && (forall t | t in ctls :: t in slabCtls) && (forall t | t in slabCtls :: t in ctls)
      && (forall t | t in slabCtls :: t.slots in bitmaps && t.slots.words in words)
      && |slabCtls| < 4096
      && |slabCtls| * SLAB_SIZE <= memMallocd <= memLimit
    }

    ghost function ListOf(id: ListId): (l: SlabList)
      requires Layout()
      ensures IdOk(|caches|, id) ==> l.id == id && l in lists
    {
      match id
      case FreeList => slabsFree
      case PartialList(c) => if c < |caches| then caches[c].slabsPartial else slabsFree
      case FullList(c) => if c < |caches| then caches[c].slabsFull else slabsFree
    }

    /** The nodes of a list are the control blocks of the slab numbers in `q`. */
    ghost predicate NodesAre(nodes: seq<SlabCtl>, q: seq<nat>) {
      && |nodes| == |q|
      && forall k | 0 <= k < |q| :: q[k] < |slabCtls| && nodes[k] == slabCtls[q[k]]
    }

    ghost predicate ListRep(id: ListId, q: seq<nat>)
      requires Layout()
      reads lists, ctls`next, ctls`prev, ctls`owner
    {
      IdOk(|caches|, id) && NodesAre(ListOf(id).nodes, q) && ListOf(id).Valid()
    }

    /** The lists represent the sequences of slab numbers in `m`. */
    ghost predicate ListsRep(m: map<ListId, seq<nat>>)
      requires Layout()
      reads lists, ctls`next, ctls`prev, ctls`owner
    {
      forall id | id in m :: ListRep(id, m[id])
    }

    ghost predicate CtlRep(t: SlabCtl, sl: Slab)
      reads t`nused, t`cache, t.slots, t.slots.words
    {
      && t.nused == sl.nused
      && t.slots.Valid() && t.slots.used == sl.used
      && t.cache == (if 0 <= sl.cache < |caches| then caches[sl.cache] else null)
    }

    /** The control blocks and bitmaps represent the slab states in `q`. */
    ghost predicate CtlsRep(q: seq<Slab>)
      requires Layout()
      reads ctls`nused, ctls`cache, bitmaps, words
    {
      |q| == |slabCtls| && forall i | 0 <= i < |q| :: CtlRep(slabCtls[i], q[i])
    }

    ghost predicate ClassesAre(classes: seq<nat>)
      requires Layout()
    {
      |classes| == |caches| && forall c | 0 <= c < |caches| :: classes[c] == caches[c].chunkSize
    }

    /** The manager represents `pool`. */
    ghost predicate Rep()
      reads this, lists, ctls, bitmaps, words
    {
      && Layout()
      && ClassesAre(pool.classes)
      && |pool.slabs| == |slabCtls| && CtlsRep(pool.slabs)
      && ListsRep(pool.lists)
      && memUsed == pool.memUsed
    }

    // ----- init_cache_manager -----------------------------------------------------------------

    constructor Assemble(caches: seq<Cache>, blocks: seq<SlabCtl>, free: SlabList, base: nat, mallocd: nat, limit: nat)
      requires |caches| == CACHE_COUNT && 0 < |blocks|
      requires forall c | 0 <= c < CACHE_COUNT :: EmptyClass(caches[c], c)
      requires forall i | 0 <= i < |blocks| :: FreshBlock(blocks[i], i)
      requires forall i, j | 0 <= i < j < |blocks| ::
                 blocks[i].slots != blocks[j].slots && blocks[i].slots.words != blocks[j].slots.words
      requires free.id == FreeList && free.Valid() && free.nodes == blocks
      requires |blocks| < 4096 ==> |blocks| * SLAB_SIZE <= mallocd <= limit
      ensures |blocks| < 4096 ==> Valid()
      ensures pool == SlabRuns.InitPool(Table(), |blocks|) && slabCtls == blocks && slabs == base
      ensures memMallocd == mallocd && memLimit == limit && memUsed == 0
      ensures lists == {free} + (set c | c in caches :: c.slabsPartial) + (set c | c in caches :: c.slabsFull)
      ensures ctls == set t | t in blocks
      ensures bitmaps == (set t | t in blocks :: t.slots) && words == (set t | t in blocks :: t.slots.words)
    {
      hide FreshBlock, EmptyClass, Layout, SlabList.Valid, SlabRuns.InitPool, SlabRuns.ClientInv, Inv, ListsRep;
      hide CtlsRep;
      this.caches, slabCtls, slabsFree, slabs := caches, blocks, free, base;
      memMallocd, memLimit, memUsed, pool := mallocd, limit, 0, SlabRuns.InitPool(Table(), |blocks|);
      lists := {free} + (set c | c in caches :: c.slabsPartial) + (set c | c in caches :: c.slabsFull);
      ctls := set t | t in blocks;
      bitmaps := set t | t in blocks :: t.slots;
      words := set t | t in blocks :: t.slots.words;
      new;
      if |blocks| < 4096 {
        InitPoolInv(|blocks|);
        AssembledLayout();
        AssembledLists();
      }
    }

    lemma AssembledLayout()
      requires |caches| == CACHE_COUNT && 0 < |slabCtls| < 4096
      requires forall c | 0 <= c < CACHE_COUNT :: EmptyClass(caches[c], c)
      requires forall i | 0 <= i < |slabCtls| :: FreshBlock(slabCtls[i], i)
      requires forall i, j | 0 <= i < j < |slabCtls| ::
                 slabCtls[i].slots != slabCtls[j].slots && slabCtls[i].slots.words != slabCtls[j].slots.words
      requires slabsFree.id == FreeList && |slabCtls| * SLAB_SIZE <= memMallocd <= memLimit
      requires lists == {slabsFree} + (set c | c in caches :: c.slabsPartial) + (set c | c in caches :: c.slabsFull)
      requires ctls == set t | t in slabCtls
      requires bitmaps == (set t | t in slabCtls :: t.slots) && words == (set t | t in slabCtls :: t.slots.words)
      requires pool == SlabRuns.InitPool(Table(), |slabCtls|)
      ensures Layout() && ClassesAre(pool.classes) && CtlsRep(pool.slabs)
      ensures |pool.slabs| == |slabCtls| && pool.memUsed == 0
    {
      forall c | 0 <= c < |caches|
        ensures caches[c].chunkSize >= MIN_SLAB_CHUNK_SIZE {
        ClassSizeGrows(c);
      }
    }

    static lemma InitPoolInv(n: nat)
      ensures Inv(SlabRuns.InitPool(Table(), n))
    {
      TableOk();
      SlabRuns.InitInv(Table(), n);
    }

    lemma AssembledLists()
      requires Layout() && pool == SlabRuns.InitPool(Table(), |slabCtls|) && |caches| == CACHE_COUNT
      requires slabsFree.Valid() && slabsFree.nodes == slabCtls
      requires forall c | 0 <= c < CACHE_COUNT :: EmptyClass(caches[c], c)
      ensures ListsRep(pool.lists)
    {
    }

    /** How many slabs the remaining memory holds, as an unsigned int. */
    static method CountSlabs(z: StructSizes, memLimit: nat, mallocd: nat) returns (count: nat)
      requires z.Fits() && 0x10_0000 <= memLimit && mallocd == z.Metadata()
      ensures count == SlabCtlCount(z, memLimit) < U32
      ensures exists q: nat :: MostThatFit(z, memLimit, q) && count == q % U32
      ensures memLimit < U32 * SLAB_SIZE ==> MostThatFit(z, memLimit, count)
      ensures mallocd + z.ctl * count + HEADER + SLAB_SIZE * count + HEADER <= memLimit
    {
      count := ((memLimit - mallocd - 2 * HEADER) / (SLAB_SIZE + z.ctl)) % U32;
      SlabsFit(z, memLimit);
      ghost var q := CountIsMost(z, memLimit);
      assert MostThatFit(z, memLimit, q);
    }

    /** init_cache_manager: null for the source's failure, which is having at most one slab or no
        memory from the system. `region`
        is the size asked for the slabs, in 32-bit arithmetic: below 4096 slabs it is right and the
        manager represents the initial pool, from there on it is too small for the slabs. */
    static method InitCacheManager(z: StructSizes, memoryLimit: nat, base: nat, system: Mallocs)
      returns (cm: CacheManager?, ghost region: nat)
      requires 1 <= memoryLimit && z.Fits()
      ensures var n := SlabCtlCount(z, memoryLimit * 0x10_0000);
              && (exists q: nat :: MostThatFit(z, memoryLimit * 0x10_0000, q) && n == q % U32)
              && (cm == null <==> n <= 1 || !system.All())
              && (cm != null ==>
                    && |cm.slabCtls| == n && (region == n * SLAB_SIZE <==> n < 4096)
                    && (n >= 4096 ==> region < n * SLAB_SIZE)
                    && cm.pool == SlabRuns.InitPool(Table(), n) && (n < 4096 ==> cm.Valid()))
      ensures memoryLimit < U32 ==>
                && (cm == null <==> !SlabsFitIn(z, memoryLimit * 0x10_0000, 2) || !system.All())
                && (cm != null ==> MostThatFit(z, memoryLimit * 0x10_0000, |cm.slabCtls|))
      ensures cm != null ==>
                && cm.memUsed == 0
                && cm.memMallocd == z.manager + z.cache * CACHE_COUNT + z.ctl * |cm.slabCtls| + region + 4 * HEADER
                && fresh(cm) && fresh(cm.lists) && fresh(cm.ctls) && fresh(cm.bitmaps) && fresh(cm.words)
                && cm.slabs == base && cm.memMallocd <= cm.memLimit == memoryLimit * 0x10_0000
    {
      hide FreshBlock, EmptyClass, CacheManager.Layout, SlabList.Valid, SlabRuns.InitPool, CacheManager.Valid;
      hide SlabCtlCount, Distinct, MostThatFit, SlabsFitIn;
      var memLimit := memoryLimit * 1024 * 1024;
      ghost var most := CountIsMost(z, memLimit);
      region := 0;
      if !system.manager {
        return null, region;
      }
      var mallocd := z.manager + HEADER;
      if !system.caches {
        return null, region;
      }
      mallocd := mallocd + (z.cache * CACHE_COUNT + HEADER);
      var caches := BuildClasses();
      var count := CountSlabs(z, memLimit, mallocd);
      TwoFit(z, memLimit, count);
      if count <= 1 || !system.ctls {
        return null, region;
      }
      if !system.slabs {
        return null, region;
      }
      cm, region := LayOut(z, memLimit, base, count, mallocd, caches);
    }

    /** The control blocks, linked into the free list, and the slab region. */
    static method LayOut(z: StructSizes, memLimit: nat, base: nat, count: nat, metadata: nat, caches: seq<Cache>)
      returns (cm: CacheManager, ghost region: nat)
      requires |caches| == CACHE_COUNT && forall c | 0 <= c < CACHE_COUNT :: EmptyClass(caches[c], c)
      requires metadata + z.ctl * count + HEADER + SLAB_SIZE * count + HEADER <= memLimit && 1 < count
      ensures |cm.slabCtls| == count && (region == count * SLAB_SIZE <==> count < 4096)
      ensures count >= 4096 ==> region < count * SLAB_SIZE
      ensures cm.pool == SlabRuns.InitPool(Table(), count) && (count < 4096 ==> cm.Valid()) && cm.memUsed == 0
      ensures cm.memMallocd == metadata + z.ctl * count + region + 2 * HEADER <= memLimit == cm.memLimit
      ensures cm.slabs == base && fresh(cm) && fresh(cm.ctls) && fresh(cm.bitmaps) && fresh(cm.words)
      ensures forall l | l in cm.lists ::
                fresh(l) || exists c | 0 <= c < CACHE_COUNT :: l == caches[c].slabsPartial || l == caches[c].slabsFull
    {
      hide FreshBlock, EmptyClass, CacheManager.Layout, SlabList.Valid, SlabRuns.InitPool, CacheManager.Valid;
      hide Distinct;
      var mallocd := metadata + (z.ctl * count + HEADER);
      var blocks := NewBlocks(count);
      SlabOffsets.RegionFits32(count);
      region := (SLAB_SIZE * count) % U32;
      mallocd := mallocd + ((SLAB_SIZE * count) % U32 + HEADER);
      var free := new SlabList.Chain(FreeList, blocks);
      cm := new CacheManager.Assemble(caches, blocks, free, base, mallocd, memLimit);
    }

    static lemma TwoFit(z: StructSizes, memLimit: nat, count: nat)
      ensures MostThatFit(z, memLimit, count) ==> (SlabsFitIn(z, memLimit, 2) <==> 2 <= count)
    {
    }

    // ----- moving a slab between lists ------------------------------------------------------

    lemma ListFacts(a: ListId, b: ListId, m: map<ListId, seq<nat>>)
      requires Layout() && ListsRep(m) && a in m && b in m && a != b
      ensures var src, dst := ListOf(a), ListOf(b);
              && src != dst && src in lists && dst in lists && src.Valid() && dst.Valid()
              && src.NodeSet() <= ctls && src.HeadSet() <= src.NodeSet() && dst.HeadSet() <= ctls
              && NodesAre(src.nodes, m[a]) && NodesAre(dst.nodes, m[b])
    {
    }

    ghost predicate OwnedBy(t: SlabCtl, a: ListId, b: ListId)
      requires Layout()
      reads t
    {
      t.owner == ListOf(a) || t.owner == ListOf(b)
    }

    twostate lemma OldOwners(new m: map<ListId, seq<nat>>, new a: ListId, new b: ListId)
      requires Layout() && old(ListsRep(m)) && a != b && a in m && b in m
      ensures forall t | t in old(ListOf(a).NodeSet()) + old(ListOf(b).HeadSet()) :: old(OwnedBy(t, a, b))
    {
      assert old(ListRep(a, m[a])) && old(ListRep(b, m[b]));
    }

    /** When the k-th block of list a has moved to the front of list b, and no other list and no
        block of another list was touched, the lists represent the moved sequences. */
    twostate lemma MoveKeepsLists(new m: map<ListId, seq<nat>>, new a: ListId, new b: ListId, new k: nat)
      requires Layout() && old(ListsRep(m)) && a != b && a in m && b in m
      requires k < |m[a]| && NoDuplicates(m[a]) && m[a][k] < |slabCtls|
      requires ListOf(a).Valid() && ListOf(a).nodes == old(ListOf(a).nodes)[..k] + old(ListOf(a).nodes)[k + 1..]
      requires ListOf(b).Valid() && ListOf(b).nodes == [slabCtls[m[a][k]]] + old(ListOf(b).nodes)
      requires forall l | l in lists && l != ListOf(a) && l != ListOf(b) :: SameFields(l)
      requires forall t | t in ctls - old(ListOf(a).NodeSet()) - old(ListOf(b).HeadSet()) :: SameLinks(t)
      ensures ListsRep(Moved(m, a, b, m[a][k]))
    {
      hide SlabList.Valid, ListRep;
      OldOwners(m, a, b);
      var m' := Moved(m, a, b, m[a][k]);
      forall id | id in m'
        ensures ListRep(id, m'[id]) {
        MovedListKept(m, id, a, b, k);
      }
    }

    twostate lemma MovedListKept(new m: map<ListId, seq<nat>>, new id: ListId, new a: ListId, new b: ListId, new k: nat)
      requires Layout() && old(ListsRep(m)) && a != b && a in m && b in m && id in m
      requires k < |m[a]| && NoDuplicates(m[a]) && m[a][k] < |slabCtls|
      requires ListOf(a).Valid() && ListOf(a).nodes == old(ListOf(a).nodes)[..k] + old(ListOf(a).nodes)[k + 1..]
      requires ListOf(b).Valid() && ListOf(b).nodes == [slabCtls[m[a][k]]] + old(ListOf(b).nodes)
      requires forall l | l in lists && l != ListOf(a) && l != ListOf(b) :: SameFields(l)
      requires forall t | t in ctls && !old(OwnedBy(t, a, b)) :: SameLinks(t)
      ensures ListRep(id, Moved(m, a, b, m[a][k])[id])
    {
      hide SlabList.Valid, NoDuplicates, NodesAre, Removed;
      assert old(ListRep(id, m[id])) && old(ListRep(a, m[a])) && old(ListRep(b, m[b]));
      if id == a {
        NodesRemoved(old(ListOf(a).nodes), m[a], k);
      } else if id == b {
        NodesPushed(old(ListOf(b).nodes), m[b], m[a][k]);
      } else {
        UntouchedList(id, m[id], a, b);
      }
    }

    lemma NodesRemoved(nodes: seq<SlabCtl>, q: seq<nat>, k: nat)
      requires NodesAre(nodes, q) && k < |q| && NoDuplicates(q)
      ensures NodesAre(nodes[..k] + nodes[k + 1..], Removed(q, q[k]))
    {
      RemovedAt(q, k);
    }

    lemma NodesPushed(nodes: seq<SlabCtl>, q: seq<nat>, s: nat)
      requires NodesAre(nodes, q) && s < |slabCtls|
      ensures NodesAre([slabCtls[s]] + nodes, [s] + q)
    {
    }

    twostate lemma UntouchedList(new id: ListId, new q: seq<nat>, new a: ListId, new b: ListId)
      requires Layout() && old(ListRep(id, q)) && IdOk(|caches|, a) && IdOk(|caches|, b) && id != a && id != b
      requires SameFields(ListOf(id))
      requires forall t | t in ctls && !old(OwnedBy(t, a, b)) :: SameLinks(t)
      ensures ListRep(id, q)
    {
      assert forall n | n in ListOf(id).nodes :: n in ctls;
      ListOf(id).KeepsValid();
    }

    /** pop_and_push between two of the manager's lists. */
    method MoveHead(src: SlabList, dst: SlabList, ghost a: ListId, ghost b: ListId) returns (item: SlabCtl?)
      requires Layout() && ListsRep(pool.lists)
      requires a != b && a in pool.lists && b in pool.lists && src == ListOf(a) && dst == ListOf(b)
      requires NoDuplicates(pool.lists[a])
      modifies this`pool, lists, ctls`next, ctls`prev, ctls`owner
      ensures ListsRep(pool.lists)
      ensures old(pool.lists[a]) == [] ==> item == null && pool == old(pool)
      ensures old(pool.lists[a]) != [] ==>
                var s := old(pool.lists[a])[0];
                s < |slabCtls| && item == slabCtls[s] && pool == old(pool).(lists := Moved(old(pool.lists), a, b, s))
    {
      hide SlabList.Valid, SlabList.NodeSet, SlabList.HeadSet, ListsRep, Moved, NoDuplicates, Layout, ListOf;
      ListFacts(a, b, pool.lists);
      item := PopAndPush(src, dst, ctls);
      if item != null {
        MoveKeepsLists(old(pool.lists), a, b, 0);
        pool := pool.(lists := Moved(pool.lists, a, b, pool.lists[a][0]));
      } else {
        NothingMoved(old(pool.lists));
      }
    }

    lemma OneBlockPerSlab(nodes: seq<SlabCtl>, q: seq<nat>, s: nat)
      requires Layout() && NodesAre(nodes, q) && s < |slabCtls|
      ensures slabCtls[s] in ctls && (slabCtls[s] in nodes <==> s in q)
      ensures forall k | 0 <= k < |q| && nodes[k] == slabCtls[s] :: q[k] == s
    {
    }

    twostate lemma NothingMoved(new m: map<ListId, seq<nat>>)
      requires Layout() && old(ListsRep(m))
      requires forall l | l in lists :: SameFields(l)
      requires forall t | t in ctls :: SameLinks(t)
      ensures ListsRep(m)
    {
      hide SlabList.Valid, ListRep;
      forall id | id in m
        ensures ListRep(id, m[id]) {
        UnmovedList(id, m[id]);
      }
    }

    twostate lemma UnmovedList(new id: ListId, new q: seq<nat>)
      requires Layout() && old(ListRep(id, q)) && SameFields(ListOf(id))
      requires forall t | t in ctls :: SameLinks(t)
      ensures ListRep(id, q)
    {
      assert forall n | n in ListOf(id).nodes :: n in ctls;
      ListOf(id).KeepsValid();
    }

    /** rem_and_push between two of the manager's lists. */
    method MoveItem(src: SlabList, dst: SlabList, item: SlabCtl, ghost a: ListId, ghost b: ListId, ghost s: nat)
      returns (found: bool)
      requires Layout() && ListsRep(pool.lists)
      requires a != b && a in pool.lists && b in pool.lists && src == ListOf(a) && dst == ListOf(b)
      requires NoDuplicates(pool.lists[a]) && s < |slabCtls| && item == slabCtls[s]
      modifies this`pool, lists, ctls`next, ctls`prev, ctls`owner
      ensures found == (s in old(pool.lists[a]))
      ensures pool == if found then old(pool).(lists := Moved(old(pool.lists), a, b, s)) else old(pool)
      ensures ListsRep(pool.lists)
    {
      hide SlabList.Valid, SlabList.NodeSet, SlabList.HeadSet, ListsRep, Moved, NoDuplicates, Layout, ListOf;
      ListFacts(a, b, pool.lists);
      OneBlockPerSlab(src.nodes, pool.lists[a], s);
      ghost var k;
      found, k := RemAndPush(src, dst, item, ctls);
      if found {
        MoveKeepsLists(old(pool.lists), a, b, k);
        pool := pool.(lists := Moved(pool.lists, a, b, s));
      } else {
        NothingMoved(old(pool.lists));
      }
    }

    // ----- scmalloc -------------------------------------------------------------------------

    lemma ClassLists(c: nat)
      requires Layout() && c < |caches|
      ensures ListOf(FreeList) == slabsFree && ListOf(PartialList(c)) == caches[c].slabsPartial
      ensures ListOf(FullList(c)) == caches[c].slabsFull
    {
    }

    /** The slab to serve class c from: the head of its partial list, else a free slab. */
    method TakeSlabFor(c: nat) returns (cslab: SlabCtl?)
      requires Rep() && Inv(pool) && c < |caches|
      modifies this`pool, lists, ctls`next, ctls`prev, ctls`owner, ctls`cache
      ensures Rep()
      ensures match TakeSlab(old(pool), c)
              case None => cslab == null && pool == old(pool)
              case Some((q, s)) => pool == q && s < |slabCtls| && cslab == slabCtls[s]
    {
      hide Inv, SlabList.Valid, ListsRep, CtlsRep, Moved, NoDuplicates, Layout, NodesAre;
      InvGivesLists(pool, c);
      ClassLists(c);
      ListFacts(FreeList, PartialList(c), pool.lists);
      var ccache := caches[c];
      cslab := ccache.slabsPartial.Peek();
      if cslab == null {
        cslab := MoveHead(slabsFree, ccache.slabsPartial, FreeList, PartialList(c));
        if cslab == null {
          return null;
        }
        ghost var s := old(pool.lists[FreeList])[0];
        AdoptSlab(cslab, s, c);
      }
    }

    /** Records class c as the owner of slab s. */
    method AdoptSlab(cslab: SlabCtl, ghost s: nat, c: nat)
      requires Layout() && CtlsRep(pool.slabs) && c < |caches| && s < |slabCtls| && cslab == slabCtls[s]
      modifies this`pool, cslab`cache
      ensures CtlsRep(pool.slabs) && pool == old(pool).(slabs := old(pool.slabs)[s := old(pool.slabs)[s].(cache := c)])
    {
      cslab.cache := caches[c];
      pool := pool.(slabs := pool.slabs[s := pool.slabs[s].(cache := c)]);
      assert forall i | 0 <= i < |slabCtls| && i != s ::
          old(CtlRep(slabCtls[i], pool.slabs[i])) && slabCtls[i] != cslab;
    }

    /** Clears the first set bit of slab s and counts the slot. */
    method TakeBit(cslab: SlabCtl, ghost s: nat, ghost count: nat) returns (ffindex: nat)
      requires Layout() && CtlsRep(pool.slabs) && s < |slabCtls| && cslab == slabCtls[s]
      requires forall k | k in pool.slabs[s].used :: k < count
      requires pool.slabs[s].nused == |pool.slabs[s].used| < count <= BIT_COUNT
      modifies this`pool, cslab`nused, cslab.slots`used, cslab.slots.words
      ensures ffindex == LeastFree(old(pool.slabs[s].used), 0) < count
      ensures CtlsRep(pool.slabs) && cslab.nused == pool.slabs[s].nused
      ensures var sl := old(pool.slabs[s]);
              pool == old(pool).(slabs := old(pool.slabs)[s := sl.(nused := sl.nused + 1, used := sl.used + {ffindex})])
    {
      var slots := cslab.slots;
      assert CtlRep(cslab, pool.slabs[s]);
      LeastFreeBelow(slots.used, count);
      var ff := slots.FfSetBit();
      assert ff != -1;
      LeastFreeUnique(slots.used, ff);
      ffindex := ff;
      slots.ClearBit(ffindex);
      cslab.nused := cslab.nused + 1;
      pool := pool.(slabs := pool.slabs[s := pool.slabs[s].(nused := cslab.nused, used := slots.used)]);
      OtherCtlsKept(s);
    }

    /** Changing one block's counter and bitmap leaves the other blocks alone. */
    twostate lemma OtherCtlsKept(new s: nat)
      requires Layout() && old(CtlsRep(pool.slabs)) && s < |slabCtls| && |pool.slabs| == |slabCtls|
      requires CtlRep(slabCtls[s], pool.slabs[s])
      requires forall i | 0 <= i < |slabCtls| && i != s :: pool.slabs[i] == old(pool.slabs)[i]
      requires forall t | t in ctls && t != slabCtls[s] :: t.nused == old(t.nused) && t.cache == old(t.cache)
      requires forall b | b in bitmaps && b != slabCtls[s].slots :: b.used == old(b.used)
      requires forall w | w in words && w != slabCtls[s].slots.words :: forall i | 0 <= i < w.Length ::
                 w[i] == old(w[i])
      ensures CtlsRep(pool.slabs)
    {
      forall i | 0 <= i < |slabCtls| && i != s
        ensures CtlRep(slabCtls[i], pool.slabs[i]) {
        assert old(CtlRep(slabCtls[i], pool.slabs[i]));
        assert slabCtls[i] in slabCtls && slabCtls[i].slots.words != slabCtls[s].slots.words;
      }
    }

    /** Takes the least free slot of cslab and retires the slab to the full list when that was its
        last one. */
    method TakeSlotOf(c: nat, cslab: SlabCtl, ghost s: nat, ghost p0: Pool) returns (ffindex: nat)
      requires Rep() && TakeSlotReady(p0, pool, c, s) && cslab == slabCtls[s]
      requires pool.lists[PartialList(c)] != [] && pool.lists[PartialList(c)][0] == s
      modifies this`pool, lists, ctls`next, ctls`prev, ctls`owner, cslab`nused, cslab.slots`used, cslab.slots.words
      ensures Layout() && CtlsRep(pool.slabs) && ListsRep(pool.lists)
      ensures ffindex == LeastFree(old(pool.slabs[s].used), 0) < ChunkCount(caches[c].chunkSize)
      ensures pool == TakeSlot(old(pool), c, s).0.(memUsed := old(pool.memUsed))
    {
      hide Inv, SlabList.Valid, ListsRep, CtlsRep, Moved, NoDuplicates, TakeSlotReady, NodesAre;
      ReadyFacts(p0, pool, c, s);
      var ccache := caches[c];
      CacheOf(s);
      assert cslab.cache == ccache;
      ffindex := TakeBit(cslab, s, ccache.chunkCountPerSlab);
      if cslab.nused == ccache.chunkCountPerSlab {
        var _ := MoveHead(ccache.slabsPartial, ccache.slabsFull, PartialList(c), FullList(c));
      }
    }

    /** The second half of scmalloc: the slot, its address and the memory counter. */
    method HandOut(c: nat, cslab: SlabCtl, ghost s: nat, ghost p0: Pool) returns (result: nat)
      requires Rep() && TakeSlotReady(p0, pool, c, s) && cslab == slabCtls[s]
      requires pool.lists[PartialList(c)] != [] && pool.lists[PartialList(c)][0] == s
      modifies this`pool, this`memUsed, lists, ctls`next, ctls`prev, ctls`owner, cslab`nused, cslab.slots`used
      modifies cslab.slots.words
      ensures Rep() && pool == TakeSlot(old(pool), c, s).0 && result == slabs + TakeSlot(old(pool), c, s).1
    {
      hide Inv, SlabList.Valid, ListsRep, CtlsRep, Moved, NoDuplicates, TakeSlotReady, Layout;
      ReadyFacts(p0, pool, c, s);
      UsedWithinMallocd(p0, pool, c, s);
      var ccache := caches[c];
      var ffindex := TakeSlotOf(c, cslab, s, p0);
      result := AddressOf(s, cslab, ccache, ffindex);
      memUsed := memUsed + ccache.chunkSize;
      pool := pool.(memUsed := memUsed);
      assert memUsed <= memMallocd;
    }

    lemma CacheOf(s: nat)
      requires Layout() && CtlsRep(pool.slabs) && s < |slabCtls| && 0 <= pool.slabs[s].cache < |caches|
      ensures slabCtls[s].cache == caches[pool.slabs[s].cache]
    {
    }

    lemma ReadyFacts(p0: Pool, p: Pool, c: nat, s: nat)
      requires TakeSlotReady(p0, p, c, s) && Layout() && ClassesAre(p.classes)
      ensures c < |p.classes| == |caches| && p.classes[c] == caches[c].chunkSize && s < |p.slabs|
      ensures p.slabs[s].cache == c && 0 < p.classes[c] <= SLAB_SIZE
      ensures PartialList(c) in p.lists && FullList(c) in p.lists && NoDuplicates(p.lists[PartialList(c)])
      ensures forall k | k in p.slabs[s].used :: k < ChunkCount(p.classes[c])
      ensures p.slabs[s].nused == |p.slabs[s].used| < ChunkCount(p.classes[c]) <= BIT_COUNT
    {
    }

    lemma CountFitsBitmap(size: nat)
      requires MIN_SLAB_CHUNK_SIZE <= size
      ensures ChunkCount(size) <= BIT_COUNT
    {
    }

    /** The chunk's address, in the 32-bit arithmetic of the source. */
    method AddressOf(ghost s: nat, cslab: SlabCtl, ccache: Cache, ffindex: nat) returns (result: nat)
      requires Layout() && s < |slabCtls| && cslab == slabCtls[s]
      requires 0 < ccache.chunkSize <= SLAB_SIZE && ffindex < ChunkCount(ccache.chunkSize)
      ensures result == slabs + Address(s, ccache.chunkSize, ffindex)
    {
      SlabOffsets.RecoversBelow4096(|slabCtls|, s, ccache.chunkSize, ffindex);
      result := slabs + (cslab.nindex * SLAB_SIZE) % U32;
      result := result + (ccache.chunkSize * ffindex) % U32;
    }

    lemma UsedWithinMallocd(p0: Pool, p: Pool, c: nat, s: nat)
      requires Layout() && TakeSlotReady(p0, p, c, s) && |p.slabs| == |slabCtls|
      ensures p.memUsed + p.classes[c] <= memMallocd
    {
      var r := TakeSlot(p, c, s).0;
      TakeSlotSlabs(p0, p, c, s);
      TakeSlotBytes(p0, p, c, s);
      SlabRuns.BytesBounded(r, r.slabs);
    }

    ghost predicate Valid()
      reads this, lists, ctls, bitmaps, words
    {
      Rep() && Inv(pool)
    }

    lemma ClassFound(size: nat, c: nat)
      requires Layout() && ClassesAre(pool.classes) && ClassesOk(pool.classes)
      requires c < |caches| && size <= caches[c].chunkSize
      requires forall i | 0 <= i < |caches| && size <= caches[i].chunkSize :: caches[c].chunkSize <= caches[i].chunkSize
      ensures c == CacheFor(pool.classes, size)
    {
    }

    /** The part of scmalloc after the class is known. */
    method ServeClass(c: nat) returns (result: Option<nat>)
      requires Valid() && c < |caches|
      modifies this`pool, this`memUsed, lists, ctls, bitmaps, words
      ensures Rep()
      ensures pool == Serve(old(pool), c).0
      ensures result == match Serve(old(pool), c).1 case None => None case Some(a) => Some(slabs + a)
    {
      hide Inv, SlabList.Valid, ListsRep, CtlsRep, Moved, NoDuplicates, TakeSlotReady, TakeSlab, TakeSlot, Layout;
      hide ListOf;
      ghost var p0 := pool;
      ServedSlab(p0, c);
      var cslab := TakeSlabFor(c);
      if cslab == null {
        return None;
      }
      ghost var s := TakeSlab(p0, c).value.1;
      CacheIs(p0, pool, c, s);
      assert cslab.cache == caches[c];
      var r := HandOut(c, cslab, s, p0);
      result := Some(r);
    }

    lemma ServedSlab(p: Pool, c: nat)
      requires Inv(p) && c < |p.classes| && Rep() && pool == p
      ensures c < |caches| == |p.classes|
      ensures TakeSlab(p, c).Some? ==>
                var (q, s) := TakeSlab(p, c).value;
                && TakeSlotReady(p, q, c, s) && s < |q.slabs|
                && PartialList(c) in q.lists && q.lists[PartialList(c)] != [] && q.lists[PartialList(c)][0] == s
    {
      TakeSlabFacts(p, c);
      if TakeSlab(p, c).Some? {
        SlabTakenIsReady(p, c);
      }
    }

    lemma CacheIs(p0: Pool, p: Pool, c: nat, s: nat)
      requires Rep() && pool == p && TakeSlotReady(p0, p, c, s)
      ensures c < |caches| && s < |slabCtls| && slabCtls[s].cache == caches[c]
      ensures slabCtls[s] in ctls && slabCtls[s].slots in bitmaps && slabCtls[s].slots.words in words
    {
    }

    /** What scmalloc relies on when it looks for the class. */
    lemma ClassTable(size: nat)
      requires Valid()
      ensures 0 < |caches| <= MAX_CLASSES && Nondecreasing(caches) && Inv(pool)
      ensures size > caches[|caches| - 1].chunkSize ==> Malloc(pool, size) == (pool, None)
    {
      hide ListsRep, CtlsRep, ListsAgree, TotalBytes, Serve, SlabOk;
      InRangeSizeHasClass(pool.classes, size);
    }

    lemma ClassServes(size: nat, c: nat)
      requires Valid() && c < |caches| && size <= caches[c].chunkSize
      requires forall i | 0 <= i < |caches| && size <= caches[i].chunkSize :: caches[c].chunkSize <= caches[i].chunkSize
      ensures Malloc(pool, size) == Serve(pool, c)
    {
      hide ListsRep, CtlsRep, ListsAgree, TotalBytes, Serve, SlabOk;
      ClassFound(size, c);
    }

    /** scmalloc. None is the NULL result. */
    method Scmalloc(size: nat) returns (result: Option<nat>)
      requires Valid()
      modifies this`pool, this`memUsed, lists, ctls, bitmaps, words
      ensures Valid()
      ensures pool == Malloc(old(pool), size).0
      ensures result == match Malloc(old(pool), size).1 case None => None case Some(a) => Some(slabs + a)
    {
      hide Serve, Malloc, Inv, Rep, Nondecreasing;
      ClassTable(size);
      var largest := caches[|caches| - 1].chunkSize;
      MallocKeepsInv(pool, size);
      if size > largest {
        return None;
      }
      var ci, top := SizeToCache(Some(caches), |caches|, size);
      assert top <= INT_MAX;
      ClassServes(size, ci.value);
      result := ServeClass(ci.value);
    }

    // ----- scfree ---------------------------------------------------------------------------

    /** Sets the bit of a used slot and uncounts it. The bit is clear: it is no double free. */
    method GiveBit(cslab: SlabCtl, ghost s: nat, cidx: nat) returns (bit: bv64)
      requires Layout() && CtlsRep(pool.slabs) && s < |slabCtls| && cslab == slabCtls[s]
      requires cidx in pool.slabs[s].used && cidx < BIT_COUNT && 0 < pool.slabs[s].nused
      modifies this`pool, cslab`nused, cslab.slots`used, cslab.slots.words
      ensures bit == 0 && CtlsRep(pool.slabs) && cslab.nused == pool.slabs[s].nused
      ensures var sl := old(pool.slabs[s]);
              pool == old(pool).(slabs := old(pool.slabs)[s := sl.(nused := sl.nused - 1, used := sl.used - {cidx})])
    {
      var slots := cslab.slots;
      assert CtlRep(cslab, pool.slabs[s]);
      bit := slots.GetBit(cidx);
      if bit != 0 {
        assert false;
        return;
      }
      slots.SetBit(cidx);
      cslab.nused := cslab.nused - 1;
      pool := pool.(slabs := pool.slabs[s := pool.slabs[s].(nused := cslab.nused, used := slots.used)]);
      OtherCtlsKept(s);
    }

    /** Moves the slab according to its new count: drained slabs to the free list, from the partial
        or, for classes with one chunk per slab, the full list; slabs that were full to partial. */
    method Relist(cslab: SlabCtl, ccache: Cache, ghost s: nat, ghost c: nat, ghost p0: Pool)
      requires Layout() && ListsRep(pool.lists) && s < |slabCtls| && cslab == slabCtls[s]
      requires c < |caches| && ccache == caches[c] && |p0.classes| == |caches| && p0.classes[c] == ccache.chunkSize
      requires RelistReady(p0, pool.lists, c, s, cslab.nused)
      modifies this`pool, lists, ctls`next, ctls`prev, ctls`owner
      ensures ListsRep(pool.lists)
      ensures pool == old(pool).(lists := Relisted(old(pool.lists), c, s, cslab.nused, ChunkCount(ccache.chunkSize)))
    {
      hide SlabList.Valid, ListsRep, Moved, NoDuplicates;
      RelistFacts(p0, pool.lists, c, s, cslab.nused);
      if cslab.nused == 0 {
        var res := MoveItem(ccache.slabsPartial, slabsFree, cslab, PartialList(c), FreeList, s);
        if !res {
          res := MoveItem(ccache.slabsFull, slabsFree, cslab, FullList(c), FreeList, s);
        }
        assert res;
      } else if cslab.nused == ccache.chunkCountPerSlab - 1 {
        var res := MoveItem(ccache.slabsFull, ccache.slabsPartial, cslab, FullList(c), PartialList(c), s);
        assert res;
      }
    }

    /** The part of scfree after slab and slot are known. */
    method FreeSlot(cslab: SlabCtl, ccache: Cache, cidx: nat, ghost s: nat, ghost c: nat)
      requires Layout() && CtlsRep(pool.slabs) && ListsRep(pool.lists) && memUsed == pool.memUsed
      requires s < |slabCtls| == |pool.slabs| && cslab == slabCtls[s] && cidx in pool.slabs[s].used
      requires cidx < BIT_COUNT && 0 < pool.slabs[s].nused
      requires c < |caches| && ccache == caches[c] && |pool.classes| == |caches|
      requires pool.classes[c] == ccache.chunkSize <= memUsed
      requires RelistReady(pool, pool.lists, c, s, pool.slabs[s].nused - 1)
      modifies this`pool, this`memUsed, lists, ctls`next, ctls`prev, ctls`owner
      modifies cslab`nused, cslab.slots`used, cslab.slots.words
      ensures CtlsRep(pool.slabs) && ListsRep(pool.lists) && memUsed == pool.memUsed
      ensures FreeList in old(pool.lists) && PartialList(c) in old(pool.lists) && FullList(c) in old(pool.lists)
      ensures var sl := old(pool.slabs[s]);
              pool == old(pool).(slabs := old(pool.slabs)[s := sl.(nused := sl.nused - 1, used := sl.used - {cidx})],
                                 lists := Relisted(old(pool.lists), c, s, sl.nused - 1, ChunkCount(ccache.chunkSize)),
                                 memUsed := old(pool.memUsed) - ccache.chunkSize)
    {
      hide Inv, ListsRep, CtlsRep, Relisted, RelistReady, NoDuplicates, Layout;
      ghost var p0 := pool;
      RelistFacts(pool, pool.lists, c, s, pool.slabs[s].nused - 1);
      var bit := GiveBit(cslab, s, cidx);
      Relist(cslab, ccache, s, c, p0);
      memUsed := memUsed - ccache.chunkSize;
      pool := pool.(memUsed := memUsed);
    }

    /** scfree of a live pointer. Neither error branch is reachable. */
    method Scfree(ptr: nat)
      requires Valid() && slabs <= ptr && IsLive(pool, ptr - slabs)
      modifies this`pool, this`memUsed, lists, ctls, bitmaps, words
      ensures pool == FreedAt(old(pool), ptr - slabs)
      ensures Valid()
    {
      hide Inv, ListsRep, CtlsRep, Relisted, RelistReady, IsLive, NoDuplicates, FreedAt, Valid, Layout;
      ghost var p0, a := pool, ptr - slabs;
      RepFacts();
      FreeKeepsInv(p0, a);
      FreeFacts(p0, a);
      LiveCtl(a);
      ghost var s := a / SLAB_SIZE;
      ghost var c := p0.slabs[s].cache;
      FreedIs(p0, a, s, c);
      var pdiff := (ptr - slabs) % U32;
      if pdiff > (|slabCtls| * SLAB_SIZE) % U32 {
        assert false;
        return;
      }
      var sidx := pdiff / SLAB_SIZE;
      var cslab := slabCtls[sidx];
      var ccache := cslab.cache;
      var cidx := (pdiff % SLAB_SIZE) / ccache.chunkSize;
      FreeSlot(cslab, ccache, cidx, s, c);
      RepHolds();
    }

    lemma RepFacts()
      requires Valid()
      ensures Layout() && ClassesAre(pool.classes) && |pool.slabs| == |slabCtls| && CtlsRep(pool.slabs)
      ensures ListsRep(pool.lists)
      ensures memUsed == pool.memUsed && Inv(pool) && |pool.classes| == |caches|
      ensures forall i | 0 <= i < |caches| ::
                caches[i].chunkCountPerSlab == ChunkCount(caches[i].chunkSize) && caches[i].chunkSize > 0
    {
    }

    lemma RepHolds()
      requires Layout() && ClassesAre(pool.classes) && |pool.slabs| == |slabCtls| && CtlsRep(pool.slabs)
      requires ListsRep(pool.lists)
      requires memUsed == pool.memUsed && Inv(pool)
      ensures Valid()
    {
    }

    /** Free spelled out for a live chunk of slab s and class c. */
    lemma FreedIs(p: Pool, a: nat, s: nat, c: nat)
      requires Inv(p) && IsLive(p, a) && s == a / SLAB_SIZE && s < |p.slabs| && p.slabs[s].cache == c && c < |p.classes|
      ensures 0 < p.classes[c] && FreeList in p.lists && PartialList(c) in p.lists && FullList(c) in p.lists
      ensures 0 < p.slabs[s].nused
      ensures FreedAt(p, a) ==
                p.(slabs := p.slabs[s := p.slabs[s].(nused := p.slabs[s].nused - 1,
                                                     used := p.slabs[s].used - {(a % SLAB_SIZE) / p.classes[c]})],
                   lists := Relisted(p.lists, c, s, p.slabs[s].nused - 1, ChunkCount(p.classes[c])),
                   memUsed := p.memUsed - p.classes[c])
      ensures FreedAt(p, a) == Free(p, a)
    {
      hide ListsAgree, TotalBytes, Relisted;
      FreeFacts(p, a);
      InvGivesLists(p, c);
    }

    ghost function FreedAt(p: Pool, a: nat): Pool {
      if Inv(p) && IsLive(p, a) then Free(p, a) else p
    }

    lemma BytesWithin(st: SlabRuns.Client, n: nat)
      requires Valid() && SlabRuns.Safe(st, n) && pool == st.pool
      ensures memUsed <= n * SLAB_SIZE <= memMallocd <= memLimit
    {
      hide ListsRep, CtlsRep, Inv;
    }

    /** The step of the state machine is what the two methods promise. */
    lemma OpFacts(cur: SlabRuns.Client, op: SlabRuns.Op)
      requires Valid() && SlabRuns.ClientInv(cur) && cur.pool == pool && SlabRuns.Allowed(cur, op)
      ensures match op
              case Alloc(size) =>
                && SlabRuns.Step(cur, op).pool == Malloc(pool, size).0
                && SlabRuns.Result(cur, op) == Malloc(pool, size).1
              case Release(a) =>
                && IsLive(pool, a) && SlabRuns.Step(cur, op).pool == FreedAt(pool, a)
                && SlabRuns.Result(cur, op) == None
    {
      hide Rep, Malloc, Free, IsLive;
    }

    lemma LiveCtl(a: nat)
      requires Valid() && IsLive(pool, a)
      ensures a / SLAB_SIZE < |pool.slabs| == |slabCtls|
      ensures var s := a / SLAB_SIZE; var c := pool.slabs[s].cache;
              && 0 <= c < |caches| == |pool.classes| && slabCtls[s].cache == caches[c]
              && pool.classes[c] == caches[c].chunkSize && ChunkCount(pool.classes[c]) <= BIT_COUNT
              && slabCtls[s] in ctls && slabCtls[s].slots in bitmaps && slabCtls[s].slots.words in words
      ensures a % U32 == a <= (|slabCtls| * SLAB_SIZE) % U32
    {
      hide ListsRep, ListsAgree, TotalBytes;
      var s := a / SLAB_SIZE;
      CacheOf(s);
      CountFitsBitmap(pool.classes[pool.slabs[s].cache]);
      SlabOffsets.Region32(|slabCtls|);
      SlabRuns.LivePlace(pool, a);
    }
  }

  function Shifted(o: Option<nat>, base: nat): Option<nat> {
    match o
    case None => None
    case Some(a) => Some(base + a)
  }

  /** Any legal run of scmalloc and scfree, from any state with its client, ends in the state the
      state machine says and returns the pointers it says. */
  method RunOps(cm: CacheManager, ops: seq<SlabRuns.Op>, ghost st: SlabRuns.Client) returns (rs: seq<Option<nat>>)
    requires cm.Valid() && SlabRuns.ClientInv(st) && st.pool == cm.pool && SlabRuns.LegalRun(st, ops)
    modifies cm`pool, cm`memUsed, cm.lists, cm.ctls, cm.bitmaps, cm.words
    ensures cm.Valid() && cm.pool == SlabRuns.Run(st, ops).pool
    ensures |rs| == |ops| && forall j | 0 <= j < |ops| :: rs[j] == Shifted(SlabRuns.Results(st, ops)[j], cm.slabs)
  {
    hide CacheManager.Valid, SlabRuns.ClientInv, SlabRuns.Step, SlabRuns.Result, Malloc, IsLive, CacheManager.FreedAt;
    ghost var cur, all := st, SlabRuns.Results(st, ops);
    var i := 0;
    rs := [];
    assert ops[0..] == ops;
    while i < |ops|
      invariant 0 <= i <= |ops| && cm.Valid() && SlabRuns.ClientInv(cur) && cur.pool == cm.pool
      invariant SlabRuns.LegalRun(cur, ops[i..]) && SlabRuns.Run(cur, ops[i..]) == SlabRuns.Run(st, ops)
      invariant all[i..] == SlabRuns.Results(cur, ops[i..])
      invariant |rs| == i && forall j | 0 <= j < i :: rs[j] == Shifted(all[j], cm.slabs)
    {
      assert ops[i..][0] == ops[i] && ops[i..][1..] == ops[i + 1..];
      assert all[i] == all[i..][0] && all[i + 1..] == all[i..][1..];
      cm.OpFacts(cur, ops[i]);
      var r := None;
      match ops[i] {
        case Alloc(size) =>
          r := cm.Scmalloc(size);
        case Release(a) =>
          cm.Scfree(cm.slabs + a);
      }
      rs := rs + [r];
      cur := SlabRuns.Step(cur, ops[i]);
      i := i + 1;
    }
  }

  ghost function StartClient(n: nat): (st: SlabRuns.Client)
    ensures SlabRuns.ClientInv(st) && |st.pool.slabs| == n && st.pool == SlabRuns.InitPool(Table(), n)
  {
    TableOk();
    SlabRuns.InitClient(Table(), n)
  }

  /** From init_cache_manager through any legal calls: the manager is in the state the state machine
      reaches, which is safe, and the pointers it returned are those of the state machine. */
  method AllocatorSession(z: StructSizes, memoryLimit: nat, base: nat, system: Mallocs, ops: seq<SlabRuns.Op>)
    returns (cm: CacheManager?, rs: seq<Option<nat>>)
    requires 1 <= memoryLimit && z.Fits() && SlabCtlCount(z, memoryLimit * 0x10_0000) < 4096
    requires SlabRuns.LegalRun(StartClient(SlabCtlCount(z, memoryLimit * 0x10_0000)), ops)
    ensures cm == null <==> SlabCtlCount(z, memoryLimit * 0x10_0000) <= 1 || !system.All()
    ensures cm != null ==>
              var n := SlabCtlCount(z, memoryLimit * 0x10_0000);
              && cm.Valid() && cm.pool == SlabRuns.Run(StartClient(n), ops).pool
              && SlabRuns.Safe(SlabRuns.Run(StartClient(n), ops), n)
              && cm.memUsed <= n * SLAB_SIZE <= cm.memMallocd <= cm.memLimit
              && |rs| == |ops|
              && forall j | 0 <= j < |ops| :: rs[j] == Shifted(SlabRuns.Results(StartClient(n), ops)[j], base)
  {
    hide SlabCtlCount, CacheManager.Valid, SlabRuns.ClientInv, SlabRuns.LegalRun, SlabRuns.Run, SlabRuns.Results;
    hide SlabRuns.InitPool, SlabRuns.Safe;
    ghost var n := SlabCtlCount(z, memoryLimit * 0x10_0000);
    rs := [];
    ghost var region;
    cm, region := CacheManager.InitCacheManager(z, memoryLimit, base, system);
    if cm != null {
      rs := RunOps(cm, ops, StartClient(n));
      SlabRuns.InvIsSafe(SlabRuns.Run(StartClient(n), ops));
      cm.BytesWithin(SlabRuns.Run(StartClient(n), ops), n);
    }
  }
}

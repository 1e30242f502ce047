// Which slab and which slot scmalloc chooses: partial slabs before empty ones, the least free slot, and
// what was given back last first (src/slab.c:431-513).
module SlabChoice {
  import opened Arithmetic
  import opened Common
  import opened SlabPool
  import opened SlabRuns

  /** As many chunks as fit in a slab. */
  lemma ChunkCountLargest(size: nat)
    requires 0 < size
    ensures forall k: nat :: Fits(k, size) <==> k <= ChunkCount(size)
  {
    DivMod(SLAB_SIZE, size);
    forall k: nat
      ensures Fits(k, size) <==> k <= ChunkCount(size) {
      if k <= ChunkCount(size) {
        MulMonotone(k, ChunkCount(size), size);
      } else {
        MulMonotone(ChunkCount(size) + 1, k, size);
        MulSucc(ChunkCount(size), size);
      }
    }
  }

  predicate Fits(k: nat, size: nat) {
    k * size <= SLAB_SIZE
  }

  /** Slab t holds chunks of class c and has room for another. */
  ghost predicate HasRoom(p: Pool, c: nat, t: nat)
  {
    && c < |p.classes| && 0 < p.classes[c] && t < |p.slabs|
    && p.slabs[t].cache == c && 0 < p.slabs[t].nused < ChunkCount(p.classes[c])
  }

  ghost predicate HasLists(p: Pool, c: nat) {
    FreeList in p.lists && PartialList(c) in p.lists && FullList(c) in p.lists
  }

  /** The lists of q are those of p but for the free list and those of class c. */
  ghost predicate OthersKept(p: Pool, q: Pool, c: nat) {
    p.lists.Keys == q.lists.Keys
    && forall id | id in p.lists && id !in {FreeList, PartialList(c), FullList(c)} :: q.lists[id] == p.lists[id]
  }

  /** Slab s is the head of the class's partial list, else the head of the free list, and then adopted. */
  ghost predicate Chosen(p: Pool, q: Pool, c: nat, s: nat) {
    && HasLists(p, c) && HasLists(q, c) && OthersKept(p, q, c) && s < |p.slabs|
    && q.classes == p.classes && q.memUsed == p.memUsed && q.slabs == p.slabs[s := p.slabs[s].(cache := c)]
    && q.lists[FullList(c)] == p.lists[FullList(c)]
    && var partial, free := p.lists[PartialList(c)], p.lists[FreeList];
       if partial != [] then s == partial[0] && q.lists[PartialList(c)] == partial && q.lists[FreeList] == free
       else free != [] && s == free[0] && q.lists[PartialList(c)] == [s] && q.lists[FreeList] == free[1..]
  }

  lemma SlabChosen(p: Pool, c: nat)
    requires Inv(p) && c < |p.classes| && TakeSlab(p, c).Some?
    ensures Chosen(p, TakeSlab(p, c).value.0, c, TakeSlab(p, c).value.1)
  {
    hide ListsAgree, TotalBytes, SlabOk, ClassesOk;
    InvGivesLists(p, c);
    var partial, free := p.lists[PartialList(c)], p.lists[FreeList];
    if partial != [] {
      assert partial[0] in partial;
      ChosenIsOwn(p, c, partial[0]);
    } else {
      assert free[0] in free && [free[0]] + [] == [free[0]];
    }
  }

  lemma ChosenIsOwn(p: Pool, c: nat, s: nat)
    requires Inv(p) && c < |p.classes| && PartialList(c) in p.lists && s in p.lists[PartialList(c)]
    ensures s < |p.slabs| && p.slabs[s].cache == c && 0 < p.slabs[s].nused < ChunkCount(p.classes[c])
    ensures p.slabs[s := p.slabs[s].(cache := c)] == p.slabs
  {
    InvOneList(p, s);
  }

  /** Of slab s, at the head of the partial list, the least free slot k is used; the slab moves to the
      front of the full list exactly if that was its last. */
  ghost predicate Filled(p: Pool, q: Pool, c: nat, s: nat, k: nat) {
    && HasLists(p, c) && HasLists(q, c) && OthersKept(p, q, c)
    && s < |p.slabs| && c < |p.classes| && 0 < p.classes[c]
    && k !in p.slabs[s].used && (forall j | 0 <= j < k :: j in p.slabs[s].used)
    && q.classes == p.classes && q.memUsed == p.memUsed + p.classes[c]
    && q.slabs == p.slabs[s := p.slabs[s].(nused := p.slabs[s].nused + 1, used := p.slabs[s].used + {k})]
    && q.lists[FreeList] == p.lists[FreeList]
    && var partial, full := p.lists[PartialList(c)], p.lists[FullList(c)];
       if p.slabs[s].nused + 1 == ChunkCount(p.classes[c]) then
         partial != [] && q.lists[PartialList(c)] == partial[1..] && q.lists[FullList(c)] == [s] + full
       else q.lists[PartialList(c)] == partial && q.lists[FullList(c)] == full
  }

  lemma SlotFilled(p: Pool, c: nat, s: nat)
    requires HasLists(p, c) && s < |p.slabs| && c < |p.classes| && 0 < p.classes[c]
    requires p.lists[PartialList(c)] != [] && p.lists[PartialList(c)][0] == s
    ensures Filled(p, TakeSlot(p, c, s).0, c, s, LeastFree(p.slabs[s].used, 0))
  {
  }

  /** Where scmalloc finds its chunk and what it changes. */
  lemma MallocExactly(p: Pool, size: nat, c: nat, a: nat) returns (q: Pool, s: nat, k: nat)
    requires Inv(p) && c == CacheFor(p.classes, size) < |p.classes| && Malloc(p, size).1 == Some(a)
    ensures Chosen(p, q, c, s) && Filled(q, Malloc(p, size).0, c, s, k)
    ensures a == Address(s, p.classes[c], k) && a / SLAB_SIZE == s && k < ChunkCount(p.classes[c])
  {
    hide Inv, TakeSlab, TakeSlot, Chosen, Filled, TakeSlotReady, LeastFree, ChunkAt, IsLive;
    SlabChosen(p, c);
    TakeSlabFacts(p, c);
    SlabTakenIsReady(p, c);
    var r := TakeSlab(p, c).value;
    q, s := r.0, r.1;
    ReadySlot(p, q, c, s);
    k := LeastFree(q.slabs[s].used, 0);
    TakeSlotLive(p, q, c, s, k);
    SlotFilled(q, c, s);
  }

  lemma ReadySlot(p: Pool, q: Pool, c: nat, s: nat)
    requires TakeSlotReady(p, q, c, s)
    ensures s < |q.slabs| && c < |q.classes| && 0 < q.classes[c] == p.classes[c]
    ensures LeastFree(q.slabs[s].used, 0) < ChunkCount(p.classes[c])
    ensures HasLists(p, c) ==> HasLists(q, c)
  {
    LeastFreeBelow(q.slabs[s].used, ChunkCount(q.classes[c]));
  }

  /** An empty slab is taken exactly if no slab of the class that holds chunks has room; it comes off
      the front of the free list, which else stays as it is. */
  lemma EmptySlabLast(p: Pool, size: nat, c: nat, a: nat)
    requires Inv(p) && c == CacheFor(p.classes, size) < |p.classes| && Malloc(p, size).1 == Some(a)
    ensures var s, q := a / SLAB_SIZE, Malloc(p, size).0;
            && s < |p.slabs| && FreeList in p.lists && FreeList in q.lists
            && (p.slabs[s].nused > 0 <==> exists t: nat :: HasRoom(p, c, t))
            && if p.slabs[s].nused > 0 then HasRoom(p, c, s) && q.lists[FreeList] == p.lists[FreeList]
               else p.lists[FreeList] != [] && s == p.lists[FreeList][0] && q.lists[FreeList] == p.lists[FreeList][1..]
  {
    hide Malloc, Inv, HasRoom;
    var q, s, k := MallocExactly(p, size, c, a);
    WhenRoom(p, c);
    if p.lists[PartialList(c)] == [] {
      FreeIsEmpty(p, s);
    }
  }

  /** The partial list of a class is not empty exactly if a slab of the class has room, as its head has. */
  lemma WhenRoom(p: Pool, c: nat)
    requires Inv(p) && c < |p.classes| && PartialList(c) in p.lists
    ensures p.lists[PartialList(c)] != [] <==> exists t: nat :: HasRoom(p, c, t)
    ensures p.lists[PartialList(c)] != [] ==> HasRoom(p, c, p.lists[PartialList(c)][0])
    ensures forall t: nat :: HasRoom(p, c, t) ==> 0 < p.slabs[t].nused
  {
    if p.lists[PartialList(c)] != [] {
      assert p.lists[PartialList(c)][0] in p.lists[PartialList(c)];
      ChosenIsOwn(p, c, p.lists[PartialList(c)][0]);
      assert HasRoom(p, c, p.lists[PartialList(c)][0]);
    }
    forall t: nat | HasRoom(p, c, t)
      ensures t in p.lists[PartialList(c)] {
      RoomIsListed(p, c, t);
    }
  }

  lemma RoomIsListed(p: Pool, c: nat, t: nat)
    requires Inv(p) && HasRoom(p, c, t) && PartialList(c) in p.lists
    ensures t in p.lists[PartialList(c)]
  {
    assert Homes(p)[t] == PartialList(c);
  }

  lemma FreeIsEmpty(p: Pool, s: nat)
    requires Inv(p) && FreeList in p.lists && s in p.lists[FreeList]
    ensures s < |p.slabs| && p.slabs[s].nused == 0
  {
    assert Homes(p)[s] == FreeList;
    InvOneList(p, s);
  }
  // ----- the last given back is the first handed out ----------------------------------------------

  ghost function Below(n: nat): (r: set<nat>)
    ensures forall k: nat :: k in r <==> k < n
  {
    if n == 0 then {} else Below(n - 1) + {n - 1}
  }

  lemma AllUsed(used: set<nat>, count: nat)
    requires |used| == count && forall k | k in used :: k < count
    ensures forall k: nat | k < count :: k in used
  {
    forall k: nat | k < count
      ensures k in used {
      if k !in used {
        RangeSize(count, Below(count));
        ProperlyLess(used, Below(count));
        assert false;
      }
    }
  }

  lemma ProperlyLess(a: set<nat>, b: set<nat>)
    requires a < b
    ensures |a| < |b|
  {
    assert b == a + (b - a);
  }

  /** Where scfree puts the slab of the chunk. */
  lemma FreedTo(p: Pool, a: nat)
    requires Inv(p) && IsLive(p, a)
    ensures var s, f := a / SLAB_SIZE, Free(p, a); var c := p.slabs[s].cache;
            && 0 <= c < |p.classes| && 0 < p.classes[c] && HasLists(p, c) && HasLists(f, c)
            && f.classes == p.classes && |f.slabs| == |p.slabs|
            && f.slabs[s] == Slab(p.slabs[s].nused - 1, p.slabs[s].used - {(a % SLAB_SIZE) / p.classes[c]}, c)
            && (p.slabs[s].nused == 1 ==> f.lists[FreeList] == [s] + p.lists[FreeList])
            && (1 < p.slabs[s].nused == ChunkCount(p.classes[c]) ==>
                  f.lists[PartialList(c)] == [s] + p.lists[PartialList(c)])
  {
    hide ListsAgree, TotalBytes;
    LiveFacts(p, a);
    InvGivesLists(p, p.slabs[a / SLAB_SIZE].cache);
  }

  /** A chunk given back by a full slab is the next of its class to be handed out. */
  lemma FreedIsReused(p: Pool, a: nat, size: nat, c: nat)
    requires Inv(p) && IsLive(p, a) && c == p.slabs[a / SLAB_SIZE].cache && CacheFor(p.classes, size) == c
    requires p.slabs[a / SLAB_SIZE].nused == ChunkCount(p.classes[c])
    ensures Inv(Free(p, a)) && Malloc(Free(p, a), size).1 == Some(a)
  {
    hide Malloc, Free, IsLive, Inv;
    var f, s := Free(p, a), a / SLAB_SIZE;
    FreeKeepsInv(p, a);
    FreedTo(p, a);
    LivePlaceOf(p, a);
    FullSlab(p, s);
    WhenRoom(f, c);
    SomeSlab(f, size, c);
    var q, t, k := MallocExactly(f, size, c, Malloc(f, size).1.value);
  }

  lemma LivePlaceOf(p: Pool, a: nat)
    requires Inv(p) && IsLive(p, a)
    ensures var s := a / SLAB_SIZE; var c := p.slabs[s].cache; var k := (a % SLAB_SIZE) / p.classes[c];
            && s < |p.slabs| && 0 <= c < |p.classes| && 0 < p.classes[c] && 0 < p.slabs[s].nused
            && a == Address(s, p.classes[c], k) && k in p.slabs[s].used && k < ChunkCount(p.classes[c])
  {
    LiveFacts(p, a);
  }

  lemma FullSlab(p: Pool, s: nat)
    requires Inv(p) && s < |p.slabs| && p.slabs[s].nused > 0
    ensures var c := p.slabs[s].cache;
            && 0 <= c < |p.classes| && 0 < p.classes[c]
            && (p.slabs[s].nused == ChunkCount(p.classes[c]) ==>
                  forall k: nat | k < ChunkCount(p.classes[c]) :: k in p.slabs[s].used)
  {
    assert SlabOk(p, p.slabs[s]);
    if p.slabs[s].nused == ChunkCount(p.classes[p.slabs[s].cache]) {
      AllUsed(p.slabs[s].used, p.slabs[s].nused);
    }
  }

  lemma SomeSlab(p: Pool, size: nat, c: nat)
    requires Inv(p) && CacheFor(p.classes, size) == c < |p.classes|
    ensures HasLists(p, c) && (p.lists[PartialList(c)] != [] || p.lists[FreeList] != [] ==> Malloc(p, size).1.Some?)
  {
    InvGivesLists(p, c);
  }

  /** A slab given back with its last chunk is the next empty slab to be taken, from its start. */
  lemma DrainedIsReused(p: Pool, a: nat, size: nat, c: nat)
    requires Inv(p) && IsLive(p, a) && p.slabs[a / SLAB_SIZE].nused == 1
    requires CacheFor(p.classes, size) == c < |p.classes|
    requires forall t: nat :: !HasRoom(Free(p, a), c, t)
    ensures Inv(Free(p, a)) && Malloc(Free(p, a), size).1 == Some(a / SLAB_SIZE * SLAB_SIZE)
  {
    hide Malloc, Free, IsLive, Inv, HasRoom;
    var f, s := Free(p, a), a / SLAB_SIZE;
    FreeKeepsInv(p, a);
    FreedTo(p, a);
    LivePlaceOf(p, a);
    SomeSlab(f, size, c);
    WhenRoom(f, c);
    OnlySlot(p, s);
    var q, t, k := MallocExactly(f, size, c, Malloc(f, size).1.value);
    assert t == s && q.slabs[s].used == f.slabs[s].used == {};
    LeastFreeUnique({}, k);
    FirstSlot(s, p.classes[c]);
  }

  lemma FirstSlot(s: nat, size: nat)
    ensures Address(s, size, 0) == s * SLAB_SIZE
  {
  }

  lemma OnlySlot(p: Pool, s: nat)
    requires Inv(p) && s < |p.slabs| && p.slabs[s].nused == 1
    ensures forall k | k in p.slabs[s].used :: p.slabs[s].used - {k} == {}
  {
    assert SlabOk(p, p.slabs[s]);
    forall k | k in p.slabs[s].used
      ensures p.slabs[s].used - {k} == {} {
      assert |p.slabs[s].used - {k}| == 0;
    }
  }

  /** As long as a slab has room, the class is served from it, at rising addresses. */
  lemma SameSlabAgain(p: Pool, size: nat, size': nat, c: nat, a: nat)
    requires Inv(p) && CacheFor(p.classes, size) == CacheFor(p.classes, size') == c < |p.classes|
    requires Malloc(p, size).1 == Some(a)
    ensures var q := Malloc(p, size).0;
            && Inv(q) && a / SLAB_SIZE < |q.slabs|
            && (q.slabs[a / SLAB_SIZE].nused < ChunkCount(p.classes[c]) ==>
                  && Malloc(q, size').1.Some?
                  && Malloc(q, size').1.value / SLAB_SIZE == a / SLAB_SIZE && a < Malloc(q, size').1.value)
  {
    hide Malloc, Inv;
    var q := Malloc(p, size).0;
    MallocKeepsInv(p, size);
    MallocFrame(p, size);
    var q0, s, k := MallocExactly(p, size, c, a);
    SomeSlab(q, size', c);
    if q.slabs[s].nused < ChunkCount(p.classes[c]) {
      var q1, t, l := MallocExactly(q, size', c, Malloc(q, size').1.value);
      Higher(s, p.classes[c], k, l);
    }
  }

  lemma Higher(s: nat, size: nat, k: nat, l: nat)
    requires 0 < size
    ensures k < l ==> Address(s, size, k) < Address(s, size, l)
  {
    if k < l {
      MulMonotone(k + 1, l, size);
    }
  }

  // ----- runs without releases ----------------------------------------------------------------------

  ghost predicate OnePartial(p: Pool) {
    forall c: nat, t: nat, u: nat | HasRoom(p, c, t) && HasRoom(p, c, u) :: t == u
  }

  ghost predicate ShortLists(p: Pool) {
    forall c: nat | PartialList(c) in p.lists :: |p.lists[PartialList(c)]| <= 1
  }

  lemma ShortIsOne(p: Pool)
    requires Inv(p)
    ensures ShortLists(p) ==> OnePartial(p)
  {
    if ShortLists(p) {
      forall c: nat, t: nat, u: nat | HasRoom(p, c, t) && HasRoom(p, c, u)
        ensures t == u {
        assert Homes(p)[t] == PartialList(c) && Homes(p)[u] == PartialList(c);
        assert t in p.lists[PartialList(c)] && u in p.lists[PartialList(c)];
      }
    }
  }

  lemma StaysShort(p: Pool, size: nat)
    requires Inv(p) && ShortLists(p)
    ensures ShortLists(Malloc(p, size).0)
  {
    hide Malloc, Inv;
    var c := CacheFor(p.classes, size);
    if Malloc(p, size).1.Some? {
      HasClass(p, size);
      var q, s, k := MallocExactly(p, size, c, Malloc(p, size).1.value);
    } else {
      MallocNone(p, size);
    }
  }

  lemma HasClass(p: Pool, size: nat)
    requires Inv(p) && Malloc(p, size).1.Some?
    ensures CacheFor(p.classes, size) < |p.classes|
  {
  }

  lemma {:induction false} RunStaysShort(st: Client, ops: seq<Op>)
    requires ClientInv(st) && ShortLists(st.pool) && LegalRun(st, ops) && forall op | op in ops :: op.Alloc?
    ensures ShortLists(Run(st, ops).pool)
    decreases |ops|
  {
    hide Malloc, Inv, ShortLists, Free;
    if ops != [] {
      assert ops[0] in ops;
      StaysShort(st.pool, ops[0].size);
      assert forall op | op in ops[1..] :: op in ops;
      RunStaysShort(Step(st, ops[0]), ops[1..]);
    }
  }

  /** As long as nothing is given back, at most one slab of each class is neither empty nor full. */
  lemma OnePartialSlab(classes: seq<nat>, n: nat, ops: seq<Op>)
    requires ClassesOk(classes) && LegalRun(InitClient(classes, n), ops) && forall op | op in ops :: op.Alloc?
    ensures OnePartial(Run(InitClient(classes, n), ops).pool)
  {
    hide Run, LegalRun, Inv, OnePartial;
    RunStaysShort(InitClient(classes, n), ops);
    ShortIsOne(Run(InitClient(classes, n), ops).pool);
  }
}

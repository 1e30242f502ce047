// The slab allocator as a state machine on values: what scmalloc and scfree do to the size
// classes, the three kinds of slab list, the slot bitmaps and the memory counter
// (src/slab.c:420-513), and what every reachable state satisfies.
module SlabPool {
  import opened Arithmetic
  import opened Common

  const SLAB_SIZE: nat := 0x10_0000      // 1024 * 1024
  const ALIGN_BYTES: nat := 8
  const NO_CACHE: int := -1

  // ----- state ------------------------------------------------------------------------------

  datatype ListId = FreeList | PartialList(cache: nat) | FullList(cache: nat)

  /** `used` holds the slots whose bit is clear; `cache` is the class the slab was last given to. */
  datatype Slab = Slab(nused: nat, used: set<nat>, cache: int)

  /** `classes[c]` is the chunk size of class c. */
  datatype Pool = Pool(classes: seq<nat>, slabs: seq<Slab>, lists: map<ListId, seq<nat>>, memUsed: int)

  function ChunkCount(size: nat): nat
    requires 0 < size
  {
    SLAB_SIZE / size
  }

  predicate HasCache(p: Pool, sl: Slab) {
    0 <= sl.cache < |p.classes|
  }

  ghost predicate IdOk(count: nat, id: ListId) {
    match id
    case FreeList => true
    case PartialList(c) => c < count
    case FullList(c) => c < count
  }

  // ----- lists ------------------------------------------------------------------------------

  /** The list without the first occurrence of s. */
  function Removed(q: seq<nat>, s: nat): seq<nat> {
    if q == [] then [] else if q[0] == s then q[1..] else [q[0]] + Removed(q[1..], s)
  }

  function Moved(lists: map<ListId, seq<nat>>, src: ListId, dst: ListId, s: nat): map<ListId, seq<nat>>
    requires src in lists && dst in lists
  {
    lists[src := Removed(lists[src], s)][dst := [s] + lists[dst]]
  }

  ghost predicate NoDuplicates(q: seq<nat>) {
    forall i, j | 0 <= i < j < |q| :: q[i] != q[j]
  }

  lemma {:induction false} RemovedContents(q: seq<nat>, s: nat)
    requires NoDuplicates(q)
    ensures NoDuplicates(Removed(q, s))
    ensures forall x: nat :: x in Removed(q, s) <==> x in q && x != s
  {
    if q != [] {
      var rest := q[1..];
      assert q == [q[0]] + rest;
      if q[0] != s {
        RemovedContents(rest, s);
        var r := Removed(rest, s);
        assert q[0] !in rest;
        forall i, j | 0 <= i < j < |r| + 1
          ensures ([q[0]] + r)[i] != ([q[0]] + r)[j] {
          assert r[j - 1] in rest;
        }
      }
    }
  }

  /** `home[s]` is the one list slab s is in. */
  ghost predicate ListsAgree(lists: map<ListId, seq<nat>>, home: seq<ListId>) {
    && (forall id | id in lists :: NoDuplicates(lists[id]))
    && (forall id, s: nat {:trigger s in lists[id]} | id in lists && s in lists[id] :: s < |home| && home[s] == id)
    && (forall s | 0 <= s < |home| && home[s] in lists :: s in lists[home[s]])
  }

  lemma MovedAgrees(lists: map<ListId, seq<nat>>, home: seq<ListId>, src: ListId, dst: ListId, s: nat)
    requires ListsAgree(lists, home) && src in lists && dst in lists && src != dst
    requires s < |home| && home[s] == src
    ensures ListsAgree(Moved(lists, src, dst, s), home[s := dst])
  {
    var m, h := Moved(lists, src, dst, s), home[s := dst];
    RemovedContents(lists[src], s);
    assert s !in lists[dst];
    forall id | id in m
      ensures NoDuplicates(m[id]) {
      if id == dst {
        forall i, j | 0 <= i < j < |m[dst]|
          ensures m[dst][i] != m[dst][j] {
          assert m[dst][j] == lists[dst][j - 1] && lists[dst][j - 1] in lists[dst];
        }
      }
    }
  }

  // ----- operations -------------------------------------------------------------------------

  /** The index of the first class that can hold `size`, or the number of classes. */
  function CacheFor(classes: seq<nat>, size: nat): (c: nat)
    ensures c <= |classes|
    ensures c < |classes| ==> size <= classes[c]
    ensures forall i | 0 <= i < c :: classes[i] < size
  {
    if classes == [] || size <= classes[0] then 0
    else
      var c := CacheFor(classes[1..], size) + 1;
      assert forall i | 1 <= i < c :: classes[i] == classes[1..][i - 1];
      c
  }

  /** The least slot from b on that is not in `used`. */
  ghost function LeastFree(used: set<nat>, b: nat): (r: nat)
    ensures b <= r && r !in used
    ensures forall k | b <= k < r :: k in used
    decreases used
  {
    if b in used then LeastFree(used - {b}, b + 1) else b
  }

  function Address(s: nat, size: nat, k: nat): nat {
    s * SLAB_SIZE + size * k
  }

  /** The slab scmalloc serves class c from: the head of its partial list, else a free slab that
      it takes over. */
  ghost function TakeSlab(p: Pool, c: nat): (r: Option<(Pool, nat)>)
    requires Inv(p) && c < |p.classes|
  {
    InvGivesLists(p, c);
    var partial, free := p.lists[PartialList(c)], p.lists[FreeList];
    if partial != [] then Some((p, partial[0]))
    else if free == [] then None
    else
      assert free[0] in free;
      var s := free[0];
      Some((p.(lists := Moved(p.lists, FreeList, PartialList(c), s),
               slabs := p.slabs[s := p.slabs[s].(cache := c)]), s))
  }

  /** Hands out the least free slot of slab s, which heads the partial list of class c. */
  ghost function TakeSlot(p: Pool, c: nat, s: nat): (r: (Pool, nat))
    requires c < |p.classes| && s < |p.slabs| && 0 < p.classes[c]
    requires PartialList(c) in p.lists && FullList(c) in p.lists
  {
    var k := LeastFree(p.slabs[s].used, 0);
    var n := p.slabs[s].nused + 1;
    (p.(slabs := p.slabs[s := p.slabs[s].(nused := n, used := p.slabs[s].used + {k})],
        lists := if n == ChunkCount(p.classes[c]) then Moved(p.lists, PartialList(c), FullList(c), s) else p.lists,
        memUsed := p.memUsed + p.classes[c]),
     Address(s, p.classes[c], k))
  }

  /** A chunk of class c, None when no slab can serve the class. */
  ghost function Serve(p: Pool, c: nat): (r: (Pool, Option<nat>))
    requires Inv(p) && c < |p.classes|
  {
    InvGivesLists(p, c);
    TakeSlabFacts(p, c);
    match TakeSlab(p, c)
    case None => (p, None)
    case Some((q, s)) =>
      var (r, a) := TakeSlot(q, c, s);
      (r, Some(a))
  }

  /** scmalloc: the new state and the offset handed out, None for a NULL result. */
  ghost function Malloc(p: Pool, size: nat): (r: (Pool, Option<nat>))
    requires Inv(p)
  {
    var c := CacheFor(p.classes, size);
    if c == |p.classes| then (p, None) else Serve(p, c)
  }

  /** The lists after slab s of class c has come down to n used chunks out of `count`. */
  function Relisted(lists: map<ListId, seq<nat>>, c: nat, s: nat, n: nat, count: nat): map<ListId, seq<nat>>
    requires FreeList in lists && PartialList(c) in lists && FullList(c) in lists
  {
    if n == 0 then
      Moved(lists, if s in lists[PartialList(c)] then PartialList(c) else FullList(c), FreeList, s)
    else if n == count - 1 then Moved(lists, FullList(c), PartialList(c), s)
    else lists
  }

  /** scfree of a live pointer, given as its offset from the start of the slab region. */
  ghost function Free(p: Pool, a: nat): (r: Pool)
    requires Inv(p) && IsLive(p, a)
  {
    var s := a / SLAB_SIZE;
    var c := p.slabs[s].cache;
    InvGivesLists(p, c);
    var k := (a % SLAB_SIZE) / p.classes[c];
    var n := p.slabs[s].nused - 1;
    p.(slabs := p.slabs[s := p.slabs[s].(nused := n, used := p.slabs[s].used - {k})],
       lists := Relisted(p.lists, c, s, n, ChunkCount(p.classes[c])),
       memUsed := p.memUsed - p.classes[c])
  }

  /** Slab s of class c is in the list its count before a free says, and is down to n chunks. */
  ghost predicate RelistReady(p: Pool, lists: map<ListId, seq<nat>>, c: nat, s: nat, n: nat) {
    && Inv(p) && lists == p.lists && c < |p.classes| && s < |p.slabs|
    && p.slabs[s].cache == c && p.slabs[s].nused == n + 1
  }

  /** So the drained slab is found in the partial or the full list, and the formerly full one in
      the full list: the moves of scfree never fail. */
  lemma RelistFacts(p: Pool, lists: map<ListId, seq<nat>>, c: nat, s: nat, n: nat)
    requires RelistReady(p, lists, c, s, n)
    ensures FreeList in lists && PartialList(c) in lists && FullList(c) in lists
    ensures NoDuplicates(lists[PartialList(c)]) && NoDuplicates(lists[FullList(c)])
    ensures n == 0 ==> s in lists[PartialList(c)] || s in lists[FullList(c)]
    ensures n == ChunkCount(p.classes[c]) - 1 ==> s in lists[FullList(c)]
  {
  }

  // ----- the invariant ----------------------------------------------------------------------

  ghost predicate ClassesOk(classes: seq<nat>) {
    && 0 < |classes|
    && (forall c | 0 <= c < |classes| :: 0 < classes[c] <= SLAB_SIZE && classes[c] % ALIGN_BYTES == 0)
    && (forall c, d | 0 <= c < d < |classes| :: classes[c] < classes[d])
  }

  /** A slab that holds chunks has a class, and its clear bits are `nused` many, all below the
      chunk count of the class: every bit past the chunk count is still set. */
  ghost predicate SlabOk(p: Pool, sl: Slab)
    requires ClassesOk(p.classes)
  {
    && sl.nused == |sl.used|
    && (sl.nused > 0 ==>
          && HasCache(p, sl)
          && sl.nused <= ChunkCount(p.classes[sl.cache])
          && forall k | k in sl.used :: k < ChunkCount(p.classes[sl.cache]))
  }

  lemma {:induction false} RemovedAt(q: seq<nat>, k: nat)
    requires NoDuplicates(q) && k < |q|
    ensures Removed(q, q[k]) == q[..k] + q[k + 1..]
  {
    if k > 0 {
      RemovedAt(q[1..], k - 1);
    }
  }

  /** The list a slab belongs in, read off its counter. */
  function Home(p: Pool, sl: Slab): ListId
  {
    if sl.nused == 0 || sl.cache < 0 || |p.classes| <= sl.cache || p.classes[sl.cache] == 0 then FreeList
    else if sl.nused == ChunkCount(p.classes[sl.cache]) then FullList(sl.cache)
    else PartialList(sl.cache)
  }

  ghost function Homes(p: Pool): (h: seq<ListId>)
    ensures |h| == |p.slabs|
    ensures forall s | 0 <= s < |h| :: h[s] == Home(p, p.slabs[s])
  {
    seq(|p.slabs|, s requires 0 <= s < |p.slabs| => Home(p, p.slabs[s]))
  }

  function Bytes(p: Pool, sl: Slab): nat
  {
    if HasCache(p, sl) then sl.nused * p.classes[sl.cache] else 0
  }

  ghost function TotalBytes(p: Pool, slabs: seq<Slab>): nat
  {
    if slabs == [] then 0 else Bytes(p, slabs[0]) + TotalBytes(p, slabs[1..])
  }

  /** What holds after every scmalloc and scfree. */
  ghost predicate Inv(p: Pool) {
    && ClassesOk(p.classes)
    && (forall id :: id in p.lists <==> IdOk(|p.classes|, id))
    && (forall s | 0 <= s < |p.slabs| :: SlabOk(p, p.slabs[s]))
    && ListsAgree(p.lists, Homes(p))
    && p.memUsed == TotalBytes(p, p.slabs)
  }

  lemma InvGivesLists(p: Pool, c: nat)
    requires Inv(p) && c < |p.classes|
    ensures FreeList in p.lists && PartialList(c) in p.lists && FullList(c) in p.lists
    ensures forall id, s: nat | id in p.lists && s in p.lists[id] :: s < |p.slabs|
    ensures forall id | id in p.lists :: NoDuplicates(p.lists[id])
  {
  }

  /** An offset is live when it is the start of a slot that is marked used. */
  ghost predicate IsLive(p: Pool, a: nat) {
    var s := a / SLAB_SIZE;
    && s < |p.slabs|
    && HasCache(p, p.slabs[s])
    && 0 < p.classes[p.slabs[s].cache]
    && var k := (a % SLAB_SIZE) / p.classes[p.slabs[s].cache];
       k in p.slabs[s].used && a == Address(s, p.classes[p.slabs[s].cache], k)
  }

  // ----- scmalloc and scfree keep the invariant ----------------------------------------------

  lemma {:induction false} TotalBytesUpdate(p: Pool, slabs: seq<Slab>, s: nat, sl: Slab)
    requires s < |slabs|
    ensures TotalBytes(p, slabs[s := sl]) == TotalBytes(p, slabs) - Bytes(p, slabs[s]) + Bytes(p, sl)
  {
    if s == 0 {
      assert slabs[0 := sl][1..] == slabs[1..];
    } else {
      TotalBytesUpdate(p, slabs[1..], s - 1, sl);
      assert slabs[s := sl][1..] == slabs[1..][s - 1 := sl];
    }
  }

  lemma {:induction false} TotalBytesSameClasses(p: Pool, q: Pool, slabs: seq<Slab>)
    requires p.classes == q.classes
    ensures TotalBytes(p, slabs) == TotalBytes(q, slabs)
  {
    if slabs != [] {
      TotalBytesSameClasses(p, q, slabs[1..]);
    }
  }

  /** Slab s is chosen for class c, in the pool q. */
  ghost predicate Taken(p: Pool, q: Pool, c: nat, s: nat)
    requires ClassesOk(p.classes) && c < |p.classes|
  {
    && s < |q.slabs| && q.classes == p.classes && q.lists.Keys == p.lists.Keys && |q.slabs| == |p.slabs|
    && q.slabs == p.slabs[s := p.slabs[s].(cache := c)]
    && SlabOk(q, q.slabs[s]) && q.slabs[s].nused < ChunkCount(q.classes[c])
    && q.memUsed == p.memUsed
    && ListsAgree(q.lists, Homes(p)[s := PartialList(c)])
    && PartialList(c) in q.lists && q.lists[PartialList(c)] != [] && q.lists[PartialList(c)][0] == s
  }

  lemma TakeSlabFacts(p: Pool, c: nat)
    requires Inv(p) && c < |p.classes|
    ensures FreeList in p.lists && PartialList(c) in p.lists
    ensures TakeSlab(p, c).Some? ==> Taken(p, TakeSlab(p, c).value.0, c, TakeSlab(p, c).value.1)
  {
    hide ListsAgree, TotalBytes, Moved;
    InvGivesLists(p, c);
    if p.lists[PartialList(c)] != [] {
      PartialTaken(p, c);
    } else if p.lists[FreeList] != [] {
      FreeTaken(p, c);
    }
  }

  lemma PartialTaken(p: Pool, c: nat)
    requires Inv(p) && c < |p.classes| && PartialList(c) in p.lists && p.lists[PartialList(c)] != []
    ensures Taken(p, p, c, p.lists[PartialList(c)][0])
  {
    var s := p.lists[PartialList(c)][0];
    assert s in p.lists[PartialList(c)];
    assert Homes(p)[s] == PartialList(c);
    assert p.slabs[s := p.slabs[s].(cache := c)] == p.slabs;
    assert Homes(p)[s := PartialList(c)] == Homes(p);
  }

  lemma FreeTaken(p: Pool, c: nat)
    requires Inv(p) && c < |p.classes| && FreeList in p.lists && PartialList(c) in p.lists && p.lists[FreeList] != []
    ensures var s := p.lists[FreeList][0];
            && s < |p.slabs|
            && Taken(p, p.(lists := Moved(p.lists, FreeList, PartialList(c), s),
                           slabs := p.slabs[s := p.slabs[s].(cache := c)]), c, s)
  {
    var s := p.lists[FreeList][0];
    assert s in p.lists[FreeList];
    assert Homes(p)[s] == FreeList;
    MovedAgrees(p.lists, Homes(p), FreeList, PartialList(c), s);
  }

  lemma {:induction false} RangeSize(n: nat, r: set<nat>)
    requires forall k: nat :: k in r <==> k < n
    ensures |r| == n
  {
    if n > 0 {
      assert r == (r - {n - 1}) + {n - 1};
      RangeSize(n - 1, r - {n - 1});
    } else {
      assert r == {};
    }
  }

  lemma LeastFreeUnique(used: set<nat>, r: nat)
    requires r !in used && forall k | 0 <= k < r :: k in used
    ensures LeastFree(used, 0) == r
  {
  }

  /** While fewer than `count` slots are used, the first set bit is below the chunk count, although
      the bits past the chunk count are set too. */
  lemma LeastFreeBelow(used: set<nat>, count: nat)
    requires forall k | k in used :: k < count
    requires |used| < count
    ensures LeastFree(used, 0) < count
  {
    if LeastFree(used, 0) >= count {
      RangeSize(count, used);
      assert false;
    }
  }

  /** The division and remainder of scfree recover the slab and slot of an address. */
  lemma AddressDecodes(s: nat, size: nat, k: nat)
    requires 0 < size && k < ChunkCount(size)
    ensures Address(s, size, k) / SLAB_SIZE == s
    ensures (Address(s, size, k) % SLAB_SIZE) / size == k
    ensures Address(s, size, k) % SLAB_SIZE == size * k
    ensures size * k + size <= SLAB_SIZE
  {
    SlotFits(size, k);
    DivModUnique(Address(s, size, k), SLAB_SIZE, s, size * k);
    DivModUnique(size * k, size, k, 0);
  }

  lemma SlotFits(size: nat, k: nat)
    requires 0 < size && k < ChunkCount(size)
    ensures size * k + size <= SLAB_SIZE
  {
    DivMod(SLAB_SIZE, size);
    MulMonotone(k + 1, ChunkCount(size), size);
    assert (k + 1) * size == size * k + size;
  }

  /** The chunk size behind a live offset. */
  ghost function ChunkAt(p: Pool, a: nat): nat
    requires IsLive(p, a)
  {
    p.classes[p.slabs[a / SLAB_SIZE].cache]
  }

  lemma TakeSlotSlabs(p: Pool, q: Pool, c: nat, s: nat)
    requires TakeSlotReady(p, q, c, s)
    ensures var r := TakeSlot(q, c, s).0; forall t | 0 <= t < |r.slabs| :: SlabOk(r, r.slabs[t])
  {
    LeastFreeBelow(q.slabs[s].used, ChunkCount(q.classes[c]));
    var r := TakeSlot(q, c, s).0;
    assert forall t | 0 <= t < |r.slabs| && t != s :: r.slabs[t] == p.slabs[t];
  }

  /** Replacing one slab changes the byte total by the difference of the two slabs' bytes. */
  lemma TotalBytesStep(p: Pool, r: Pool, s: nat, sl: Slab)
    requires s < |p.slabs| && r.classes == p.classes && r.slabs == p.slabs[s := sl]
    ensures TotalBytes(r, r.slabs) == TotalBytes(p, p.slabs) - Bytes(p, p.slabs[s]) + Bytes(p, sl)
  {
    TotalBytesUpdate(p, p.slabs, s, sl);
    TotalBytesSameClasses(p, r, r.slabs);
  }

  lemma TakeSlotBytes(p: Pool, q: Pool, c: nat, s: nat)
    requires TakeSlotReady(p, q, c, s)
    ensures var r := TakeSlot(q, c, s).0; r.memUsed == TotalBytes(r, r.slabs)
  {
    var r := TakeSlot(q, c, s).0;
    var sl := Slab(p.slabs[s].nused + 1, r.slabs[s].used, c);
    assert r.slabs == p.slabs[s := sl];
    TotalBytesStep(p, r, s, sl);
    MulSucc(p.slabs[s].nused, p.classes[c]);
    BytesOf(p, p.slabs[s], c);
    BytesOf(p, sl, c);
  }

  lemma BytesOf(p: Pool, sl: Slab, c: nat)
    requires c < |p.classes| && (sl.nused > 0 ==> sl.cache == c)
    ensures Bytes(p, sl) == sl.nused * p.classes[c]
  {
  }

  lemma TakeSlotLists(p: Pool, q: Pool, c: nat, s: nat)
    requires TakeSlotReady(p, q, c, s)
    ensures var r := TakeSlot(q, c, s).0; ListsAgree(r.lists, Homes(r))
  {
    var r, h := TakeSlot(q, c, s).0, Homes(p)[s := PartialList(c)];
    assert forall t | 0 <= t < |r.slabs| && t != s :: r.slabs[t] == p.slabs[t];
    if q.slabs[s].nused + 1 == ChunkCount(q.classes[c]) {
      MovedAgrees(q.lists, h, PartialList(c), FullList(c), s);
      assert Homes(r) == h[s := FullList(c)];
    } else {
      assert Homes(r) == h;
    }
  }

  /** What TakeSlab leaves: slab s belongs to class c, has room and is on the class's partial list. */
  ghost predicate TakeSlotReady(p: Pool, q: Pool, c: nat, s: nat) {
    && Inv(p) && c < |p.classes| && s < |p.slabs|
    && q.classes == p.classes && q.memUsed == p.memUsed && q.lists.Keys == p.lists.Keys
    && q.slabs == p.slabs[s := p.slabs[s].(cache := c)]
    && ListsAgree(q.lists, Homes(p)[s := PartialList(c)])
    && SlabOk(q, q.slabs[s]) && q.slabs[s].nused < ChunkCount(q.classes[c])
    && (p.slabs[s].nused > 0 ==> p.slabs[s].cache == c)
    && PartialList(c) in q.lists && FullList(c) in q.lists
  }

  lemma TakenHome(p: Pool, c: nat)
    requires Inv(p) && c < |p.classes|
    ensures TakeSlab(p, c).Some? ==>
              var s := TakeSlab(p, c).value.1;
              s < |p.slabs| && (Home(p, p.slabs[s]) == FreeList || Home(p, p.slabs[s]) == PartialList(c))
  {
    InvGivesLists(p, c);
    var partial, free := p.lists[PartialList(c)], p.lists[FreeList];
    if partial != [] {
      assert partial[0] in p.lists[PartialList(c)];
    } else if free != [] {
      assert free[0] in p.lists[FreeList];
    }
  }

  lemma SlabTakenIsReady(p: Pool, c: nat)
    requires Inv(p) && c < |p.classes| && TakeSlab(p, c).Some?
    ensures var (q, s) := TakeSlab(p, c).value; TakeSlotReady(p, q, c, s)
  {
    TakeSlabFacts(p, c);
    InvGivesLists(p, c);
    TakenHome(p, c);
  }

  /** A successful scmalloc is a TakeSlot from a slab that is ready to serve the class. */
  lemma MallocTakesSlot(p: Pool, size: nat) returns (q: Pool, c: nat, s: nat)
    requires Inv(p) && Malloc(p, size).1.Some?
    ensures TakeSlotReady(p, q, c, s) && c == CacheFor(p.classes, size)
    ensures Malloc(p, size) == (TakeSlot(q, c, s).0, Some(TakeSlot(q, c, s).1))
  {
    c := CacheFor(p.classes, size);
    var r := TakeSlab(p, c).value;
    q, s := r.0, r.1;
    SlabTakenIsReady(p, c);
  }

  lemma MallocNone(p: Pool, size: nat)
    requires Inv(p) && Malloc(p, size).1.None?
    ensures Malloc(p, size).0 == p
  {
  }

  /** scmalloc keeps the invariant. */
  lemma MallocKeepsInv(p: Pool, size: nat)
    requires Inv(p)
    ensures Inv(Malloc(p, size).0)
  {
    if Malloc(p, size).1.Some? {
      var q, c, s := MallocTakesSlot(p, size);
      TakeSlotSlabs(p, q, c, s);
      TakeSlotBytes(p, q, c, s);
      TakeSlotLists(p, q, c, s);
    } else {
      MallocNone(p, size);
    }
  }

  lemma TakeSlotLive(p: Pool, q: Pool, c: nat, s: nat, k: nat)
    requires TakeSlotReady(p, q, c, s) && k == LeastFree(q.slabs[s].used, 0)
    ensures var (r, a) := TakeSlot(q, c, s);
            && a == Address(s, p.classes[c], k) && a / SLAB_SIZE == s
            && !IsLive(p, a) && IsLive(r, a) && ChunkAt(r, a) == p.classes[c]
  {
    LeastFreeBelow(q.slabs[s].used, ChunkCount(q.classes[c]));
    AddressDecodes(s, p.classes[c], k);
  }

  lemma TakeSlotOthers(p: Pool, q: Pool, c: nat, s: nat, k: nat, b: nat)
    requires TakeSlotReady(p, q, c, s) && k == LeastFree(q.slabs[s].used, 0)
    requires b != Address(s, p.classes[c], k)
    ensures var r := TakeSlot(q, c, s).0;
            (IsLive(r, b) <==> IsLive(p, b)) && (IsLive(p, b) ==> ChunkAt(r, b) == ChunkAt(p, b))
  {
  }

  /** The new live offset is none of the old ones, every old one stays live with its chunk size,
      nothing else becomes live, and the chunk is large enough. */
  lemma MallocAddsOne(p: Pool, size: nat)
    requires Inv(p)
    ensures var (r, o) := Malloc(p, size);
            match o
            case None => r == p
            case Some(a) =>
              && !IsLive(p, a) && IsLive(r, a) && size <= ChunkAt(r, a)
              && (forall b: nat | b != a :: IsLive(r, b) <==> IsLive(p, b))
              && (forall b: nat | IsLive(p, b) :: IsLive(r, b) && ChunkAt(r, b) == ChunkAt(p, b))
  {
    if Malloc(p, size).1.Some? {
      var q, c, s := MallocTakesSlot(p, size);
      var k := LeastFree(q.slabs[s].used, 0);
      TakeSlotLive(p, q, c, s, k);
      forall b: nat | b != Address(s, p.classes[c], k)
        ensures IsLive(Malloc(p, size).0, b) <==> IsLive(p, b)
        ensures IsLive(p, b) ==> ChunkAt(Malloc(p, size).0, b) == ChunkAt(p, b) {
        TakeSlotOthers(p, q, c, s, k, b);
      }
    } else {
      MallocNone(p, size);
    }
  }

  lemma LiveFacts(p: Pool, a: nat)
    requires Inv(p) && IsLive(p, a)
    ensures var s := a / SLAB_SIZE; var c := p.slabs[s].cache; var k := (a % SLAB_SIZE) / p.classes[c];
            && 0 < p.slabs[s].nused <= ChunkCount(p.classes[c]) && k < ChunkCount(p.classes[c])
            && Home(p, p.slabs[s]) ==
                 (if p.slabs[s].nused == ChunkCount(p.classes[c]) then FullList(c) else PartialList(c))
  {
  }

  lemma FreeSlabs(p: Pool, a: nat)
    requires Inv(p) && IsLive(p, a)
    ensures var r := Free(p, a); forall t | 0 <= t < |r.slabs| :: SlabOk(r, r.slabs[t])
  {
  }

  lemma FreeBytes(p: Pool, a: nat)
    requires Inv(p) && IsLive(p, a)
    ensures var r := Free(p, a); r.memUsed == TotalBytes(r, r.slabs)
  {
    LiveFacts(p, a);
    var r, s := Free(p, a), a / SLAB_SIZE;
    var c := p.slabs[s].cache;
    TotalBytesStep(p, r, s, r.slabs[s]);
    MulSucc(r.slabs[s].nused, p.classes[c]);
  }

  lemma FreeLists(p: Pool, a: nat)
    requires Inv(p) && IsLive(p, a)
    ensures var r := Free(p, a); r.lists.Keys == p.lists.Keys && ListsAgree(r.lists, Homes(r))
  {
    LiveFacts(p, a);
    var r, s := Free(p, a), a / SLAB_SIZE;
    var c := p.slabs[s].cache;
    InvGivesLists(p, c);
    var src, dst := Homes(p)[s], Home(r, r.slabs[s]);
    assert Homes(r) == Homes(p)[s := dst];
    assert s in p.lists[src];
    if src != dst {
      MovedAgrees(p.lists, Homes(p), src, dst, s);
    } else {
      assert Homes(r) == Homes(p);
    }
  }

  /** scfree of a live pointer keeps the invariant. */
  lemma FreeKeepsInv(p: Pool, a: nat)
    requires Inv(p) && IsLive(p, a)
    ensures Inv(Free(p, a))
  {
    FreeSlabs(p, a);
    FreeBytes(p, a);
    FreeLists(p, a);
  }

  /** scfree ends exactly the one live offset it is given. */
  lemma FreeEndsOne(p: Pool, a: nat)
    requires Inv(p) && IsLive(p, a)
    ensures var r := Free(p, a);
            && (forall b: nat :: IsLive(r, b) <==> b != a && IsLive(p, b))
            && (forall b: nat | IsLive(r, b) :: ChunkAt(r, b) == ChunkAt(p, b))
  {
  }

  /** What scfree finds at a live offset. */
  lemma FreeFacts(p: Pool, a: nat)
    requires Inv(p) && IsLive(p, a)
    ensures var s := a / SLAB_SIZE; var c := p.slabs[s].cache; var k := (a % SLAB_SIZE) / p.classes[c];
            && k in p.slabs[s].used && k < ChunkCount(p.classes[c]) && 0 < p.slabs[s].nused
            && RelistReady(p, p.lists, c, s, p.slabs[s].nused - 1)
            && p.classes[c] <= p.memUsed
  {
    LiveFacts(p, a);
    FreeBytes(p, a);
  }
}

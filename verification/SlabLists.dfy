// The intrusive doubly linked lists of slab control blocks (src/slab.c:20-44, 168-254).
module SlabLists {
  import opened Bits
  import opened SlabPool

  /** One slab's control block. `owner` is the list the block is linked into, if any. */
  class SlabCtl {
    var nused: nat
    const nindex: nat
    const slots: BitSet
    var next: SlabCtl?
    var prev: SlabCtl?
    var cache: Cache?
    ghost var owner: SlabList?

    constructor (index: nat)
      ensures nused == 0 && nindex == index && next == null && prev == null && cache == null && owner == null
      ensures slots.Valid() && slots.used == {} && fresh(slots) && fresh(slots.words)
    {
      nused, nindex, next, prev, cache, owner := 0, index, null, null, null, null;
      slots := new BitSet();
    }
  }

  /** A size class. */
  class Cache {
    const chunkSize: nat
    const chunkCountPerSlab: nat
    const slabsFull: SlabList
    const slabsPartial: SlabList
    ghost const index: nat

    constructor (ghost c: nat, size: nat)
      requires 0 < size
      ensures index == c && chunkSize == size && chunkCountPerSlab == ChunkCount(size)
      ensures slabsFull.Valid() && slabsFull.nodes == [] && slabsFull.id == FullList(c) && fresh(slabsFull)
      ensures slabsPartial.Valid() && slabsPartial.nodes == [] && slabsPartial.id == PartialList(c)
      ensures fresh(slabsPartial)
    {
      index, chunkSize, chunkCountPerSlab := c, size, SLAB_SIZE / size;
      slabsFull := new SlabList(FullList(c));
      slabsPartial := new SlabList(PartialList(c));
    }
  }

  ghost predicate Distinct(q: seq<SlabCtl>) {
    forall i, j | 0 <= i < j < |q| :: q[i] != q[j]
  }

  /** `nodes` is the abstract value. The head's `prev` may be stale: pop does not reset it. */
  class SlabList {
    var head: SlabCtl?
    var tail: SlabCtl?
    ghost var nodes: seq<SlabCtl>
    ghost const id: ListId

    ghost predicate Valid()
      reads this, NodeSet()`next, NodeSet()`prev, NodeSet()`owner
    {
      && (nodes == [] ==> head == null && tail == null)
      && (nodes != [] ==> head == nodes[0] && tail == nodes[|nodes| - 1] && tail.next == null)
      && (forall i {:trigger nodes[i].next} | 0 <= i < |nodes| - 1 :: nodes[i].next == nodes[i + 1])
      && (forall i {:trigger nodes[i].prev} | 1 <= i < |nodes| :: nodes[i].prev == nodes[i - 1])
      && (forall n | n in nodes :: n.owner == this)
      && Distinct(nodes)
    }

    ghost function HeadSet(): set<SlabCtl>
      reads this
    {
      if head == null then {} else {head}
    }

    ghost function NodeSet(): set<SlabCtl>
      reads this
    {
      set n | n in nodes
    }

    constructor (ghost name: ListId)
      ensures Valid() && nodes == [] && id == name
    {
      head, tail, nodes, id := null, null, [], name;
    }

    /** The free list over an array of blocks, linked in index order (src/slab.c:394-406). */
    constructor Chain(ghost name: ListId, blocks: seq<SlabCtl>)
      requires blocks != [] && Distinct(blocks)
      modifies set n | n in blocks
      ensures Valid() && nodes == blocks && id == name
      ensures forall n | n in blocks :: n.nused == old(n.nused) && n.cache == old(n.cache)
    {
      head, tail, nodes, id := blocks[0], blocks[|blocks| - 1], blocks, name;
      new;
      var prevSlab: SlabCtl? := null;
      var i := 0;
      while i < |blocks|
        invariant 0 <= i <= |blocks|
        invariant head == blocks[0] && tail == blocks[|blocks| - 1] && nodes == blocks && id == name
        invariant i > 0 ==> prevSlab == blocks[i - 1]
        invariant forall j | 0 <= j < i :: blocks[j].owner == this
        invariant forall j {:trigger blocks[j].next} | 0 <= j < i ::
                    blocks[j].next == if j == |blocks| - 1 then null else blocks[j + 1]
        invariant forall j {:trigger blocks[j].prev} | 1 <= j < i :: blocks[j].prev == blocks[j - 1]
        invariant forall n | n in blocks :: n.nused == old(n.nused) && n.cache == old(n.cache)
      {
        blocks[i].prev := prevSlab;
        if i == |blocks| - 1 {
          blocks[i].next := null;
        } else {
          blocks[i].next := blocks[i + 1];
        }
        blocks[i].owner := this;
        prevSlab := blocks[i];
        i := i + 1;
      }
    }

    lemma NotLinked(item: SlabCtl)
      requires Valid() && item.owner == null
      ensures item !in nodes
    {
    }

    twostate lemma KeepsValid()
      requires old(Valid()) && head == old(head) && tail == old(tail) && nodes == old(nodes)
      requires forall n | n in nodes :: n.next == old(n.next) && n.prev == old(n.prev) && n.owner == old(n.owner)
      ensures Valid()
    {
    }

    method Peek() returns (r: SlabCtl?)
      requires Valid()
      ensures r == if nodes == [] then null else nodes[0]
    {
      r := head;
    }

    method Push(item: SlabCtl)
      requires Valid() && item.owner == null
      modifies this`head, this`tail, this`nodes, item`next, item`prev, item`owner, HeadSet()`prev
      ensures Valid() && nodes == [item] + old(nodes) && item.prev == null
    {
      item.next := head;
      item.prev := null;
      if head != null {
        head.prev := item;
      } else {
        tail := item;
      }
      head := item;
      nodes, item.owner := [item] + nodes, this;
    }

    method Pop() returns (result: SlabCtl?)
      requires Valid()
      modifies this`head, this`tail, this`nodes, HeadSet()`prev, HeadSet()`owner
      ensures Valid()
      ensures old(nodes) == [] ==> result == null && head == tail == null && nodes == []
      ensures old(nodes) != [] ==>
                && result == old(nodes)[0] && nodes == old(nodes)[1..] && result.owner == null && result.prev == null
    {
      result := null;
      if head != null {
        result := head;
        head.prev := null;
        head := head.next;
        nodes, result.owner := nodes[1..], null;
      }
      if head == null {
        tail := null;
      }
    }

    /** The tail branch of rem: the tail is not the head, so its `prev` is good. */
    method UnlinkTail(cit: SlabCtl)
      requires Valid() && cit in nodes && cit != head && cit == tail
      modifies this`tail, this`nodes, NodeSet()`next, cit`owner
      ensures Valid() && nodes == old(nodes)[..|old(nodes)| - 1] && cit.owner == null
    {
      assert tail.prev != null;
      tail.prev.next := null;
      tail := tail.prev;
      nodes, cit.owner := nodes[..|nodes| - 1], null;
    }

    /** The middle branch of rem: `cit` is not the head, so its `prev` is good. */
    method UnlinkMiddle(cit: SlabCtl, ghost k: nat)
      requires Valid() && 0 < k < |nodes| - 1 && cit == nodes[k]
      modifies this`nodes, NodeSet()`next, NodeSet()`prev, cit`owner
      ensures Valid() && nodes == old(nodes)[..k] + old(nodes)[k + 1..] && cit.owner == null
    {
      cit.prev.next := cit.next;
      cit.next.prev := cit.prev;
      nodes, cit.owner := nodes[..k] + nodes[k + 1..], null;
    }

    /** Unlinks `item` if the list holds it; the walk stops at the item. */
    method Rem(item: SlabCtl) returns (found: bool, ghost k: nat)
      requires Valid()
      modifies this`head, this`tail, this`nodes, NodeSet()`next, NodeSet()`prev, item`owner
      ensures Valid()
      ensures found == (item in old(nodes))
      ensures found ==> item.owner == null && k < |old(nodes)| && old(nodes)[k] == item
      ensures found ==> nodes == old(nodes)[..k] + old(nodes)[k + 1..]
      ensures !found ==> unchanged(this) && unchanged(old(nodes)) && unchanged(item)
    {
      var cit := head;
      k := 0;
      while cit != null
        invariant 0 <= k <= |nodes|
        invariant cit == if k < |nodes| then nodes[k] else null
        invariant item !in nodes[..k]
        decreases |nodes| - k
      {
        if cit == item {
          ghost var was := nodes;
          if cit == head {
            var _ := Pop();
          } else if cit == tail {
            UnlinkTail(cit);
          } else {
            UnlinkMiddle(cit, k);
          }
          assert nodes == was[..k] + was[k + 1..];
          return true, k;
        }
        cit := cit.next;
        k := k + 1;
      }
      return false, k;
    }
  }

  twostate predicate SameLinks(t: SlabCtl)
    reads t
  {
    t.next == old(t.next) && t.prev == old(t.prev) && t.owner == old(t.owner)
  }

  twostate predicate SameFields(l: SlabList)
    reads l
  {
    l.head == old(l.head) && l.tail == old(l.tail) && l.nodes == old(l.nodes)
  }

  /** Two lists share no block, and the head of a list is one of its blocks. */
  lemma ListsApart(src: SlabList, dest: SlabList)
    requires src != dest && src.Valid() && dest.Valid()
    ensures forall n | n in src.nodes :: n !in dest.nodes
    ensures src.HeadSet() <= src.NodeSet() && dest.HeadSet() <= dest.NodeSet()
  {
  }

  /** Moves `item` to the front of `dest` if `src` holds it. Of all the blocks, only those of `src`
      and the head of `dest` are touched. */
  method RemAndPush(src: SlabList, dest: SlabList, item: SlabCtl, ghost blocks: set<SlabCtl>)
    returns (found: bool, ghost k: nat)
    requires src != dest && src.Valid() && dest.Valid()
    requires src.NodeSet() <= blocks && dest.HeadSet() <= blocks && item in blocks
    modifies src`head, src`tail, src`nodes, dest`head, dest`tail, dest`nodes
    modifies blocks`next, blocks`prev, blocks`owner
    ensures src.Valid() && dest.Valid()
    ensures found == (item in old(src.nodes))
    ensures found ==> dest.nodes == [item] + old(dest.nodes)
    ensures found ==> k < |old(src.nodes)| && old(src.nodes)[k] == item &&
                      src.nodes == old(src.nodes)[..k] + old(src.nodes)[k + 1..]
    ensures found ==> forall t | t in blocks - old(src.NodeSet()) - old(dest.HeadSet()) :: SameLinks(t)
    ensures !found ==> SameFields(src) && SameFields(dest) && forall t | t in blocks :: SameLinks(t)
  {
    hide SlabList.Valid;
    ListsApart(src, dest);
    found, k := src.Rem(item);
    dest.KeepsValid();
    if found {
      ListsApart(src, dest);
      src.NotLinked(item);
      label Removed:
      dest.Push(item);
      src.KeepsValid@Removed();
    }
  }

  /** Moves the head of `src` to the front of `dest`; null is the source's "nothing popped". */
  method PopAndPush(src: SlabList, dest: SlabList, ghost blocks: set<SlabCtl>) returns (item: SlabCtl?)
    requires src != dest && src.Valid() && dest.Valid()
    requires src.NodeSet() <= blocks && dest.HeadSet() <= blocks
    modifies src`head, src`tail, src`nodes, dest`head, dest`tail, dest`nodes
    modifies blocks`next, blocks`prev, blocks`owner
    ensures src.Valid() && dest.Valid()
    ensures item == if old(src.nodes) == [] then null else old(src.nodes)[0]
    ensures item != null ==> src.nodes == old(src.nodes)[1..] && dest.nodes == [item] + old(dest.nodes)
    ensures item != null ==> forall t | t in blocks - old(src.NodeSet()) - old(dest.HeadSet()) :: SameLinks(t)
    ensures item == null ==> SameFields(src) && SameFields(dest) && forall t | t in blocks :: SameLinks(t)
  {
    assert src.nodes != [] ==> src.nodes[0] in src.nodes && src.nodes[0] in src.NodeSet();
    assert dest.nodes != [] ==> dest.nodes[0] in dest.nodes;
    item := src.Pop();
    if item != null {
      dest.Push(item);
    }
  }
}

// The recycling hash table: chained buckets whose freed nodes stay in place as tombstones, are
// reused by later insertions, and are carried along when the table grows (src/hashtab.c).
module HashTable {
  import opened Arithmetic
  import opened Numbers

  datatype HResult = HSUCCESS | HERROR | HEXISTS

  /** A chain node. `capacity` is the size of the block behind `key`. The ghost fields place the
      node: nodes of one bucket are numbered from the end of the chain, so `next` is one lower. */
  class Item<V> {
    var key: Key
    var klen: nat
    var capacity: nat
    var val: V
    var free: bool
    var next: Item?<V>
    ghost var bucket: nat
    ghost var pos: nat

    constructor (k: Key, v: V, n: Item?<V>, ghost b: nat, ghost p: nat)
      ensures key == k && klen == |k| && capacity == |k| + 1 && val == v && !free && next == n && bucket == b
      ensures pos == p
    {
      key, klen, capacity, val, free, next, bucket, pos := k, |k|, |k| + 1, v, false, n, b, p;
    }
  }

  /** `size`, doubled until n nodes load it below three quarters. */
  function Grown(size: nat, n: nat): (r: nat)
    requires 0 < size
    ensures size <= r && 4 * n < 3 * r
    ensures r > size ==> r % 2 == 0 && 4 * n >= 3 * (r / 2)
    decreases if 4 * n < 3 * size then 0 else 4 * n - 3 * size + 1
  {
    if 4 * n < 3 * size then size else Grown(2 * size, n)
  }

  /** The size of a table after an insertion that makes `load` items, with n nodes in its chains: it grows
      exactly if the load reaches three quarters. */
  predicate Resized(before: nat, load: int, n: nat, after: nat)
    requires 0 < before
  {
    after == if 4 * load < 3 * before then before else Grown(2 * before, n)
  }

  /** Inserting n + 1 nodes one by one gives the size that fits them, since growth within growth ends after
      one doubling. */
  lemma {:induction false} GrownStep(size: nat, n: nat, m: nat, after: nat)
    requires 0 < size && m <= n + 1 && Resized(Grown(size, n), n + 1, m, after)
    ensures after == Grown(size, n + 1)
    decreases if 4 * n < 3 * size then 0 else 4 * n - 3 * size + 1
  {
    if 4 * n >= 3 * size {
      GrownStep(2 * size, n, m, after);
    }
  }

  class HTab<V> {
    var realsize: nat
    var logsize: nat
    var count: int
    var freecount: int
    var table: array<Item?<V>>
    const hash: Key -> nat
    ghost const nil: V                   // what callers leave in freed nodes, the source's NULL
    ghost var items: set<Item<V>>        // every node of every chain
    ghost var index: map<Key, Item<V>>   // the live node of each present key

    /** HHASH: any hash function, masked to the table size (realsize is a power of two). */
    function Bucket(k: Key): nat
      requires realsize > 0
      reads this`realsize
    {
      hash(k) % realsize
    }

    /** Every node hangs below the head of its bucket, one place above its `next`. */
    ghost predicate Linked()
      reads this`realsize, this`logsize, this`table, this`items, table, items`next, items`bucket, items`pos
    {
      Headed() && Chained() && Apart()
    }

    ghost predicate Headed()
      reads this`realsize, this`logsize, this`table, this`items, table, items`bucket, items`pos
    {
      && table.Length == realsize == Pow2(logsize)
      && (forall b | 0 <= b < realsize && table[b] != null :: table[b] in items && table[b].bucket == b)
      && (forall x {:trigger x.bucket} | x in items ::
            x.bucket < realsize && table[x.bucket] != null && x.pos <= table[x.bucket].pos)
    }

    ghost predicate Chained()
      reads this`items, items`next, items`bucket, items`pos
    {
      forall x {:trigger x.next} | x in items ::
        if x.pos == 0 then x.next == null
        else x.next != null && x.next in items && x.next.bucket == x.bucket && x.next.pos == x.pos - 1
    }

    /** No two nodes of a chain have the same place. */
    ghost predicate Apart()
      reads this`items, items`bucket, items`pos
    {
      forall x, y {:trigger x.pos, y.pos} |
        x in items && y in items && x.bucket == y.bucket && x.pos == y.pos :: x == y
    }

    /** Every node is in the bucket its key hashes to, and its key block is large enough. */
    ghost predicate Keyed()
      requires realsize > 0
      reads this`realsize, this`items, items`bucket, items`key, items`klen, items`capacity
    {
      forall x | x in items :: x.bucket == Bucket(x.key) && x.klen == |x.key| < x.capacity
    }

    /** The position invariant: no node after a live node of a chain holds the same key. */
    ghost predicate Positioned()
      reads this`items, items`bucket, items`pos, items`free, items`key
    {
      forall x, y {:trigger x.pos, y.pos} |
        x in items && y in items && x.bucket == y.bucket && y.pos < x.pos && !x.free :: x.key != y.key
    }

    /** `index` names exactly the live nodes. */
    ghost predicate Indexed()
      reads this`items, this`index, items`free, items`key
    {
      && (forall k | k in index :: index[k] in items && !index[k].free && index[k].key == k)
      && (forall x {:trigger x.free} | x in items && !x.free :: x.key in index && index[x.key] == x)
    }

    ghost predicate Valid()
      reads this`realsize, this`logsize, this`table, this`items, this`index, table
      reads items`next, items`bucket, items`pos, items`key, items`klen, items`capacity, items`free
    {
      Linked() && Keyed() && Positioned() && Indexed()
    }

    /** Tombstones hold no value. */
    ghost predicate Dead()
      reads this`items, items`free, items`val
    {
      forall x | x in items && x.free :: x.val == nil
    }

    /** The finite map the table stands for. */
    ghost function Map(): map<Key, V>
      requires Indexed()
      reads this`items, this`index, items`free, items`key, items`val
    {
      map k | k in index :: index[k].val
    }

    /** hcount. */
    function HCount(): int
      reads this`count, this`freecount
    {
      count - freecount
    }

    constructor (n: nat, h: Key -> nat, ghost none: V)
      ensures Valid() && items == {} && index == map[] && HCount() == 0 && logsize == n && hash == h && nil == none
      ensures fresh(table)
    {
      logsize, realsize, count, freecount, hash, nil := n, Pow2(n), 0, 0, h, none;
      table := new Item?<V>[Pow2(n)](i => null);
      items, index := {}, map[];
    }

    /** hget: the live node of the key, null exactly when the key is absent. */
    method HGet(key: Key) returns (r: Item?<V>)
      requires Valid()
      ensures r == if key in index then index[key] else null
      ensures r != null <==> key in Map()
      ensures r != null ==> r in items && !r.free && r.key == key && r.val == Map()[key]
    {
      var h := Bucket(key);
      var p := table[h];
      while p != null
        invariant p != null ==> p in items && p.bucket == h
        invariant forall x | x in items && x.bucket == h && (p == null || x.pos > p.pos) :: x.free || x.key != key
        decreases if p == null then 0 else p.pos + 1
      {
        if !p.free {
          if p.key == key {
            return p;
          }
        }
        p := p.next;
      }
      return null;
    }

    /** The walk of hset: whether the key is present, and the last tombstone of its chain. */
    method Scan(key: Key, h: nat) returns (present: bool, slot: Item?<V>)
      requires Valid() && h == Bucket(key)
      ensures present <==> key in index
      ensures !present && slot != null ==> slot in items && slot.bucket == h && slot.free
      ensures !present ==> forall x | x in items && x.bucket == h && x.free :: slot != null && slot.pos <= x.pos
    {
      var p := table[h];
      slot := null;
      while p != null
        invariant p != null ==> p in items && p.bucket == h
        invariant forall x | x in items && x.bucket == h && (p == null || x.pos > p.pos) :: x.free || x.key != key
        invariant slot != null ==> slot in items && slot.bucket == h && slot.free && (p == null || slot.pos > p.pos)
        invariant forall x | x in items && x.bucket == h && x.free && (p == null || x.pos > p.pos) ::
                    slot != null && slot.pos <= x.pos
        decreases if p == null then 0 else p.pos + 1
      {
        if p.key == key && !p.free {
          return true, slot;
        }
        if p.free {
          slot := p;
        }
        p := p.next;
      }
      return false, slot;
    }

    twostate predicate SameNode(x: Item<V>)
      reads x
    {
      && x.key == old(x.key) && x.klen == old(x.klen) && x.capacity == old(x.capacity) && x.free == old(x.free)
      && x.next == old(x.next) && x.bucket == old(x.bucket) && x.pos == old(x.pos)
    }

    /** Making the last tombstone of a chain live with a key that no live node has keeps the
        position invariant: all nodes after it are live. */
    twostate lemma ReuseKeepsPosition(new slot: Item<V>, new key: Key)
      requires old(Positioned()) && old(Indexed()) && items == old(items) && slot in items && key !in old(index)
      requires old(slot.free) && forall x | x in items && x.bucket == slot.bucket && old(x.free) :: slot.pos <= x.pos
      requires forall x | x in items && x != slot :: SameNode(x)
      requires slot.bucket == old(slot.bucket) && slot.pos == old(slot.pos) && slot.key == key && !slot.free
      ensures Positioned()
    {
      forall x, y | x in items && y in items && x.bucket == y.bucket && y.pos < x.pos && !x.free
        ensures x.key != y.key {
        if y != slot {
          assert x == slot ==> !old(y.free);
        }
      }
    }

    twostate lemma ReuseKeepsKeys(new slot: Item<V>, new key: Key)
      requires realsize == old(realsize) > 0 && old(Keyed()) && items == old(items)
      requires forall x | x in items && x != slot :: SameNode(x)
      requires slot.bucket == Bucket(key) && slot.key == key && slot.klen == |key| < slot.capacity
      ensures Keyed()
    {
      hide Bucket;
    }

    /** A node that was not live becomes the live node of a new key. */
    twostate lemma IndexAdds(new slot: Item<V>, new key: Key)
      requires old(Indexed()) && key !in old(index) && index == old(index)[key := slot]
      requires items == old(items) + {slot} && (slot in old(items) ==> old(slot.free)) && slot.key == key && !slot.free
      requires forall x | x in old(items) && x != slot :: x.key == old(x.key) && x.free == old(x.free)
      ensures Indexed()
    {
    }

    /** Reuses the last tombstone of the chain. The key block is replaced when it is too small. */
    method Reuse(key: Key, h: nat, val: V, slot: Item<V>)
      requires Valid() && h == Bucket(key) && key !in index
      requires slot in items && slot.bucket == h && slot.free
      requires forall x | x in items && x.bucket == h && x.free :: slot.pos <= x.pos
      modifies this`freecount, this`index, slot`key, slot`klen, slot`capacity, slot`val, slot`free
      ensures Valid() && index == old(index)[key := slot] && slot.val == val && (old(Dead()) ==> Dead())
      ensures HCount() == old(HCount()) + 1
    {
      hide Bucket, Linked, Keyed, Positioned, Indexed;
      SlotBlock(slot);
      if slot.klen < |key| + 1 {
        slot.capacity := |key| + 1;
      }
      assert |key| + 1 <= slot.capacity;
      slot.key := key;
      slot.klen := |key|;
      slot.val := val;
      slot.free := false;
      freecount := freecount - 1;
      index := index[key := slot];
      ReuseKeepsKeys(slot, key);
      ReuseKeepsPosition(slot, key);
      IndexAdds(slot, key);
    }

    lemma SlotBlock(slot: Item<V>)
      requires Valid() && slot in items
      ensures slot.klen < slot.capacity && realsize > 0
    {
    }

    /** A node linked in front of chain `h`, the nodes of before unchanged. */
    twostate predicate Pushed(new h: nat, new item: Item<V>)
      requires old(Headed()) && table == old(table) && realsize == old(realsize) && h < realsize
      reads this, table, items
    {
      && item !in old(items) && items == old(items) + {item} && item.bucket == h && item.next == old(table[h])
      && item.pos == (if old(table[h]) == null then 0 else old(table[h].pos) + 1)
      && table[h] == item && (forall b | 0 <= b < realsize && b != h :: table[b] == old(table[b]))
      && (forall x | x in old(items) :: SameNode(x))
    }

    twostate lemma PushKeepsHeads(new h: nat, new item: Item<V>)
      requires old(Headed()) && realsize == old(realsize) && logsize == old(logsize) && table == old(table)
      requires h < realsize && Pushed(h, item)
      ensures Headed()
    {
    }

    twostate lemma PushKeepsChains(new h: nat, new item: Item<V>)
      requires old(Headed()) && old(Chained()) && realsize == old(realsize) && table == old(table)
      requires h < realsize && Pushed(h, item)
      ensures Chained()
    {
    }

    twostate lemma PushKeepsPlaces(new h: nat, new item: Item<V>)
      requires old(Headed()) && old(Apart()) && realsize == old(realsize) && table == old(table)
      requires h < realsize && Pushed(h, item)
      ensures Apart()
    {
    }

    twostate lemma PushKeepsPosition(new item: Item<V>)
      requires old(Positioned()) && old(Indexed()) && items == old(items) + {item} && item !in old(items)
      requires item.key !in old(index)
      requires forall x | x in old(items) :: SameNode(x)
      requires forall x | x in old(items) && x.bucket == item.bucket :: x.pos < item.pos && !x.free
      ensures Positioned()
    {
    }

    twostate lemma PushKeepsKeys(new item: Item<V>)
      requires realsize == old(realsize) > 0 && old(Keyed()) && items == old(items) + {item} && item !in old(items)
      requires forall x | x in old(items) :: SameNode(x)
      requires item.bucket == Bucket(item.key) && item.klen == |item.key| < item.capacity
      ensures Keyed()
    {
      hide Bucket;
    }

    lemma HeadFacts(key: Key, h: nat)
      requires Valid() && h == Bucket(key)
      ensures h < realsize == table.Length && (table[h] != null ==> table[h] in items)
      ensures forall x | x in items && x.bucket == h :: table[h] != null && x.pos <= table[h].pos
    {
    }

    /** Adds a node to the front of a chain without tombstones. */
    method PushFront(key: Key, h: nat, val: V) returns (item: Item<V>)
      requires Valid() && h == Bucket(key) && key !in index
      requires forall x | x in items && x.bucket == h :: !x.free
      modifies this`count, this`items, this`index, table
      ensures Valid() && fresh(item) && items == old(items) + {item} && index == old(index)[key := item]
      ensures item.val == val
      ensures HCount() == old(HCount()) + 1 && (old(Dead()) ==> Dead())
    {
      hide Bucket, Headed, Chained, Apart, Keyed, Positioned, Indexed;
      HeadFacts(key, h);
      item := new Item(key, val, table[h], h, if table[h] == null then 0 else table[h].pos + 1);
      table[h] := item;
      count := count + 1;
      items := items + {item};
      index := index[key := item];
      PushKeepsHeads(h, item);
      PushKeepsChains(h, item);
      PushKeepsPlaces(h, item);
      PushKeepsKeys(item);
      PushKeepsPosition(item);
      IndexAdds(item, key);
    }

    // ----- freeing ----------------------------------------------------------------------------

    twostate lemma IndexDrops(new item: Item<V>)
      requires old(Valid()) && items == old(items) && item in items && !old(item.free) && item.free
      requires index == old(index) - {item.key}
      requires forall x | x in items :: x.key == old(x.key) && x.bucket == old(x.bucket) && x.pos == old(x.pos)
      requires forall x | x in items && x != item :: x.free == old(x.free)
      ensures Positioned() && Indexed()
    {
    }

    /** Sets the flag of a live node; a freed node stays in its chain. */
    method SetFlag(item: Item<V>, f: bool)
      requires Valid() && item in items && !item.free
      modifies item`free, this`index
      ensures Valid() && index == if f then old(index) - {item.key} else old(index)
      ensures Map() == if f then old(Map()) - {item.key} else old(Map())
      ensures item.free == f && (old(Dead()) && (f ==> item.val == nil) ==> Dead())
    {
      hide Bucket, Linked, Keyed, Positioned;
      item.free := f;
      if f {
        index := index - {item.key};
        IndexDrops(item);
      }
    }

    /** hfree: a freed node stays in its chain; freeing it again does nothing. */
    method HFree(item: Item<V>)
      requires Valid() && item in items
      modifies item`free, this`index, this`freecount
      ensures Valid() && Map() == if old(item.free) then old(Map()) else old(Map()) - {item.key}
      ensures HCount() == if old(item.free) then old(HCount()) else old(HCount()) - 1
      ensures item.free && (old(Dead()) && item.val == nil ==> Dead())
    {
      hide Bucket, Linked, Keyed, Positioned, Indexed, Map;
      if !item.free {
        SetFlag(item, true);
        freecount := freecount + 1;
      }
    }

    /** Storing into the value of a live node changes the map at its key. */
    twostate lemma ValueStored(new item: Item<V>, new v: V)
      requires old(Valid()) && Valid() && items == old(items) && index == old(index)
      requires item in items && !item.free && item.val == v
      requires forall x | x in items && x != item :: x.val == old(x.val)
      ensures Map() == old(Map())[item.key := v]
    {
      hide Bucket, Linked, Keyed, Positioned;
    }

    // ----- insertion and growth -----------------------------------------------------------------

    twostate lemma MapAdds(new slot: Item<V>, new key: Key, new val: V)
      requires old(Indexed()) && Indexed() && key !in old(index) && index == old(index)[key := slot] && slot.val == val
      requires forall x | x in old(items) && x != slot :: x.val == old(x.val)
      requires slot !in old(items) || old(slot.free)
      ensures Map() == old(Map())[key := val]
    {
    }

    /** Gives an absent key a node: the chosen tombstone if there is one, else a new node. */
    method Insert(key: Key, h: nat, val: V, slot: Item?<V>)
      requires Valid() && h == Bucket(key) && key !in index
      requires slot != null ==> slot in items && slot.bucket == h && slot.free
      requires forall x | x in items && x.bucket == h && x.free :: slot != null && slot.pos <= x.pos
      modifies this`count, this`freecount, this`items, this`index, table, items
      ensures Valid() && Map() == old(Map())[key := val] && HCount() == old(HCount()) + 1 && (old(Dead()) ==> Dead())
      ensures fresh(items - old(items)) && if slot != null then items == old(items) else |items| == |old(items)| + 1
    {
      hide Bucket, Linked, Keyed, Positioned;
      if slot != null {
        Reuse(key, h, val, slot);
        MapAdds(slot, key, val);
      } else {
        var item := PushFront(key, h, val);
        MapAdds(item, key, val);
      }
    }

    lemma TableFacts()
      requires Valid()
      ensures Map().Keys == index.Keys && realsize > 0
    {
    }

    /** hset. Inserting the key counts one more item, even in a table that is being filled by a
        rehash, where the counters are not the number of live nodes. `depth` bounds how deep growth
        can nest: an insertion at depth 0 never triggers it. */
    method HSet(key: Key, val: V, ghost depth: nat) returns (r: HResult)
      requires Valid() && 4 * HCount() < 3 * realsize
      requires depth == 0 ==> 4 * (HCount() + 1) < 3 * realsize
      requires depth == 1 ==> |items| <= HCount()
      modifies this, table, items
      ensures Valid() && fresh(items - old(items)) && (table == old(table) || fresh(table))
      ensures r == HEXISTS <==> key in old(Map())
      ensures r == HEXISTS ==> Map() == old(Map()) && HCount() == old(HCount()) && items == old(items)
      ensures r != HEXISTS ==> r == HSUCCESS && Map() == old(Map())[key := val] && HCount() == old(HCount()) + 1
      ensures realsize >= old(realsize) && 4 * HCount() < 3 * realsize && |items| <= |old(items)| + 1
      ensures old(Dead()) ==> Dead()
      ensures r == HEXISTS ==> table == old(table) && realsize == old(realsize)
      ensures r == HSUCCESS && table == old(table) ==> (items == old(items) <==> old(Recycles(key)))
      ensures r == HSUCCESS ==>
                Resized(old(realsize), HCount(), old(|items| + if Recycles(key) then 0 else 1), realsize)
      decreases depth, 3
    {
      hide Bucket, Linked, Keyed, Positioned, Map, Indexed;
      TableFacts();
      var h := Bucket(key);
      var present, slot := Scan(key, h);
      if present {
        return HEXISTS;
      }
      TombstoneFound(key, slot);
      Insert(key, h, val, slot);
      if 4 * (count - freecount) >= 3 * realsize {
        var ok := HGrow(depth);
        if !ok {
          return HERROR;
        }
      }
      return HSUCCESS;
    }

    /** The chain of the key has a tombstone. */
    ghost predicate Recycles(key: Key)
      requires realsize > 0
      reads this`realsize, this`items, items`bucket, items`free
    {
      exists x :: x in items && x.bucket == Bucket(key) && x.free
    }

    lemma TombstoneFound(key: Key, slot: Item?<V>)
      requires realsize > 0
      requires slot != null ==> slot in items && slot.bucket == Bucket(key) && slot.free
      requires forall x | x in items && x.bucket == Bucket(key) && x.free :: slot != null
      ensures Recycles(key) <==> slot != null
    {
      hide Bucket;
    }

    /** The part of the map whose nodes are in `done`. */
    ghost function DoneMap(done: set<Item<V>>): map<Key, V>
      requires Indexed()
      reads this`items, this`index, items`free, items`key, items`val
    {
      map k | k in index && index[k] in done :: index[k].val
    }

    lemma DoneMapStep(done: set<Item<V>>, p: Item<V>)
      requires Valid() && p in items && p.key !in DoneMap(done)
      ensures DoneMap(done + {p}) == if p.free then DoneMap(done) else DoneMap(done)[p.key := p.val]
    {
      hide Bucket;
      if !p.free {
        assert index[p.key] == p;
      }
    }

    /** A node not done yet holds no key that has been copied: a live node with the same key would
        be in the same bucket and before it, which the position invariant excludes. */
    lemma NotYetCopied(done: set<Item<V>>, p: Item<V>)
      requires Valid() && p in items && p !in done
      requires forall x | x in done && x.bucket == p.bucket :: x.pos > p.pos
      ensures p.key !in DoneMap(done)
    {
      hide Bucket;
    }

    /** How far a rehash of `this` into `other` has come. */
    ghost predicate Rehashing(other: HTab<V>, done: set<Item<V>>)
      reads this, table, items, other, other.table, other.items
    {
      && Valid() && other.Valid() && other != this && other.hash == hash && other.nil == nil && done <= items
      && items !! other.items && table != other.table
      && other.Map() == DoneMap(done) && (Dead() ==> other.Dead())
      && other.HCount() == |done| && |other.items| <= |done|
      && 0 < realsize && other.realsize == Grown(2 * realsize, |done|)
    }

    lemma ProperSubset(done: set<Item<V>>, p: Item<V>)
      requires done <= items && p in items && p !in done
      ensures |done + {p}| == |done| + 1 <= |items|
    {
      assert items == (done + {p}) + (items - (done + {p}));
    }

    /** Copies one node. The fresh table has no more nodes than insertions, so growth triggered in
        here does not nest again, and within that growth nothing triggers it. */
    method CopyNode(dummy: HTab<V>, p: Item<V>, ghost done: set<Item<V>>, ghost depth: nat) returns (ok: bool)
      requires Rehashing(dummy, done) && p in items && p !in done && depth > 0
      requires forall x | x in done && x.bucket == p.bucket :: x.pos > p.pos
      requires 4 * (HCount() - 1) < 3 * realsize && (depth == 1 ==> |items| <= HCount())
      modifies dummy, dummy.table, dummy.items
      ensures ok && Rehashing(dummy, done + {p})
      ensures fresh(dummy.items - old(dummy.items)) && (dummy.table == old(dummy.table) || fresh(dummy.table))
      decreases depth, 0
    {
      hide *;
      RehashFacts(dummy, done, p);
      NotYetCopied(done, p);
      ProperSubset(done, p);
      DoneMapStep(done, p);
      AddThenDrop(dummy.Map(), p.key, p.val);
      ghost var before := dummy.realsize;
      var it := dummy.SetAndGet(p.key, p.val, depth - 1);
      ghost var n: nat :| n <= |done| + 1 && Resized(before, |done| + 1, n, dummy.realsize);
      GrownStep(2 * realsize, |done|, n, dummy.realsize);
      if it == null {
        assert false;
        return false;
      }
      dummy.SetFlag(it, p.free);
      Copied(dummy, done, p);
      return true;
    }

    lemma RehashFacts(other: HTab<V>, done: set<Item<V>>, p: Item<V>)
      requires Rehashing(other, done) && p in items
      ensures Valid() && other.Valid() && other != this && other.hash == hash && other.nil == nil && done <= items
      ensures items !! other.items && table != other.table && Indexed() && other.Indexed()
      ensures other.Map() == DoneMap(done) && (Dead() ==> other.Dead() && (p.free ==> p.val == nil))
      ensures other.HCount() == |done| && |other.items| <= |done|
      ensures 0 < realsize && other.realsize == Grown(2 * realsize, |done|)
      ensures 4 * other.HCount() < 3 * other.realsize
    {
      hide Map, DoneMap;
    }

    lemma Copied(other: HTab<V>, done: set<Item<V>>, p: Item<V>)
      requires Valid() && other.Valid() && other != this && other.hash == hash && other.nil == nil && done <= items
      requires p in items && |done + {p}| == |done| + 1 && items !! other.items && table != other.table
      requires other.Map() == DoneMap(done + {p}) && (Dead() ==> other.Dead())
      requires other.HCount() == |done| + 1 && |other.items| <= |done| + 1
      requires 0 < realsize && other.realsize == Grown(2 * realsize, |done| + 1)
      ensures Rehashing(other, done + {p})
    {
      hide Map, DoneMap;
    }

    /** The insertion and lookup of one rehash step; neither fails for an absent key. */
    method SetAndGet(key: Key, val: V, ghost depth: nat) returns (it: Item?<V>)
      requires Valid() && 4 * HCount() < 3 * realsize && key !in Map()
      requires depth == 0 ==> 4 * (HCount() + 1) < 3 * realsize
      requires depth == 1 ==> |items| <= HCount()
      modifies this, table, items
      ensures Valid() && fresh(items - old(items)) && (table == old(table) || fresh(table))
      ensures Map() == old(Map())[key := val] && HCount() == old(HCount()) + 1
      ensures 4 * HCount() < 3 * realsize && |items| <= |old(items)| + 1
      ensures exists n: nat :: n <= |old(items)| + 1 && Resized(old(realsize), HCount(), n, realsize)
      ensures old(Dead()) ==> Dead()
      ensures it != null && it in items && !it.free && it.key == key && it.val == val
      decreases depth, 4
    {
      hide Bucket, Linked, Keyed, Positioned, Indexed, Map;
      var r := HSet(key, val, depth);
      if r != HSUCCESS {
        assert false;
        return null;
      }
      PresentNode(key);
      it := HGet(key);
    }

    lemma AddThenDrop(m: map<Key, V>, k: Key, v: V)
      requires k !in m
      ensures m[k := v] - {k} == m
    {
    }

    lemma PresentNode(key: Key)
      requires Valid() && key in Map()
      ensures key in index && index[key] in items && !index[key].free && index[key].key == key
      ensures index[key].val == Map()[key]
    {
    }

    // ----- the walk over all nodes --------------------------------------------------------------

    ghost function Lower(i: nat): set<Item<V>>
      reads this`items, items`bucket
    {
      set x | x in items && x.bucket < i
    }

    /** The nodes visited when bucket i is walked down to p, exclusively. */
    ghost function Visited(i: nat, p: Item?<V>): set<Item<V>>
      reads this`items, items`bucket, items`pos, p
    {
      set x | x in items && (x.bucket < i || (x.bucket == i && (p == null || x.pos > p.pos)))
    }

    lemma EnterBucket(i: nat)
      requires Linked() && i < realsize
      ensures Visited(i, table[i]) == Lower(i) && (table[i] != null ==> table[i] in items && table[i].bucket == i)
    {
    }

    lemma Advance(i: nat, p: Item<V>)
      requires Linked() && p in items && p.bucket == i
      ensures Visited(i, p.next) == Visited(i, p) + {p} && p !in Visited(i, p)
      ensures p.next != null ==> p.next in items && p.next.bucket == i && p.next.pos < p.pos
    {
    }

    lemma LeaveBucket(i: nat)
      ensures Visited(i, null) == Lower(i + 1)
    {
    }

    lemma AllVisited()
      requires Linked()
      ensures Lower(realsize) == items && Lower(0) == {}
    {
    }

    /** _hgrow up to the swap: every node is inserted into a table twice the size as if it were
        live, and tombstones are marked again right after. */
    method Rehash(ghost depth: nat) returns (ok: bool, dummy: HTab<V>)
      requires Valid() && depth > 0 && 4 * (HCount() - 1) < 3 * realsize
      requires depth == 1 ==> |items| <= HCount()
      ensures ok && fresh(dummy) && fresh(dummy.table) && fresh(dummy.items) && Rehashing(dummy, items)
      decreases depth, 1
    {
      hide Bucket, Linked, Keyed, Positioned, Indexed, Rehashing, Lower;
      dummy := new HTab<V>(logsize + 1, hash, nil);
      RehashStarts(dummy);
      AllVisited();
      ghost var done: set<Item<V>> := {};
      var i := 0;
      while i < realsize
        invariant 0 <= i <= realsize
        invariant fresh(dummy) && fresh(dummy.table) && fresh(dummy.items) && Rehashing(dummy, done)
        invariant done == Lower(i)
      {
        EnterBucket(i);
        var p := table[i];
        while p != null
          invariant fresh(dummy) && fresh(dummy.table) && fresh(dummy.items) && Rehashing(dummy, done)
          invariant p != null ==> p in items && p.bucket == i
          invariant done == Visited(i, p)
          decreases if p == null then 0 else p.pos + 1
        {
          Advance(i, p);
          var next := p.next;
          ok := CopyNode(dummy, p, done, depth);
          if !ok {
            assert false;
            return false, dummy;
          }
          done := done + {p};
          p := next;
        }
        LeaveBucket(i);
        i := i + 1;
      }
      return true, dummy;
    }

    lemma RehashStarts(dummy: HTab<V>)
      requires Valid() && dummy.Valid() && dummy != this && dummy.hash == hash && dummy.nil == nil
      requires table != dummy.table
      requires dummy.items == {} && dummy.index == map[] && dummy.HCount() == 0 && dummy.logsize == logsize + 1
      ensures Rehashing(dummy, {}) && table.Length == realsize
    {
      hide Bucket;
      assert dummy.realsize == Pow2(logsize + 1) == 2 * Pow2(logsize);
    }

    /** _hgrow: the copied chains replace the old ones; the counters stay. */
    method HGrow(ghost depth: nat) returns (ok: bool)
      requires Valid() && depth > 0 && 4 * (HCount() - 1) < 3 * realsize
      requires depth == 1 ==> |items| <= HCount()
      modifies this`table, this`realsize, this`logsize, this`items, this`index
      ensures ok && Valid() && Map() == old(Map()) && realsize == Grown(2 * old(realsize), |old(items)|)
      ensures |items| <= |old(items)| && fresh(items) && fresh(table) && (old(Dead()) ==> Dead())
      decreases depth, 2
    {
      hide Bucket, Linked, Keyed, Positioned, Indexed, Map, DoneMap;
      var dummy;
      ok, dummy := Rehash(depth);
      AllDone();
      table := dummy.table;
      logsize := dummy.logsize;
      realsize := dummy.realsize;
      items, index := dummy.items, dummy.index;
      SameContents(dummy);
    }

    lemma AllDone()
      requires Indexed()
      ensures DoneMap(items) == Map()
    {
    }

    lemma SameContents(dummy: HTab<V>)
      requires dummy.Valid() && dummy.hash == hash && dummy.nil == nil && table == dummy.table
      requires logsize == dummy.logsize
      requires realsize == dummy.realsize && items == dummy.items && index == dummy.index
      ensures Valid() && Map() == dummy.Map() && Dead() == dummy.Dead()
    {
    }
  }
}


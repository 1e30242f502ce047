// The command executor: the hash table of cached requests, the counters, the setting, and which
// heap blocks are live (src/lightcache.c:90-153, 241-451).
module Executor {
  import opened Common
  import opened Numbers
  import opened Wire
  import opened Commands
  import opened HashTable

  /** A request block with the buffers it owns. The raw header bytes are part of the block. */
  class Request {
    const header: array<byte>
    var opcode: byte
    var keyLength: nat
    var dataLength: nat
    var extraLength: nat
    var rkey: array?<byte>
    var rdata: array?<byte>
    var rextra: array?<byte>
    var rbytes: nat
    var received: int
    var canFree: bool
    ghost var blocks: set<array<byte>>

    constructor ()
      ensures header.Length == REQ_HEADER_SIZE && fresh(header)
      ensures rbytes == 0 && rkey == null && rdata == null && rextra == null && canFree
      ensures Whole()
    {
      header := new byte[REQ_HEADER_SIZE](i => 0);
      opcode, keyLength, dataLength, extraLength, received := 0, 0, 0, 0, 0;
      rbytes, rkey, rdata, rextra, canFree := 0, null, null, null, true;
      blocks := {header};
    }

    /** `blocks` are the heap blocks of this request, which are all different. The block of the
        struct itself goes by its first member, the header bytes. */
    ghost predicate Whole()
      reads this`blocks, this`rkey, this`rdata, this`rextra
    {
      && blocks == {header} + (if rkey == null then {} else {rkey})
                   + (if rdata == null then {} else {rdata}) + (if rextra == null then {} else {rextra})
      && (rkey != null ==> rkey != rdata && rkey != rextra && rkey != header)
      && (rdata != null ==> rdata != rextra && rdata != header)
      && rextra != header
    }

    /** A buffer holding `s`, with its terminating NUL; NULL for nothing. */
    static ghost predicate Holds(b: array?<byte>, s: seq<byte>)
      reads b
    {
      if s == [] then b == null else b != null && b[..] == s + [0]
    }

    /** This request is the message m, completely received. A length counts only for a part that is
        read at all. */
    ghost predicate Is(m: Msg)
      reads this`opcode, this`keyLength, this`dataLength, this`rkey, this`rdata, this`rextra
      reads rkey, rdata, rextra
    {
      && m.Request? && opcode == m.opcode
      && (m.key != [] ==> keyLength == |m.key|) && (m.data != [] ==> dataLength == |m.data|)
      && Holds(rkey, m.key) && Holds(rdata, m.data) && Holds(rextra, m.extra)
    }

    lemma KeyIs(m: Msg)
      requires Is(m) && m.key != []
      ensures rkey != null && keyLength < rkey.Length && rkey[..keyLength] == m.key
    {
    }
  }

  /** Request q is cached under k: its blocks are held for k. */
  ghost predicate Owned<K>(held: map<array<byte>, K>, k: K, q: Request)
    reads q`blocks, q`rkey, q`rdata, q`rextra
  {
    && q.header in q.blocks && q.Whole()
    && (forall b | b in q.blocks :: b in held && held[b] == k)
  }

  /** Request q stands for entry e; its timeout still parses. */
  ghost predicate Matches(q: Request, e: Entry)
    reads q`rkey, q`rdata, q`rextra, q`dataLength, q`received, q.rdata, q.rextra
  {
    && q.rkey != null && q.rdata != null && q.rextra != null
    && q.rdata.Length == q.dataLength + 1 && q.rdata[..q.dataLength] == e.data && e.data != []
    && q.dataLength < MAX_DATA_SIZE
    && Atoull(q.rextra[..]) == Some(e.timeout)
    && q.received == e.setTime
  }

  lemma MatchesMeans(q: Request, e: Entry)
    requires Matches(q, e)
    ensures q.rdata != null && q.rextra != null && q.dataLength < q.rdata.Length && q.rdata[..q.dataLength] == e.data
    ensures q.dataLength < MAX_DATA_SIZE
    ensures Atoull(q.rextra[..]) == Some(e.timeout) && q.received == e.setTime
  {
  }

  ghost predicate Stored<K>(held: map<array<byte>, K>, k: K, q: Request, e: Entry)
    reads q`blocks, q`rkey, q`rdata, q`rextra, q`dataLength, q`received, held.Keys
  {
    && Owned(held, k, q)
    && (q.rdata != null ==> q.rdata in held) && (q.rextra != null ==> q.rextra in held)
    && Matches(q, e)
  }

  /** The cached requests m, all in `rs`, are exactly the entries of `store`, and every held block
      belongs to the request of one key. */
  ghost predicate StoreOk<K>(m: map<K, Request?>, held: map<array<byte>, K>, store: map<K, Entry>, rs: set<Request>)
    reads rs`blocks, rs`rkey, rs`rdata, rs`rextra, rs`dataLength, rs`received, held.Keys
  {
    && m.Keys == store.Keys
    && (forall k | k in m :: m[k] != null && m[k] in rs && Stored(held, k, m[k], store[k]))
    && (forall b | b in held :: held[b] in m && b in m[held[b]].blocks)
    && (forall q | q in rs :: q.header in held && held[q.header] in m && m[held[q.header]] == q)
  }

  /** The blocks held for other keys than k. */
  ghost function Without<K>(held: map<array<byte>, K>, k: K): map<array<byte>, K> {
    map b | b in held && held[b] != k :: held[b]
  }

  lemma HeldBlocks<K>(m: map<K, Request?>, held: map<array<byte>, K>, store: map<K, Entry>, rs: set<Request>, k: K)
    requires StoreOk(m, held, store, rs) && k in m
    ensures m[k] != null && m[k].Whole() && m[k].blocks <= held.Keys && m[k] in rs
    ensures Without(held, k).Keys == held.Keys - m[k].blocks
  {
    hide Matches, Request.Whole;
    assert Stored(held, k, m[k], store[k]);
  }

  ghost function BlocksOf<K>(held: map<array<byte>, K>, k: K): set<array<byte>> {
    set b | b in held && held[b] == k
  }

  lemma FourBlocks<K>(m: map<K, Request?>, held: map<array<byte>, K>, store: map<K, Entry>, rs: set<Request>, k: K)
    requires StoreOk(m, held, store, rs) && k in m
    ensures |BlocksOf(held, k)| == 4
  {
    hide Owned, Matches, BlocksOf;
    assert Stored(held, k, m[k], store[k]);
    FourParts(held, k, m[k], store[k]);
    assert BlocksOf(held, k) == m[k].blocks by {
      ExactlyBlocks(m, held, store, rs, k);
    }
  }

  lemma FourParts<K>(held: map<array<byte>, K>, k: K, q: Request, e: Entry)
    requires Owned(held, k, q) && Matches(q, e)
    ensures |q.blocks| == 4
  {
    hide Atoull;
  }

  lemma ExactlyBlocks<K>(m: map<K, Request?>, held: map<array<byte>, K>, store: map<K, Entry>, rs: set<Request>, k: K)
    requires StoreOk(m, held, store, rs) && k in m && m[k] != null
    ensures BlocksOf(held, k) == m[k].blocks
  {
    hide Matches, Request.Whole;
    assert Stored(held, k, m[k], store[k]);
  }

  /** If every key has four blocks, there are four times as many blocks as keys. */
  lemma {:induction false} CountBlocks<K>(held: map<array<byte>, K>, ks: set<K>)
    requires forall b | b in held :: held[b] in ks
    requires forall k | k in ks :: |BlocksOf(held, k)| == 4
    ensures |held.Keys| == 4 * |ks|
    decreases |ks|
  {
    if ks == {} {
      assert held.Keys == {};
    } else {
      var k :| k in ks;
      var rest := Without(held, k);
      forall x | x in ks - {k}
        ensures |BlocksOf(rest, x)| == 4 {
        assert BlocksOf(rest, x) == BlocksOf(held, x);
      }
      CountBlocks(rest, ks - {k});
      assert held.Keys == rest.Keys + BlocksOf(held, k);
    }
  }

  lemma HeaderOwner<K>(held: map<array<byte>, K>, k: K, q: Request, e: Entry)
    requires Stored(held, k, q, e)
    ensures q.header in held && held[q.header] == k
  {
  }

  lemma StoredWithout<K>(held: map<array<byte>, K>, k: K, x: K, q: Request, e: Entry)
    requires Stored(held, x, q, e) && x != k
    ensures Stored(Without(held, k), x, q, e)
    ensures forall b | b in q.blocks :: b in Without(held, k)
  {
    hide Matches;
  }

  /** Taking one key out of the cache leaves the others as they are. */
  lemma DropKeepsStore<K>(m: map<K, Request?>, held: map<array<byte>, K>, store: map<K, Entry>, rs: set<Request>, k: K)
    requires StoreOk(m, held, store, rs) && k in m
    ensures StoreOk(m - {k}, Without(held, k), store - {k}, rs - {m[k]})
  {
    hide Matches, Request.Whole, Owned;
    var held', q := Without(held, k), m[k];
    HeldBlocks(m, held, store, rs, k);
    forall x | x in m && x != k
      ensures m[x] != null && m[x] in rs - {q} && Stored(held', x, m[x], store[x]) {
      assert Stored(held, x, m[x], store[x]) && Stored(held, k, q, store[k]);
      HeaderOwner(held, x, m[x], store[x]);
      HeaderOwner(held, k, q, store[k]);
      StoredWithout(held, k, x, m[x], store[x]);
    }
  }

  ghost function With<K>(held: map<array<byte>, K>, k: K, bs: set<array<byte>>): map<array<byte>, K> {
    held + (map b | b in bs :: k)
  }

  lemma StoredWith<K>(held: map<array<byte>, K>, k: K, x: K, q: Request, e: Entry, bs: set<array<byte>>)
    requires Stored(held, x, q, e) && bs !! held.Keys
    ensures Stored(With(held, k, bs), x, q, e)
  {
    hide Matches;
  }

  /** Caching a request under an absent key. */
  lemma AddKeepsStore<K>(m: map<K, Request?>, held: map<array<byte>, K>, store: map<K, Entry>, rs: set<Request>,
                         k: K, q: Request, e: Entry)
    requires StoreOk(m, held, store, rs) && k !in m && q.blocks !! held.Keys
    requires q.header in q.blocks && q.Whole() && Matches(q, e)
    ensures StoreOk(m[k := q], With(held, k, q.blocks), store[k := e], rs + {q})
  {
    hide Matches, Request.Whole, Owned;
    var held' := With(held, k, q.blocks);
    StoredNew(held, k, q, e);
    forall x | x in m
      ensures m[x] != null && m[x] in rs && Stored(held', x, m[x], store[x]) {
      assert Stored(held, x, m[x], store[x]);
      StoredWith(held, k, x, m[x], store[x], q.blocks);
    }
  }

  lemma StoredNew<K>(held: map<array<byte>, K>, k: K, q: Request, e: Entry)
    requires q.header in q.blocks && q.Whole() && Matches(q, e)
    ensures Stored(With(held, k, q.blocks), k, q, e)
  {
    hide Matches;
  }

  lemma BothAbsent<K>(m: map<K, Request?>, held: map<array<byte>, K>, store: map<K, Entry>, rs: set<Request>, k: K)
    requires StoreOk(m, held, store, rs) && k !in m
    ensures store - {k} == store
  {
    hide Stored;
  }

  lemma ReplaceCount<K, V>(m: map<K, V>, k: K, v: V)
    requires k in m
    ensures m[k := v] == (m - {k})[k := v] && |m[k := v]| == |m|
    ensures m[k := v] - {k} == m - {k} && |m - {k}| == |m| - 1
  {
  }

  lemma FreshKey<K, V>(m: map<K, V>, k: K, v: V)
    requires k !in m
    ensures |m[k := v]| == |m| + 1
  {
  }

  ghost predicate PayloadOk(data: array?<byte>, length: nat) {
    length < MAX_DATA_SIZE && if data == null then length == 0 else length <= data.Length
  }

  ghost function Payload(data: array?<byte>, length: nat): (s: seq<byte>)
    requires PayloadOk(data, length)
    reads data
    ensures |s| == length
  {
    if data == null then [] else data[..length]
  }

  /** What execute_cmd hands to add_response: the code, the data with its length, and whether
      sending the response frees the data. */
  datatype Reply = Reply(code: byte, data: array?<byte>, length: nat, canFree: bool) {
    ghost predicate Ok() {
      PayloadOk(data, length)
    }

    ghost function Bytes(): seq<byte>
      requires Ok()
      reads data
    {
      Payload(data, length)
    }

    /** The block that freeing the response gives back. */
    ghost function Owned(): set<array<byte>> {
      if canFree && data != null then {data} else {}
    }
  }

  /** send_response: a bare code. */
  function Bare(code: byte): (r: Reply)
    ensures r.Ok() && r.Bytes() == [] && r.Owned() == {}
  {
    Reply(code, null, 0, true)
  }

  /** The cache with its counters. The ghost fields describe the heap: `live` are the blocks that
      are allocated and not freed, `held` says for which key the cache holds a block, and `store`
      is the map with expiry that the cache stands for. */
  class Store {
    const cache: HTab<Request?>
    var idleTimeout: word
    var cmdGet: nat
    var cmdSet: nat
    var hits: nat
    var misses: nat
    ghost var reqs: set<Request>
    ghost var live: set<array<byte>>
    ghost var held: map<array<byte>, Key>
    ghost var store: map<Key, Entry>

    /** The table is in order and below its load factor, and no tombstone holds a request. */
    ghost predicate TableOk()
      reads cache, cache.table, cache.items
    {
      && cache.Valid() && cache.Dead() && cache.nil == null
      && cache.HCount() == |cache.Map()| && 4 * cache.HCount() < 3 * cache.realsize
    }

    ghost predicate Valid()
      reads this`reqs, this`live, this`held, this`store, cache, cache.table, cache.items, held.Keys
      reads reqs`blocks, reqs`rkey, reqs`rdata, reqs`rextra, reqs`dataLength, reqs`received
    {
      TableOk() && StoreOk(cache.Map(), held, store, reqs) && held.Keys <= live
    }

    ghost function Abs(): State
      reads this`store, this`idleTimeout, this`cmdGet, this`cmdSet, this`hits, this`misses
    {
      State(store, idleTimeout, cmdGet, cmdSet, hits, misses)
    }

    constructor (hash: Key -> nat, timeout: word)
      ensures Valid() && Abs() == State(map[], timeout, 0, 0, 0, 0) && live == {} && held == map[]
      ensures fresh(cache) && fresh(cache.table) && cache.items == {} && cache.logsize == 4
    {
      cache := new HTab<Request?>(4, hash, null);
      idleTimeout, cmdGet, cmdSet, hits, misses := timeout, 0, 0, 0, 0;
      live, held, store, reqs := {}, map[], map[], {};
    }

    // ----- freeing ----------------------------------------------------------------------------

    /** li_free of a buffer; NULL is ignored. No block is freed twice. */
    method LiFree(b: array?<byte>)
      requires b != null ==> b in live
      modifies this`live
      ensures live == old(live) - (if b == null then {} else {b})
    {
      if b != null {
        live := live - {b};
      }
    }

    /** li_free of a request block and its three buffers. */
    method FreeBlocks(q: Request)
      requires q.blocks <= live && q.Whole()
      modifies this`live
      ensures live == old(live) - q.blocks
    {
      LiFree(q.rkey);
      LiFree(q.rdata);
      LiFree(q.rextra);
      live := live - {q.header};
    }

    // ----- the cache --------------------------------------------------------------------------

    /** The live blocks that the cache does not hold. */
    ghost function Loose(): set<array<byte>>
      reads this`live, this`held
    {
      live - held.Keys
    }

    lemma ItemFacts(it: Item<Request?>)
      requires Valid() && it in cache.items
      ensures cache.Valid() && cache.Indexed() && (it.free ==> it.val == null)
      ensures !it.free ==>
                && it.key in cache.Map() && cache.Map()[it.key] == it.val && it.val != null
                && it.val.Whole() && it.val.blocks <= held.Keys <= live
    {
      hide Request.Whole, Matches;
      if !it.free {
        HeldBlocks(cache.Map(), held, store, reqs, it.key);
      }
    }

    /** Dropping a key from the books: the state of the ghost fields after a request was freed. */
    ghost method Forget(key: Key, m: map<Key, Request?>)
      requires StoreOk(m, held, store, reqs) && key in m
      modifies this`held, this`store, this`reqs
      ensures StoreOk(m - {key}, held, store, reqs) && store == old(store) - {key}
      ensures m[key] != null && held.Keys == old(held.Keys) - m[key].blocks
    {
      hide StoreOk;
      HeldBlocks(m, held, store, reqs, key);
      DropKeepsStore(m, held, store, reqs, key);
      held, store, reqs := Without(held, key), store - {key}, reqs - {m[key]};
    }

    /** del_cached_req: frees the request of a node, if it has one, and clears its value. */
    method DelCachedReq(it: Item<Request?>)
      requires Valid() && it in cache.items
      modifies this`live, this`held, this`store, this`reqs, it`val
      ensures TableOk() && cache.Valid() && it.val == null && Loose() == old(Loose()) && held.Keys <= live
      ensures StoreOk(if it.free then cache.Map() else cache.Map() - {it.key}, held, store, reqs)
      ensures store == if it.free then old(store) else old(store) - {it.key}
      ensures cache.Map() == if it.free then old(cache.Map()) else old(cache.Map())[it.key := null]
    {
      hide StoreOk, Request.Whole, HTab.Linked, HTab.Keyed, HTab.Positioned, HTab.Indexed, HTab.Map;
      ItemFacts(it);
      ghost var m := cache.Map();
      var req := it.val;
      if req != null {
        FreeBlocks(req);
        Forget(it.key, m);
      }
      it.val := null;
      if !it.free {
        cache.ValueStored(it, null);
        ReplaceCount(m, it.key, null);
      } else {
        assert cache.Map() == m;
      }
    }

    /** del_cached_req and hfree, as GET, DELETE and FLUSH_ALL call them. On a tombstone they do
        nothing. */
    method DropItem(it: Item<Request?>)
      requires Valid() && it in cache.items
      modifies this`live, this`held, this`store, this`reqs, it`val, it`free, cache`index, cache`freecount
      ensures Valid() && store == if old(it.free) then old(store) else old(store) - {it.key}
      ensures Loose() == old(Loose()) && it.free
    {
      hide StoreOk, Request.Whole, HTab.Linked, HTab.Keyed, HTab.Positioned, HTab.Indexed, HTab.Map;
      DelCachedReq(it);
      if !it.free {
        LiveKey(it);
      }
      cache.HFree(it);
    }

    lemma LiveKey(it: Item<Request?>)
      requires cache.Valid() && it in cache.items && !it.free
      ensures it.key in cache.Map() && |cache.Map() - {it.key}| == |cache.Map()| - 1
    {
    }

    /** henum over one chain with flush_item_enum. */
    method FlushChain(i: nat)
      requires Valid() && i < cache.realsize
      modifies this`live, this`held, this`store, this`reqs, cache`index, cache`freecount, cache.items`val
      modifies cache.items`free
      ensures Valid() && Loose() == old(Loose())
      ensures forall x | x in cache.items && (x.bucket == i || old(x.free)) :: x.free
    {
      hide Valid, HTab.Linked;
      ChainFrom(i);
      var p := cache.table[i];
      while p != null
        invariant Valid() && Loose() == old(Loose())
        invariant p != null ==> p in cache.items && p.bucket == i
        invariant forall x | x in cache.items && old(x.free) :: x.free
        invariant forall x | x in cache.items && x.bucket == i && (p == null || x.pos > p.pos) :: x.free
        decreases if p == null then 0 else p.pos + 1
      {
        ChainNext(p);
        var next := p.next;
        DropItem(p);
        p := next;
      }
    }

    lemma ChainFrom(i: nat)
      requires Valid() && i < cache.realsize
      ensures cache.table.Length == cache.realsize
      ensures var p := cache.table[i];
              && (p != null ==> p in cache.items && p.bucket == i)
              && forall x | x in cache.items && x.bucket == i :: p != null && x.pos <= p.pos
    {
    }

    lemma ChainNext(p: Item<Request?>)
      requires Valid() && p in cache.items
      ensures p.next != null ==> p.next in cache.items && p.next.bucket == p.bucket && p.next.pos < p.pos
      ensures forall x | x in cache.items && x.bucket == p.bucket && (p.next == null || x.pos > p.next.pos) ::
                x == p || x.pos > p.pos
    {
    }

    /** henum over all chains with flush_item_enum, tombstones included. */
    method FlushItems()
      requires Valid()
      modifies this`live, this`held, this`store, this`reqs, cache`index, cache`freecount, cache.items`val
      modifies cache.items`free
      ensures Valid() && store == map[] && Loose() == old(Loose())
    {
      hide Valid;
      var i := 0;
      while i < cache.realsize
        invariant 0 <= i <= cache.realsize
        invariant Valid() && Loose() == old(Loose())
        invariant forall x | x in cache.items && x.bucket < i :: x.free
      {
        FlushChain(i);
        i := i + 1;
      }
      NothingLeft();
    }

    lemma NothingLeft()
      requires Valid() && forall x | x in cache.items && x.bucket < cache.realsize :: x.free
      ensures store == map[]
    {
    }

    /** The table has the request q under a key that the books do not know yet. */
    ghost predicate Open(m: map<Key, Request?>, key: Key, q: Request)
      reads this`reqs, this`live, this`held, this`store, cache, cache.table, cache.items, held.Keys
      reads reqs`blocks, reqs`rkey, reqs`rdata, reqs`rextra, reqs`dataLength, reqs`received
    {
      TableOk() && cache.Map() == m[key := q] && key !in m && StoreOk(m, held, store, reqs) && held.Keys <= live
    }

    twostate lemma Reopened(new it: Item<Request?>, new q: Request, new m: map<Key, Request?>)
      requires old(TableOk()) && cache.Valid() && it in cache.items && !it.free && it.key in m && it.val == q
      requires old(cache.Map()) == m[it.key := null] && cache.Map() == old(cache.Map())[it.key := q]
      requires cache.items == old(cache.items) && cache.HCount() == old(cache.HCount())
      requires cache.realsize == old(cache.realsize)
      requires forall x | x in cache.items && x != it :: x.val == old(x.val) && x.free == old(x.free)
      requires StoreOk(m - {it.key}, held, store, reqs) && held.Keys <= live
      ensures Open(m - {it.key}, it.key, q)
    {
      hide StoreOk, HTab.Valid, HTab.Map;
      ReplaceCount(m, it.key, null);
      ReplaceCount(m, it.key, q);
    }

    /** The value of a live node is replaced by the new request. */
    method Overwrite(it: Item<Request?>, q: Request)
      requires Valid() && it in cache.items && !it.free
      modifies this`live, this`held, this`store, this`reqs, it`val
      ensures Open(old(cache.Map()) - {it.key}, it.key, q)
      ensures Loose() == old(Loose()) && store == old(store) - {it.key}
    {
      hide *;
      ItemFacts(it);
      ghost var m := cache.Map();
      DelCachedReq(it);
      ReplaceCount(m, it.key, null);
      label Cleared:
      it.val := q;
      cache.ValueStored@Cleared(it, q);
      Reopened@Cleared(it, q, m);
    }

    /** The part of CMD_SET that puts the request into the table: an existing key gets the new
        request, and the old one is freed. */
    method PutReq(key: Key, q: Request) returns (ok: bool, ghost rest: map<Key, Request?>)
      requires Valid()
      modifies this`live, this`held, this`store, this`reqs, cache, cache.table, cache.items
      ensures ok && Open(rest, key, q) && store == old(store) - {key} && Loose() == old(Loose())
      ensures fresh(cache.items - old(cache.items)) && (cache.table == old(cache.table) || fresh(cache.table))
    {
      hide *;
      rest := BeforePut(key);
      var ret := cache.HSet(key, q, 2);
      if ret == HERROR {
        assert false;
        return false, rest;
      }
      assert StoreOk(rest, held, store, reqs);
      if ret == HEXISTS {
        Restored(rest);
        var it := cache.HGet(key);
        rest := rest - {key};
        Overwrite(it, q);
      } else {
        Opened(rest, key, q);
      }
      ok := true;
    }

    lemma BeforePut(key: Key) returns (m: map<Key, Request?>)
      requires Valid()
      ensures cache.Valid() && cache.Dead() && cache.nil == null && 4 * cache.HCount() < 3 * cache.realsize
      ensures m == cache.Map() && cache.HCount() == |m| && StoreOk(m, held, store, reqs) && held.Keys <= live
      ensures key !in m ==> store - {key} == store
    {
      hide HTab.Linked, HTab.Keyed, HTab.Positioned, HTab.Dead, HTab.Map;
      m := cache.Map();
      if key !in m {
        BothAbsent(m, held, store, reqs, key);
      }
    }

    lemma Restored(m: map<Key, Request?>)
      requires cache.Valid() && cache.Dead() && cache.nil == null && 4 * cache.HCount() < 3 * cache.realsize
      requires cache.Map() == m && cache.HCount() == |m| && StoreOk(m, held, store, reqs) && held.Keys <= live
      ensures Valid()
    {
    }

    lemma Opened(m: map<Key, Request?>, key: Key, q: Request)
      requires cache.Valid() && cache.Dead() && cache.nil == null && 4 * cache.HCount() < 3 * cache.realsize
      requires cache.Map() == m[key := q] && key !in m && cache.HCount() == |m| + 1
      requires StoreOk(m, held, store, reqs) && held.Keys <= live
      ensures Open(m, key, q)
    {
      hide StoreOk, HTab.Valid, HTab.Map;
      FreshKey(m, key, q);
    }

    /** Entering a request into the books. */
    ghost method Remember(key: Key, q: Request, e: Entry, m: map<Key, Request?>)
      requires StoreOk(m, held, store, reqs) && key !in m && q.blocks !! held.Keys
      requires q.header in q.blocks && q.Whole() && Matches(q, e)
      modifies this`held, this`store, this`reqs
      ensures StoreOk(m[key := q], held, store, reqs) && store == old(store)[key := e]
      ensures held.Keys == old(held.Keys) + q.blocks
    {
      hide StoreOk, Request.Whole, Matches;
      AddKeepsStore(m, held, store, reqs, key, q, e);
      held, store, reqs := With(held, key, q.blocks), store[key := e], reqs + {q};
    }

    /** Afterwards the books and the table agree again. */
    ghost method Close(key: Key, q: Request, e: Entry, m: map<Key, Request?>)
      requires Open(m, key, q) && q.blocks <= Loose()
      requires q.header in q.blocks && q.Whole() && Matches(q, e)
      modifies this`held, this`store, this`reqs
      ensures Valid() && store == old(store)[key := e] && Loose() == old(Loose()) - q.blocks
    {
      hide TableOk, StoreOk, Request.Whole, Matches, HTab.Map, HTab.Valid;
      Remember(key, q, e, m);
    }

    /** The successful end of CMD_SET. From here on the cache owns the request. */
    method CacheReq(q: Request, key: Key, ghost e: Entry) returns (ok: bool)
      requires Valid() && q.header in q.blocks && q.blocks <= Loose() && q.Whole() && Matches(q, e)
      modifies this`live, this`held, this`store, this`reqs, cache, cache.table, cache.items, q`canFree
      ensures ok && Valid() && store == old(store)[key := e] && Loose() == old(Loose()) - q.blocks && !q.canFree
      ensures fresh(cache.items - old(cache.items)) && (cache.table == old(cache.table) || fresh(cache.table))
    {
      hide Valid, Open, Request.Whole, Matches;
      ghost var rest;
      ok, rest := PutReq(key, q);
      if !ok {
        return;
      }
      q.canFree := false;
      Close(key, q, e, rest);
    }

    // ----- blocks outside the cache -------------------------------------------------------------

    /** li_malloc of n bytes, whatever they hold; null without memory. */
    method NewBuffer(n: nat, memory: bool) returns (b: array?<byte>)
      requires Valid()
      modifies this`live
      ensures Valid() && (b == null <==> !memory)
      ensures b == null ==> live == old(live)
      ensures b != null ==> fresh(b) && b.Length == n && Loose() == old(Loose()) + {b} && live == old(live) + {b}
    {
      hide TableOk, StoreOk;
      if !memory {
        return null;
      }
      var a := new byte[n];
      live := live + {a};
      b := a;
    }

    /** li_malloc of a request block; null without memory. */
    method NewRequest(memory: bool) returns (q: Request?)
      requires Valid()
      modifies this`live
      ensures Valid() && (q == null <==> !memory)
      ensures q == null ==> live == old(live)
      ensures q != null ==>
                && fresh(q) && fresh(q.header) && q.header.Length == REQ_HEADER_SIZE && q.canFree
                && q.blocks == {q.header} && q.Whole()
                && q.rbytes == 0 && q.rkey == null && q.rdata == null && q.rextra == null
                && Loose() == old(Loose()) + {q.header} && live == old(live) + {q.header}
    {
      hide TableOk, StoreOk;
      if !memory {
        return null;
      }
      var r := new Request();
      live := live + {r.header};
      q := r;
    }

    /** Frees a request that is not cached. */
    method FreeReq(q: Request)
      requires Valid() && q.Whole() && q.blocks <= Loose()
      modifies this`live
      ensures Valid() && Loose() == old(Loose()) - q.blocks && live == old(live) - q.blocks
    {
      hide TableOk, StoreOk, Request.Whole;
      FreeBlocks(q);
    }

    /** Frees response data that is not cached. */
    method FreeData(b: array<byte>)
      requires Valid() && b in Loose()
      modifies this`live
      ensures Valid() && Loose() == old(Loose()) - {b}
    {
      hide TableOk, StoreOk;
      LiFree(b);
    }

    // ----- the commands -----------------------------------------------------------------------

    /** The request of a live node matches the entry of its key. */
    lemma HitFacts(it: Item<Request?>)
      requires Valid() && it in cache.items && !it.free
      ensures it.key in store && it.val != null && it.val.rdata != null && it.val.rdata in held && it.val.rextra != null
      ensures var q, e := it.val, store[it.key];
              && q.dataLength < q.rdata.Length && q.rdata[..q.dataLength] == e.data && q.dataLength < MAX_DATA_SIZE
              && Atoull(q.rextra[..]) == Some(e.timeout) && q.received == e.setTime
    {
      hide Owned, Matches, Atoull, HTab.Linked, HTab.Keyed, HTab.Positioned;
      assert cache.Map()[it.key] == it.val;
      assert Stored(held, it.key, it.val, store[it.key]);
      MatchesMeans(it.val, store[it.key]);
    }

    lemma MissFacts(key: Key)
      requires Valid()
      ensures cache.Valid() && (key in cache.Map() <==> key in store)
    {
      hide Stored, HTab.Linked, HTab.Keyed, HTab.Positioned;
    }

    /** hget and the timeout check of CMD_GET: the cached request of a key that is present and not
        expired; an expired one is dropped. */
    method Lookup(key: Key, received: int) returns (cached: Request?)
      requires Valid()
      modifies this`live, this`held, this`store, this`reqs, cache`index, cache`freecount, cache.items`val
      modifies cache.items`free
      ensures Valid() && Loose() == old(Loose())
      ensures cached == null <==> key !in old(store) || Expired(old(store)[key], received)
      ensures store == if cached == null && key in old(store) then old(store) - {key} else old(store)
      ensures cached != null ==>
                && cached.rdata != null && cached.rdata in held && cached.dataLength < cached.rdata.Length
                && cached.rdata[..cached.dataLength] == store[key].data && cached.dataLength < MAX_DATA_SIZE
    {
      hide Valid, Loose, HTab.Valid, HTab.Map, Atoull;
      MissFacts(key);
      var it := cache.HGet(key);
      if it == null {
        return null;
      }
      HitFacts(it);
      cached := it.val;
      var val := Atoull(cached.rextra[..]);
      assert val.Some?;
      if Elapsed32(received, cached.received) > val.value {
        DropItem(it);
        cached := null;
      }
    }

    /** CMD_GET. A hit is answered with the cached buffer itself, which the response must not free. */
    method DoGet(q: Request, ghost m: Msg) returns (r: Reply)
      requires Valid() && q.Is(m) && m.key != []
      modifies this, cache`index, cache`freecount, cache.items`val, cache.items`free
      ensures Valid() && r.Ok() && Loose() == old(Loose()) && r.Owned() == {} && (r.data != null ==> r.data in held)
      ensures (Abs(), r.code, r.Bytes()) == ExecGet(old(Abs()), m.key, q.received)
    {
      hide Valid, Loose, Request.Is, Request.Holds, Elapsed32, Expired;
      cmdGet := cmdGet + 1;
      q.KeyIs(m);
      var cached := Lookup(q.rkey[..q.keyLength], q.received);
      if cached == null {
        misses := misses + 1;
        return Bare(KEY_NOTEXISTS);
      }
      hits := hits + 1;
      return Reply(SUCCESS, cached.rdata, cached.dataLength, false);
    }

    /** CMD_SET. */
    method DoSet(q: Request, ghost m: Msg) returns (r: Reply)
      requires Valid() && q.Is(m) && WellFormed(m) && m.opcode == CMD_SET
      requires q.canFree && q.Whole() && q.header in q.blocks && q.blocks <= Loose()
      modifies this, cache, cache.table, cache.items, q`canFree
      ensures Valid() && r == Bare(r.code) && Loose() == old(Loose()) - (if q.canFree then {} else q.blocks)
      ensures (Abs(), r.code, []) == ExecSet(old(Abs()), m.key, m.data, m.extra, q.received)
      ensures fresh(cache.items - old(cache.items)) && (cache.table == old(cache.table) || fresh(cache.table))
    {
      hide Valid, Loose, Request.Whole, Atoull;
      cmdSet := cmdSet + 1;
      if q.rdata == null {
        return Bare(INVALID_PARAM);
      }
      var val := Atoull(q.rextra[..]);
      if val == None {
        return Bare(INVALID_PARAM);
      }
      var key := q.rkey[..q.keyLength];
      assert key == m.key;
      var ok := CacheReq(q, key, Entry(m.data, val.value, q.received));
      if !ok {
        assert false;
        return Bare(OUT_OF_MEMORY);
      }
      return Bare(SUCCESS);
    }

    /** CMD_DELETE. */
    method DoDelete(q: Request, ghost m: Msg) returns (r: Reply)
      requires Valid() && q.Is(m) && m.key != []
      modifies this, cache`index, cache`freecount, cache.items`val, cache.items`free
      ensures Valid() && Loose() == old(Loose())
      ensures Abs() == old(Abs()).(store := old(store) - {m.key})
      ensures r == Bare(if m.key in old(store) then SUCCESS else KEY_NOTEXISTS)
    {
      hide Valid, HTab.Valid, HTab.Map;
      q.KeyIs(m);
      var key := q.rkey[..q.keyLength];
      MissFacts(key);
      var it := cache.HGet(key);
      if it == null {
        return Bare(KEY_NOTEXISTS);
      }
      DropItem(it);
      return Bare(SUCCESS);
    }

    /** CMD_CHG_SETTING. */
    method DoChgSetting(q: Request, ghost m: Msg) returns (r: Reply)
      requires Valid() && q.Is(m) && WellFormed(m)
      modifies this`idleTimeout
      ensures Valid() && r == Bare(r.code) && (Abs(), r.code, []) == ExecChgSetting(old(Abs()), m.key, m.data)
    {
      hide Valid, Atoull;
      if q.rdata == null {
        return Bare(INVALID_PARAM);
      }
      assert q.rkey[..q.keyLength] == m.key;
      if q.rkey[..q.keyLength] == IDLE_CONN_TIMEOUT {
        var val := Atoull(q.rdata[..]);
        if val == None {
          return Bare(INVALID_PARAM);
        }
        idleTimeout := val.value;
      } else {
        return Bare(INVALID_PARAM);
      }
      return Bare(SUCCESS);
    }

    /** li_malloc, filled: a new block is live and was not before; null without memory. */
    method NewBlock(bytes: seq<byte>, memory: bool) returns (b: array?<byte>)
      requires Valid()
      modifies this`live
      ensures Valid() && (b == null <==> !memory)
      ensures b == null ==> live == old(live)
      ensures b != null ==> fresh(b) && b[..] == bytes && Loose() == old(Loose()) + {b}
    {
      hide TableOk, StoreOk;
      if !memory {
        return null;
      }
      var a := new byte[|bytes|](i requires 0 <= i < |bytes| => bytes[i]);
      live := live + {a};
      b := a;
    }

    /** CMD_GET_SETTING: the swapped word as it lies in memory. */
    method DoGetSetting(q: Request, ghost m: Msg, memory: bool) returns (r: Reply)
      requires Valid() && q.Is(m) && m.key != []
      modifies this`live
      ensures Valid() && r.Ok() && Loose() == old(Loose()) + r.Owned() && fresh(r.Owned())
      ensures r.data != null ==> r.canFree
      ensures if m.key != IDLE_CONN_TIMEOUT then r == Bare(INVALID_PARAM)
              else if !memory then r == Bare(OUT_OF_MEMORY)
              else r.code == SUCCESS && r.Bytes() == LittleEndian(Swapped(idleTimeout), 8)
    {
      hide Valid;
      q.KeyIs(m);
      if q.rkey[..q.keyLength] == IDLE_CONN_TIMEOUT {
        var word := LiSwap64(idleTimeout);
        var b := NewBlock(LittleEndian(word, 8), memory);
        if b == null {
          return Bare(OUT_OF_MEMORY);
        }
        return Reply(SUCCESS, b, 8, true);
      }
      return Bare(INVALID_PARAM);
    }

    /** CMD_GET_STATS: a block of fixed size with the text. */
    method DoGetStats(text: seq<byte>, memory: bool) returns (r: Reply)
      requires Valid() && |text| == STATS_SIZE
      modifies this`live
      ensures Valid() && r.Ok() && Loose() == old(Loose()) + r.Owned() && fresh(r.Owned())
      ensures if memory then r.data != null && r.canFree && r.code == SUCCESS && r.Bytes() == text
              else r == Bare(OUT_OF_MEMORY)
    {
      hide Valid;
      var b := NewBlock(text, memory);
      if b == null {
        return Bare(OUT_OF_MEMORY);
      }
      return Reply(SUCCESS, b, STATS_SIZE, true);
    }

    /** Every cached item holds exactly four blocks. */
    lemma FourBlocksEach()
      requires Valid()
      ensures |held.Keys| == 4 * |store|
    {
      hide Stored, HTab.Linked, HTab.Keyed, HTab.Positioned, HTab.Map;
      var m := cache.Map();
      forall k | k in store.Keys
        ensures |BlocksOf(held, k)| == 4 {
        FourBlocks(m, held, store, reqs, k);
      }
      CountBlocks(held, store.Keys);
    }

    lemma HeldLive()
      requires Valid()
      ensures held.Keys <= live
    {
    }

    lemma NotCached(q: Request)
      requires Valid() && q.header in Loose()
      ensures q !in reqs
    {
    }

    /** execute_cmd, up to add_response: the command does to the cache, the setting and the counters
        what it means, answers accordingly, frees what the cache gives up, and keeps its request
        exactly when it was cached. */
    method Execute(q: Request, ghost m: Msg, env: Env) returns (r: Reply)
      requires Valid() && q.Is(m) && WellFormed(m) && EnvOk(env)
      requires q.canFree && q.Whole() && q.header in q.blocks && q.blocks <= Loose()
      modifies this, cache, cache.table, cache.items, q`received, q`canFree
      ensures Valid() && r.Ok() && Abs() == Next(old(Abs()), m, env)
      ensures Resp(q.opcode, r.code, r.Bytes()) == Answer(old(Abs()), m, env)
      ensures Loose() == old(Loose()) - (if q.canFree then {} else q.blocks) + r.Owned() && fresh(r.Owned())
      ensures r.data != null && !r.canFree ==> r.data in held
      ensures fresh(cache.items - old(cache.items)) && (cache.table == old(cache.table) || fresh(cache.table))
    {
      hide Valid, Loose, Request.Is, Request.Whole, ExecGet, ExecSet, ExecChgSetting, LittleEndian;
      NotCached(q);
      SameOpcode(q, m);
      q.received := env.now;
      if q.opcode == CMD_GET {
        r := DoGet(q, m);
      } else if q.opcode == CMD_SET {
        r := DoSet(q, m);
      } else if q.opcode == CMD_DELETE {
        r := DoDelete(q, m);
      } else if q.opcode == CMD_FLUSH_ALL {
        FlushItems();
        r := Bare(SUCCESS);
      } else if q.opcode == CMD_CHG_SETTING {
        r := DoChgSetting(q, m);
      } else if q.opcode == CMD_GET_SETTING {
        r := DoGetSetting(q, m, env.memory);
      } else if q.opcode == CMD_GET_STATS {
        r := DoGetStats(env.statsText, env.memory);
      } else {
        r := Bare(INVALID_COMMAND);
      }
    }

    lemma SameOpcode(q: Request, m: Msg)
      requires q.Is(m)
      ensures m.Request? && q.opcode == m.opcode
    {
    }
  }
}

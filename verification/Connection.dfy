// The connection state machine: a request is read and its response written one byte per event, and
// the request's buffers are freed or handed over to the cache (src/lightcache.c:56-239, 469-691).
module Connection {
  import opened Common
  import opened Numbers
  import opened Wire
  import opened Commands
  import opened Streams
  import opened Executor

  /** UNDEFINED is no state of the source. It stands for what happens once a command is executed
      that uses a key or an extra which was not sent, or a key with a NUL in it. */
  datatype ConnState =
    | READ_HEADER | READ_KEY | READ_DATA | READ_EXTRA
    | CMD_RECEIVED | SEND_HEADER | SEND_DATA | CMD_SENT | CONN_CLOSED | UNDEFINED

  datatype Interest = NO_EVENT | EVENT_READ | EVENT_WRITE

  datatype SocketState = READ_COMPLETED | NEED_MORE | READ_ERR | SEND_COMPLETED | SEND_ERR | FAILED

  /** What a read or write of one byte does: it moves the byte, would block, or finds the peer gone. */
  datatype Io = Moves | WouldBlock | Ends

  /** One byte is read exactly if the socket has one and gives it. */
  predicate ReadsByte(io: Io, count: nat, stream: seq<byte>, count': nat, stream': seq<byte>) {
    if io == Moves && stream != [] then count' == count + 1 && stream' == stream[1..]
    else count' == count && stream' == stream
  }

  lemma ReadsFacts(io: Io, count: nat, stream: seq<byte>, count': nat, stream': seq<byte>)
    ensures ReadsByte(io, count, stream, count', stream') ==>
              && count' + |stream'| == count + |stream|
              && count' == count + (if io == Moves && stream != [] then 1 else 0)
    ensures ReadsByte(io, count, stream, count, stream) <==> io != Moves || stream == []
    ensures stream != [] ==> ReadsByte(Moves, count, stream, count + 1, stream[1..])
  {
  }

  class Conn {
    const store: Store
    var state: ConnState
    var interest: Interest
    var free: bool
    var lastHeard: int
    var inReq: Request?
    var outHeader: seq<byte>        // the eight bytes of the response header
    var sdata: array?<byte>
    var sbytes: nat
    var outCanFree: bool
    var inbox: seq<byte>            // bytes the client has sent and the server has not read
    var outbox: seq<byte>           // bytes the server has written
    var bytesRead: nat
    var bytesWritten: nat
    ghost var ahead: seq<byte>      // the stream from the start of the request in hand
    ghost const script: seq<Msg>    // all the requests the client sends
    ghost const init: State
    ghost const pad: Padding
    ghost var done: seq<Event>      // the requests answered so far, each with its environment
    ghost var served: nat           // how many of them came before the first aborted one
    ghost var todo: seq<Msg>        // the requests not answered yet, while none was aborted

    /** make_conn and set_conn_state(READ_HEADER). `junk` is what the response header holds before
        it is first written. Without memory for the first request the connection is closed. */
    constructor (s: Store, requests: seq<Msg>, junk: seq<byte>, memory: bool)
      requires s.Valid() && s.Loose() == {} && AllWellFormed(requests) && |junk| == RESP_HEADER_SIZE
      modifies s`live
      ensures Valid() && state == (if memory then READ_HEADER else CONN_CLOSED) && InStep()
      ensures store == s && script == requests && init == old(s.Abs()) && done == []
      ensures inbox == EncodeAll(requests) && outbox == [] && bytesRead == bytesWritten == 0
      ensures fresh(Req()) && forall b | b in Blocks() :: fresh(b)
    {
      hide Valid, Store.Valid, Store.Abs, Store.Loose, BookOk, PadOk, HeapOk, AllAnswers, EncodeAll;
      store := s;
      script, todo, done, served, init := requests, requests, [], 0, s.Abs();
      inbox, outbox, bytesRead, bytesWritten := EncodeAll(requests), [], 0, 0;
      ahead := EncodeAll(requests);
      outHeader, pad := junk, Padding(junk[2], junk[3]);
      inReq, sdata, sbytes, outCanFree, free, lastHeard := null, null, 0, false, false, 0;
      interest, state := NO_EVENT, CONN_CLOSED;
      new;
      Made();
      EnterReadHeader(memory);
    }

    lemma Made()
      requires store.Valid() && store.Loose() == {} && AllWellFormed(script) && script == todo && done == []
      requires served == 0
      requires store.Abs() == init && ahead == EncodeAll(todo)
      requires |outHeader| == RESP_HEADER_SIZE && pad == Padding(outHeader[2], outHeader[3])
      requires inReq == null && sdata == null && outbox == []
      ensures BookOk() && PadOk() && HeapOk() && outbox == AllAnswers()
    {
      hide Store.Valid;
    }

    // ----- the invariant ------------------------------------------------------------------------

    ghost predicate Reading()
      reads this`state
    {
      state in {READ_HEADER, READ_KEY, READ_DATA, READ_EXTRA}
    }

    ghost predicate Sending()
      reads this`state
    {
      state in {SEND_HEADER, SEND_DATA}
    }

    ghost function Req(): set<Request>
      reads this`inReq
    {
      if inReq == null then {} else {inReq}
    }

    /** The blocks this connection answers for: its request unless the cache has it, and response
        data that the response owns. */
    ghost function Own(): set<array<byte>>
      reads this`inReq, this`sdata, this`outCanFree, Req()`canFree, Req()`blocks
    {
      (if inReq != null && inReq.canFree then inReq.blocks else {})
      + (if outCanFree && sdata != null then {sdata} else {})
    }

    /** Every live block is either cached or owned here, and response data is live. */
    ghost predicate HeapOk()
      reads this`inReq, this`sdata, this`outCanFree
      reads Req()`canFree, Req()`blocks, Req()`rkey, Req()`rdata, Req()`rextra
      reads store`live, store`held
    {
      && store.Loose() == Own()
      && (inReq != null && inReq.canFree ==> inReq.Whole() && inReq.header in inReq.blocks)
      && (sdata != null ==> sdata in store.live && (inReq != null && inReq.canFree ==> sdata !in inReq.blocks))
    }

    /** The padding bytes of the response header never change. */
    ghost predicate PadOk()
      reads this`outHeader
    {
      |outHeader| == RESP_HEADER_SIZE && pad == Padding(outHeader[2], outHeader[3])
    }

    /** No request had to be aborted. */
    ghost predicate InStep()
      reads this`done, this`served
    {
      served == |done|
    }

    /** How the answered units relate to what the client sends: they were taken off the client's
        stream one by one, and leave the stream ahead. Until a request is aborted, they are the
        client's requests. The first aborted request is the next one of the client's. */
    ghost predicate Track()
      reads this`done, this`served, this`todo, this`ahead
    {
      && AllWellFormed(script) && served <= |done| && served <= |script| && Msgs(done)[..served] == script[..served]
      && TakeAll(EncodeAll(script), done) == Some(ahead)
      && if InStep() then AllWellFormed(todo) && script == script[..served] + todo && ahead == EncodeAll(todo)
         else served < |script| && done[served].msg.Aborted? && done[served].msg.opcode == script[served].opcode
    }

    /** The answered requests, the state of the store they lead to, and the stream. */
    ghost predicate BookOk()
      reads this`done, this`served, this`todo, this`ahead
      reads store`store, store`idleTimeout, store`cmdGet, store`cmdSet, store`hits, store`misses
    {
      store.Abs() == Run(init, done) && EventsOk(done) && Track()
    }

    ghost function AllAnswers(): seq<byte>
      reads this`done
    {
      EncodeResps(Answers(init, done), pad)
    }

    /** What holds while a request is read, whatever has been read of it. */
    ghost predicate Between()
      reads this`done, this`served, this`todo, this`ahead, this`outHeader, this`outbox, this`interest
      reads this`inReq, this`sdata, this`outCanFree
      reads Req()`canFree, Req()`blocks, Req()`rkey, Req()`rdata, Req()`rextra
      reads store, store.cache, store.cache.table, store.cache.items, store.held.Keys
      reads store.reqs`blocks, store.reqs`rkey, store.reqs`rdata, store.reqs`rextra, store.reqs`dataLength
      reads store.reqs`received
    {
      && store.Valid() && BookOk() && PadOk() && HeapOk()
      && sdata == null && outbox == AllAnswers() && interest == EVENT_READ && inReq != null && inReq.canFree
    }

    /** The fields of q are those of the header at the start of the stream ahead. */
    ghost predicate Parsed(q: Request)
      reads this`ahead, q`opcode, q`keyLength, q`dataLength, q`extraLength
    {
      && |ahead| >= REQ_HEADER_SIZE && q.opcode == ahead[0] && q.keyLength == ahead[1]
      && q.dataLength == FromBigEndian(ahead[4..8]) && q.extraLength == FromBigEndian(ahead[8..12])
      && !TooLarge(q.keyLength, q.dataLength, q.extraLength)
    }

    /** One read phase: `got` bytes of a buffer of total + 1 bytes that ends in NUL are filled, and
        together with what is in the socket they are the stream ahead from `off` on. */
    ghost predicate Filling(b: array?<byte>, total: nat, got: nat, off: nat)
      reads this`ahead, this`inbox, b
    {
      && b != null && got < total && b.Length == total + 1 && b[total] == 0
      && off <= |ahead| && ahead[off..] == b[..got] + inbox
    }

    ghost predicate HeaderPhase(q: Request)
      reads this`ahead, this`inbox, q, q.header
    {
      && q.rkey == null && q.rdata == null && q.rextra == null
      && q.rbytes < q.header.Length == REQ_HEADER_SIZE && q.header[..q.rbytes] + inbox == ahead
    }

    ghost predicate KeyPhase(q: Request)
      reads this`ahead, this`inbox, q, q.rkey
    {
      && Parsed(q) && q.rdata == null && q.rextra == null
      && Filling(q.rkey, q.keyLength, q.rbytes, 12)
    }

    /** The key has been read. */
    ghost predicate HasKey(q: Request)
      reads this`ahead, q`opcode, q`keyLength, q`dataLength, q`extraLength, q`rkey, q.rkey
    {
      && Parsed(q) && 0 < q.keyLength && 12 + q.keyLength <= |ahead|
      && Request.Holds(q.rkey, ahead[12..12 + q.keyLength])
    }

    ghost predicate DataPhase(q: Request)
      reads this`ahead, this`inbox, q, q.rkey, q.rdata
    {
      HasKey(q) && q.rextra == null && Filling(q.rdata, q.dataLength, q.rbytes, 12 + q.keyLength)
    }

    /** Key and data have been read. */
    ghost predicate HasData(q: Request)
      reads this`ahead, q`opcode, q`keyLength, q`dataLength, q`extraLength, q`rkey, q`rdata, q.rkey, q.rdata
    {
      && HasKey(q) && 0 < q.dataLength && 12 + q.keyLength + q.dataLength <= |ahead|
      && Request.Holds(q.rdata, ahead[12 + q.keyLength..12 + q.keyLength + q.dataLength])
    }

    ghost predicate ExtraPhase(q: Request)
      reads this`ahead, this`inbox, q, q.rkey, q.rdata, q.rextra
    {
      HasData(q) && Filling(q.rextra, q.extraLength, q.rbytes, 12 + q.keyLength + q.dataLength)
    }

    /** Where the connection stands in the request it is reading. In each phase fewer bytes are
        there than the phase needs, and the buffer has room for them and a NUL. */
    ghost predicate RequestOk()
      reads this`state, this`inReq, this`inbox, this`ahead, Req()
      reads if inReq == null then {} else {inReq.header}
      reads if inReq == null then {} else {inReq.rkey, inReq.rdata, inReq.rextra}
    {
      inReq != null &&
      if state == READ_HEADER then HeaderPhase(inReq)
      else if state == READ_KEY then KeyPhase(inReq)
      else if state == READ_DATA then DataPhase(inReq)
      else state == READ_EXTRA && ExtraPhase(inReq)
    }

    /** The length in the response header, as ntohl reads it. */
    ghost function DataLen(): nat
      requires |outHeader| == RESP_HEADER_SIZE
      reads this`outHeader
    {
      FromBigEndian(outHeader[4..8])
    }

    /** What is written so far and what this response still has to write are the encoded answers to
        the answered requests. */
    ghost predicate ResponseOk()
      reads this`state, this`outHeader, this`outbox, this`sdata, this`sbytes, this`done, sdata
    {
      && |outHeader| == RESP_HEADER_SIZE && PayloadOk(sdata, DataLen())
      && if state == SEND_HEADER then
           && sbytes < RESP_HEADER_SIZE
           && outbox + outHeader[sbytes..] + Payload(sdata, DataLen()) == AllAnswers()
         else
           && state == SEND_DATA && sbytes < DataLen()
           && outbox + Payload(sdata, DataLen())[sbytes..] == AllAnswers()
    }

    ghost predicate Valid()
      reads this`state, this`interest, this`free, this`inReq, this`outHeader, this`sdata, this`sbytes
      reads this`outCanFree, this`inbox, this`outbox, this`ahead, this`done, this`served, this`todo, Req()
      reads if inReq == null then {} else {inReq.header}
      reads if inReq == null then {} else {inReq.rkey, inReq.rdata, inReq.rextra}
      reads sdata
      reads store, store.cache, store.cache.table, store.cache.items, store.held.Keys
      reads store.reqs`blocks, store.reqs`rkey, store.reqs`rdata, store.reqs`rextra, store.reqs`dataLength
      reads store.reqs`received
    {
      if Reading() then Between() && RequestOk()
      else
        && store.Valid() && BookOk() && PadOk() && HeapOk()
        && if Sending() then ResponseOk() && interest == EVENT_WRITE && inReq != null && ahead == inbox
           else if state == UNDEFINED then interest == NO_EVENT && !Handles(ahead) && outbox == AllAnswers()
           else state == CONN_CLOSED && interest == NO_EVENT && free && Own() == {} && outbox <= AllAnswers()
    }

    // ----- requests and responses as blocks -----------------------------------------------------

    /** free_request: a request that the cache has taken over is left alone. */
    method FreeRequest()
      requires store.Valid() && HeapOk()
      modifies this`inReq, store`live
      ensures store.Valid() && HeapOk()
      ensures inReq == if old(inReq) != null && old(inReq.canFree) then null else old(inReq)
    {
      hide Store.Valid, Request.Whole;
      if inReq == null || !inReq.canFree {
        return;
      }
      store.FreeReq(inReq);
      inReq := null;
    }

    /** free_response. */
    method FreeResponse()
      requires store.Valid() && HeapOk()
      modifies this`sdata, store`live
      ensures store.Valid() && HeapOk() && sdata == null
    {
      hide Store.Valid, Request.Whole;
      if outCanFree {
        if sdata != null {
          store.FreeData(sdata);
        }
      }
      sdata := null;
    }

    /** init_resources: what the last request and response still own is freed, and an empty request
        takes their place if there is memory for it. */
    method InitResources(memory: bool) returns (ok: bool)
      requires store.Valid() && HeapOk()
      modifies this`inReq, this`sdata, this`sbytes, this`outCanFree, store`live
      ensures store.Valid() && HeapOk() && ok == memory && sdata == null
      ensures if ok then
                && inReq != null && fresh(inReq) && fresh(inReq.header) && inReq.header.Length == REQ_HEADER_SIZE
                && inReq.rbytes == 0 && inReq.rkey == null && inReq.rdata == null && inReq.rextra == null
                && inReq.canFree && inReq.blocks == {inReq.header} && Own() == {inReq.header}
              else inReq == null && Own() == {}
    {
      hide *;
      FreeRequest();
      ReqIs();
      FreeResponse();
      NothingOwned();
      var q := store.NewRequest(memory);
      inReq := q;
      if inReq == null {
        OwnsRequest();
        return false;
      }
      sdata, sbytes, outCanFree := null, 0, true;
      OwnsRequest();
      return true;
    }

    lemma NothingOwned()
      requires HeapOk() && sdata == null && (inReq == null || !inReq.canFree)
      ensures store.Loose() == {}
    {
    }

    lemma OwnsRequest()
      requires sdata == null && store.Loose() == if inReq == null then {} else inReq.blocks
      requires inReq != null ==> inReq.canFree && inReq.Whole() && inReq.header in inReq.blocks
      ensures HeapOk() && Own() == if inReq == null then {} else inReq.blocks
    {
      hide Store.Loose, Request.Whole;
    }

    /** disconnect_conn: what the connection owns is freed, and it is no longer polled. */
    method DisconnectConn()
      requires store.Valid() && BookOk() && PadOk() && HeapOk() && outbox <= AllAnswers()
      modifies this`inReq, this`sdata, this`state, this`interest, this`free, store`live
      ensures Valid() && state == CONN_CLOSED && (inReq == null || inReq == old(inReq))
    {
      hide *;
      FreeRequest();
      ReqIs();
      FreeResponse();
      free := true;
      interest := NO_EVENT;
      state := CONN_CLOSED;
      ClosedIsValid();
    }

    lemma ReqIs()
      ensures Req() == if inReq == null then {} else {inReq}
    {
    }

    lemma ClosedIsValid()
      requires store.Valid() && BookOk() && PadOk() && HeapOk() && outbox <= AllAnswers()
      requires state == CONN_CLOSED && interest == NO_EVENT && free && sdata == null
      requires (inReq == null || !inReq.canFree)
      ensures Valid()
    {
      hide Store.Valid, BookOk, PadOk, AllAnswers, HeapOk;
    }

    /** set_conn_state, case READ_HEADER: the resources of the last command are released and an
        empty request is ready. Without memory for it the connection is closed. */
    method EnterReadHeader(memory: bool)
      requires store.Valid() && BookOk() && PadOk() && HeapOk() && outbox == AllAnswers() && ahead == inbox
      modifies this`inReq, this`sdata, this`sbytes, this`outCanFree, this`state, this`interest, this`free, store`live
      ensures Valid() && state == (if memory then READ_HEADER else CONN_CLOSED)
      ensures fresh(Req()) && forall b | b in Blocks() :: fresh(b)
    {
      hide *;
      var ok := InitResources(memory);
      FrameIs();
      if !ok {
        WholePrefix();
        DisconnectConn();
        FrameIs();
        return;
      }
      interest := EVENT_READ;
      state := READ_HEADER;
      HeaderStarts();
    }

    lemma WholePrefix()
      requires outbox == AllAnswers()
      ensures outbox <= AllAnswers()
    {
    }

    lemma HeaderStarts()
      requires store.Valid() && BookOk() && PadOk() && HeapOk() && outbox == AllAnswers() && ahead == inbox
      requires state == READ_HEADER && interest == EVENT_READ && sdata == null && inReq != null && inReq.canFree
      requires inReq.rkey == null && inReq.rdata == null && inReq.rextra == null
      requires inReq.rbytes == 0 && inReq.header.Length == REQ_HEADER_SIZE
      ensures Valid()
    {
      hide Store.Valid, BookOk, PadOk, HeapOk, AllAnswers;
      assert inReq.header[..0] + inbox == inbox;
    }

    // ----- reading --------------------------------------------------------------------------------

    /** The blocks of the request in hand, which read events fill. */
    ghost function Blocks(): set<array<byte>>
      reads this`inReq, Req()`blocks
    {
      if inReq == null then {} else inReq.blocks
    }

    /** What an event may change besides the connection itself. */
    ghost function Footprint(): set<object>
      reads this`inReq, Req()`blocks, store.cache`table, store.cache`items
    {
      {store, store.cache, store.cache.table} + store.cache.items + Req() + Blocks()
    }

    lemma FrameIs()
      ensures Req() == if inReq == null then {} else {inReq}
      ensures Blocks() == if inReq == null then {} else inReq.blocks
      ensures Footprint() == {store, store.cache, store.cache.table} + store.cache.items + Req() + Blocks()
      ensures this !in Footprint()
    {
    }

    /** Buffers of the request are not in the cache, and neither is the request. */
    lemma OwnBlocks()
      requires Between()
      ensures inReq != null && inReq.blocks <= store.Loose() && inReq.header in inReq.blocks && inReq.Whole()
      ensures inReq !in store.reqs && store.Valid() && inReq.blocks !! store.held.Keys && inReq.canFree
    {
      hide Store.Valid, Request.Whole, BookOk;
      store.NotCached(inReq);
    }

    /** read_nbytes: one byte from the socket to its place in the buffer. */
    method ReadNBytes(bytes: array<byte>, total: nat, io: Io) returns (ret: SocketState)
      requires Between() && bytes in inReq.blocks && inReq.rbytes < total <= bytes.Length
      modifies inReq`rbytes, bytes, this`inbox, this`bytesRead
      ensures Between()
      ensures ret in {READ_COMPLETED, NEED_MORE, READ_ERR} && (ret == READ_ERR <==> io == Ends)
      ensures ret == READ_COMPLETED ==> io == Moves && old(inbox) != []
      ensures if ret == READ_COMPLETED then
                inReq.rbytes == 0 && bytes[..total] + inbox == old(bytes[..inReq.rbytes] + inbox)
              else inReq.rbytes < total && bytes[..inReq.rbytes] + inbox == old(bytes[..inReq.rbytes] + inbox)
      ensures forall k | total <= k < bytes.Length :: bytes[k] == old(bytes[k])
      ensures ReadsByte(io, old(bytesRead), old(inbox), bytesRead, inbox)
    {
      hide *;
      OwnBlocks();
      ReadsFacts(io, bytesRead, inbox, bytesRead, inbox);
      if io == Ends {
        return READ_ERR;
      }
      if io == WouldBlock || inbox == [] {
        return NEED_MORE;
      }
      ghost var before := bytes[..inReq.rbytes];
      ghost var came := inbox;
      bytes[inReq.rbytes] := inbox[0];
      inbox := inbox[1..];
      bytesRead := bytesRead + 1;
      inReq.rbytes := inReq.rbytes + 1;
      assert bytes[..inReq.rbytes] == before + [came[0]] && came == [came[0]] + inbox;
      if inReq.rbytes == total {
        inReq.rbytes := 0;
        return READ_COMPLETED;
      }
      return NEED_MORE;
    }

    /** A buffer of n + 1 bytes ending in NUL, as the READ_KEY, READ_DATA and READ_EXTRA cases of
        set_conn_state allocate it. It counts as a block of the request from here on. Without memory
        nothing changes. */
    method PhaseBuffer(n: nat, memory: bool) returns (b: array?<byte>)
      requires Between()
      modifies store`live, inReq`blocks
      ensures b == null <==> !memory
      ensures b == null ==> Between() && inReq.blocks == old(inReq.blocks)
      ensures b != null ==>
                && fresh(b) && b.Length == n + 1 && b[n] == 0
                && inReq.blocks == old(inReq.blocks) + {b} && b !in old(inReq.blocks)
                && store.Valid() && BookOk() && store.Loose() == inReq.blocks && inReq !in store.reqs
                && inReq.header in old(inReq.blocks)
    {
      hide Store.Valid, BookOk, Request.Whole;
      OwnBlocks();
      b := store.NewBuffer(n + 1, memory);
      if b == null {
        return;
      }
      b[n] := 0;
      inReq.blocks := inReq.blocks + {b};
    }

    // ----- executing and answering ----------------------------------------------------------------

    /** add_response. The two padding bytes of the header stay what they were. */
    method AddResponse(data: array?<byte>, length: nat, code: byte)
      requires |outHeader| == RESP_HEADER_SIZE && inReq != null && PayloadOk(data, length)
      modifies this`outHeader, this`sdata, this`outCanFree, this`state, this`sbytes, this`interest
      ensures sdata == data && outCanFree && sbytes == 0 && state == SEND_HEADER && interest == EVENT_WRITE
      ensures var r := Resp(inReq.opcode, code, Payload(data, length));
              outHeader == RespHeader(r, Padding(old(outHeader)[2], old(outHeader)[3]))
      ensures DataLen() == length
    {
      hide BigEndian, FromBigEndian, Pow256, Payload;
      var n := BigEndian(length, 4);
      outHeader := outHeader[4 := n[0]][5 := n[1]][6 := n[2]][7 := n[3]];
      outHeader := outHeader[0 := inReq.opcode];
      outHeader := outHeader[1 := code];
      sdata := data;
      outCanFree := true;
      sbytes := 0;
      interest := EVENT_WRITE;
      state := SEND_HEADER;
      FourBytes();
      BigEndianRoundTrip(length, 4);
      assert outHeader[4..8] == n;
    }

    lemma FourBytes()
      ensures Pow256(4) == U32
    {
    }

    /** One more answered request extends run, answers and output by exactly its own. */
    lemma RunStep(es: seq<Event>, e: Event)
      ensures Run(init, es + [e]) == Next(Run(init, es), e.msg, e.env)
      ensures EncodeResps(Answers(init, es + [e]), pad)
              == EncodeResps(Answers(init, es), pad) + EncodeResp(Answer(Run(init, es), e.msg, e.env), pad)
    {
      hide Perform, EncodeResp;
      var es' := es + [e];
      assert es'[..|es' | - 1] == es;
      var rs := Answers(init, es');
      assert rs[..|rs| - 1] == Answers(init, es);
    }

    /** m is the first unit of the stream ahead, completely read. */
    ghost predicate Complete(m: Msg)
      reads this`ahead, this`inbox
    {
      Cut(ahead).Some? && Cut(ahead).value.0 == m && inbox == ahead[Cut(ahead).value.1..]
    }

    /** And it is one the server is written for. */
    ghost predicate Received(m: Msg)
      reads this`ahead, this`inbox
    {
      Complete(m) && WellFormed(m)
    }

    /** With the next byte the request in hand has been read up to a part that needs a block. */
    ghost predicate NextAtPart()
      reads this`state, this`ahead, this`inbox
    {
      Reading() && inbox != [] && |inbox| <= |ahead| && GivesUpAt(ahead, |ahead| - |inbox| + 1)
    }

    /** The request in hand has been read up to a part that needs a block. */
    ghost predicate GivenUp(m: Msg)
      reads this`ahead, this`inbox
    {
      m.Aborted? && GivesUpAt(ahead, m.taken) && m.opcode == ahead[0] && inbox == ahead[m.taken..]
    }

    /** The books when a unit of the stream is answered. */
    method Record(ghost m: Msg, env: Env)
      requires Track() && EventsOk(done) && EnvOk(env) && (Received(m) || (GivenUp(m) && !env.memory))
      modifies this`done, this`served, this`todo, this`ahead
      ensures Track() && EventsOk(done) && done == old(done) + [Event(m, env)] && ahead == inbox
      ensures InStep() <==> old(InStep()) && !m.Aborted?
    {
      hide Cut, EncodeAll, WellFormed, EnvOk, Encode, GivesUpAt, TakeAll;
      NotAborted(m);
      TakeStep(EncodeAll(script), done, ahead, Event(m, env));
      if served == |done| {
        CutFirst(todo);
        if !m.Aborted? {
          todo, served := todo[1..], served + 1;
        } else {
          InsideFirst(todo);
          FirstOpcode(todo);
        }
      }
      done := done + [Event(m, env)];
      ahead := inbox;
      assert Msgs(done)[..served] == script[..served];
    }

    lemma NotAborted(m: Msg)
      requires Received(m) || GivenUp(m)
      ensures m.Aborted? <==> !Received(m)
      ensures m.Aborted? ==> ahead != [] && m.opcode == ahead[0]
    {
    }

    /** The number of aborted requests tells whether the server is in step with the client. */
    lemma InStepExactly()
      requires Track()
      ensures InStep() <==> Aborts(done) == 0
    {
      hide TakeAll, EncodeAll, WellFormed;
      NoAborts(done);
      if InStep() {
        forall e | e in done ensures !e.msg.Aborted? {
          var i :| 0 <= i < |done| && done[i] == e;
          assert Msgs(done)[..served][i] == script[i] && script[i] in script;
          NeverSent(script[i]);
        }
      }
    }

    lemma InsideFirst(ms: seq<Msg>)
      requires AllWellFormed(ms) && EncodeAll(ms) != []
      ensures ms != []
    {
    }

    /** A response that is about to be sent. */
    lemma Responded(before: seq<byte>, r: Resp)
      requires |outHeader| == RESP_HEADER_SIZE && outHeader == RespHeader(r, pad) && DataLen() == |r.data|
      requires state == SEND_HEADER && sbytes == 0 && outbox == before
      requires PayloadOk(sdata, DataLen()) && r.data == Payload(sdata, DataLen())
      requires AllAnswers() == before + EncodeResp(r, pad)
      ensures ResponseOk()
    {
      hide RespHeader, DataLen, AllAnswers, PayloadOk, Payload;
      assert outHeader[0..] == outHeader;
      assert before + (outHeader + r.data) == before + outHeader + r.data;
    }

    lemma BooksOf()
      requires Between()
      ensures PadOk() && BookOk() && store.Abs() == Run(init, done) && Track() && EventsOk(done)
      ensures inReq != null && sdata == null && store.Loose() == inReq.blocks
      ensures outbox == EncodeResps(Answers(init, done), pad)
    {
      hide Store.Valid, EncodeResps, Answers, Run, Track, EventsOk;
    }

    lemma ReplyFacts(r: Reply)
      requires r.Ok() && store.held.Keys <= store.live
      requires r.Owned() <= store.Loose() && (r.data != null && !r.canFree ==> r.data in store.held)
      ensures r.data != null ==> r.data in store.live && (!r.canFree ==> r.data !in store.Loose())
      ensures r.Owned() == if r.canFree && r.data != null then {r.data} else {}
      ensures PayloadOk(r.data, r.length) && r.Bytes() == Payload(r.data, r.length)
    {
    }

    /** A unit of the stream has been dealt with, and `ans` is to be sent as its answer. */
    ghost predicate Executed(ans: Resp, data: array?<byte>, length: nat, canFree: bool)
      reads this`inReq, this`done, this`served, this`todo, this`ahead, this`inbox, this`outbox, data
      reads Req()`opcode, Req()`canFree, Req()`blocks, Req()`rkey, Req()`rdata, Req()`rextra
      reads store, store.cache, store.cache.table, store.cache.items, store.held.Keys
      reads store.reqs`blocks, store.reqs`rkey, store.reqs`rdata, store.reqs`rextra, store.reqs`dataLength
      reads store.reqs`received
    {
      && store.Valid() && BookOk() && ahead == inbox && AllAnswers() == outbox + EncodeResp(ans, pad)
      && inReq != null && inReq.Whole() && inReq.header in inReq.blocks
      && PayloadOk(data, length) && ans.opcode == inReq.opcode && ans.data == Payload(data, length)
      && store.Loose() ==
           (if inReq.canFree then inReq.blocks else {}) + (if canFree && data != null then {data} else {})
      && (data != null ==> data in store.live && (inReq.canFree ==> data !in inReq.blocks))
    }

    lemma IsExecuted(ans: Resp, data: array?<byte>, length: nat, canFree: bool)
      requires store.Valid() && store.Abs() == Run(init, done) && Track() && EventsOk(done)
      requires ahead == inbox && EncodeResps(Answers(init, done), pad) == outbox + EncodeResp(ans, pad)
      requires inReq != null && inReq.Whole() && inReq.header in inReq.blocks
      requires PayloadOk(data, length) && ans.opcode == inReq.opcode && ans.data == Payload(data, length)
      requires store.Loose() ==
                 (if inReq.canFree then inReq.blocks else {}) + (if canFree && data != null then {data} else {})
      requires data != null ==> data in store.live && (inReq.canFree ==> data !in inReq.blocks)
      ensures Executed(ans, data, length, canFree)
    {
      hide Store.Valid, Run, Answers, EncodeResps, Track, EventsOk, Request.Whole, PayloadOk, Payload;
    }

    /** The state after execute_cmd is that of a response to be sent. */
    lemma Answered(ans: Resp, length: nat)
      requires Executed(ans, sdata, length, outCanFree)
      requires outHeader == RespHeader(ans, pad) && DataLen() == length
      requires state == SEND_HEADER && sbytes == 0 && interest == EVENT_WRITE
      ensures Valid()
    {
      hide RespHeader, DataLen, Store.Valid, Run, Answers, EncodeResps, Track, EventsOk, Request.Whole;
      hide Payload, EncodeResp;
      PadOfHeader(ans);
      PadFacts();
      Responded(outbox, ans);
    }

    lemma PadOfHeader(r: Resp)
      requires outHeader == RespHeader(r, pad)
      ensures PadOk()
    {
    }

    lemma PadFacts()
      requires PadOk()
      ensures |outHeader| == RESP_HEADER_SIZE && pad == Padding(outHeader[2], outHeader[3])
    {
    }

    /** execute_cmd up to add_response. */
    method RunCommand(env: Env, ghost m: Msg) returns (r: Reply, ghost ans: Resp)
      requires Between() && inReq.Is(m) && Received(m) && EnvOk(env)
      modifies this`done, this`served, this`todo, this`ahead
      modifies store, store.cache, store.cache.table, store.cache.items, inReq`received, inReq`canFree
      ensures Executed(ans, r.data, r.length, r.canFree) && ans.code == r.code
      ensures done == old(done) + [Event(m, env)] && (InStep() <==> old(InStep()))
      ensures fresh(store.cache.items - old(store.cache.items))
      ensures fresh({store.cache.table} - {old(store.cache.table)})
    {
      hide *;
      OwnBlocks();
      BooksOf();
      RunStep(done, Event(m, env));
      RequestReceived(m);
      ghost var st := store.Abs();
      r := store.Execute(inReq, m, env);
      store.HeldLive();
      ReplyFacts(r);
      ans := Answer(st, m, env);
      Record(m, env);
      IsExecuted(ans, r.data, r.length, r.canFree);
    }

    lemma RequestReceived(m: Msg)
      requires Received(m)
      ensures WellFormed(m) && !m.Aborted?
    {
    }

    lemma ExecutedFacts(ans: Resp, data: array?<byte>, length: nat, canFree: bool)
      requires Executed(ans, data, length, canFree)
      ensures inReq != null && PayloadOk(data, length) && ans.opcode == inReq.opcode
      ensures ans.data == Payload(data, length)
    {
      hide Store.Valid;
    }

    /** execute_cmd: the request that was read is executed, and its answer is the next to be sent. */
    method ExecuteCmd(env: Env, ghost m: Msg)
      requires Between() && inReq.Is(m) && Received(m) && EnvOk(env) && state == CMD_RECEIVED
      modifies this`outHeader, this`sdata, this`outCanFree, this`state, this`sbytes, this`interest
      modifies this`done, this`served, this`todo, this`ahead
      modifies store, store.cache, store.cache.table, store.cache.items, inReq`received, inReq`canFree
      ensures Valid() && state == SEND_HEADER
      ensures done == old(done) + [Event(m, env)] && (InStep() <==> old(InStep()))
      ensures fresh(store.cache.items - old(store.cache.items))
      ensures fresh({store.cache.table} - {old(store.cache.table)})
    {
      hide *;
      BooksOf();
      var r;
      ghost var ans;
      r, ans := RunCommand(env, m);
      ExecutedFacts(ans, r.data, r.length, r.canFree);
      PadFacts();
      ReqIs();
      AddResponse(r.data, r.length, r.code);
      outCanFree := r.canFree;
      Answered(ans, r.length);
    }

    /** send_response for a unit that is not executed: a header that announces too much, or a request
        without memory for its next part. Its answer is a bare code, and the store stays. */
    method SendResponse(code: byte, env: Env, ghost m: Msg)
      requires Between() && EnvOk(env) && inReq.opcode == m.opcode
      requires || (m.Oversize? && code == INVALID_PARAM_SIZE && Received(m))
               || (code == OUT_OF_MEMORY && GivenUp(m) && !env.memory)
      modifies this`outHeader, this`sdata, this`outCanFree, this`state, this`sbytes, this`interest
      modifies this`done, this`served, this`todo, this`ahead
      ensures Valid() && state == SEND_HEADER && interest == EVENT_WRITE
      ensures done == old(done) + [Event(m, env)] && (InStep() <==> old(InStep()) && !m.Aborted?)
      ensures AllAnswers() == outbox + EncodeResp(Resp(m.opcode, code, []), pad)
    {
      hide *;
      OwnBlocks();
      BooksOf();
      RunStep(done, Event(m, env));
      GivenUpIsAborted(m);
      BareAnswer(store.Abs(), m, env);
      ghost var ans := Resp(m.opcode, code, []);
      Record(m, env);
      NoPayload();
      IsExecuted(ans, null, 0, true);
      PadFacts();
      ReqIs();
      AddResponse(null, 0, code);
      Answered(ans, 0);
      AnswersAre();
    }

    lemma AnswersAre()
      ensures AllAnswers() == EncodeResps(Answers(init, done), pad)
    {
    }

    lemma GivenUpIsAborted(m: Msg)
      ensures GivenUp(m) ==> m.Aborted?
    {
    }

    lemma BareAnswer(st: State, m: Msg, env: Env)
      ensures m.Oversize? ==> Next(st, m, env) == st && Answer(st, m, env) == Resp(m.opcode, INVALID_PARAM_SIZE, [])
      ensures m.Aborted? ==> Next(st, m, env) == st && Answer(st, m, env) == Resp(m.opcode, OUT_OF_MEMORY, [])
    {
    }

    lemma NoPayload()
      ensures PayloadOk(null, 0) && Payload(null, 0) == []
    {
    }

    // ----- the read phases ------------------------------------------------------------------------

    /** The blocks of a request, one by one. */
    lemma BlocksAre()
      requires Between()
      ensures inReq != null && inReq.canFree && inReq.Whole() && PadOk() && sdata == null && outbox == AllAnswers()
      ensures interest == EVENT_READ
      ensures inReq.blocks ==
                {inReq.header} + (if inReq.rkey == null then {} else {inReq.rkey})
                + (if inReq.rdata == null then {} else {inReq.rdata})
                + (if inReq.rextra == null then {} else {inReq.rextra})
      ensures inReq.header != inReq.rkey && inReq.header != inReq.rdata && inReq.header != inReq.rextra
      ensures inReq.rkey != null ==> inReq.rkey != inReq.rdata
    {
      hide Store.Valid, BookOk, PadOk, AllAnswers;
    }

    lemma GivenUpBeforeKey()
      requires inReq != null && Parsed(inReq) && 0 < inReq.keyLength && inbox == ahead[12..]
      ensures GivenUp(Aborted(inReq.opcode, 12))
    {
    }

    lemma GivenUpBeforeData()
      requires inReq != null && HasKey(inReq) && 0 < inReq.dataLength
      requires inbox == ahead[12 + inReq.keyLength..]
      ensures GivenUp(Aborted(inReq.opcode, 12 + inReq.keyLength)) && inReq.rkey != null
      ensures 12 + inReq.keyLength <= |ahead|
    {
    }

    lemma GivenUpBeforeExtra()
      requires inReq != null && HasData(inReq) && 0 < inReq.extraLength
      requires inbox == ahead[12 + inReq.keyLength + inReq.dataLength..]
      ensures GivenUp(Aborted(inReq.opcode, 12 + inReq.keyLength + inReq.dataLength)) && inReq.rkey != null
      ensures inReq.rdata != null
      ensures 12 + inReq.keyLength + inReq.dataLength <= |ahead|
    {
    }

    lemma KeyStarts(b: array<byte>)
      requires inReq != null && state == READ_KEY && Parsed(inReq) && 0 < inReq.keyLength && inbox == ahead[12..]
      requires inReq.rkey == b && inReq.rdata == null && inReq.rextra == null && inReq.rbytes == 0
      requires b.Length == inReq.keyLength + 1 && b[inReq.keyLength] == 0
      requires inReq.blocks == {inReq.header} + {b} && inReq.header != b
      ensures Reading() && RequestOk() && inReq.Whole()
    {
      hide Parsed;
      assert b[..0] + inbox == inbox;
      ParsedHeader();
    }

    lemma ParsedHeader()
      requires inReq != null && Parsed(inReq)
      ensures |ahead| >= 12
    {
    }

    lemma DataStarts(b: array<byte>)
      requires inReq != null && state == READ_DATA && HasKey(inReq) && 0 < inReq.dataLength
      requires 12 + inReq.keyLength <= |ahead| && inbox == ahead[12 + inReq.keyLength..]
      requires inReq.rkey != null && inReq.rdata == b && inReq.rextra == null && inReq.rbytes == 0
      requires b.Length == inReq.dataLength + 1 && b[inReq.dataLength] == 0
      requires inReq.blocks == {inReq.header} + {inReq.rkey} + {b} && inReq.header != b && inReq.rkey != b
      requires inReq.header != inReq.rkey
      ensures Reading() && RequestOk() && inReq.Whole()
    {
      hide HasKey;
      assert b[..0] + inbox == inbox;
    }

    lemma ExtraStarts(b: array<byte>)
      requires inReq != null && state == READ_EXTRA && HasData(inReq) && 0 < inReq.extraLength
      requires 12 + inReq.keyLength + inReq.dataLength <= |ahead|
      requires inbox == ahead[12 + inReq.keyLength + inReq.dataLength..]
      requires inReq.rkey != null && inReq.rdata != null && inReq.rextra == b && inReq.rbytes == 0
      requires b.Length == inReq.extraLength + 1 && b[inReq.extraLength] == 0
      requires inReq.blocks == {inReq.header} + {inReq.rkey} + {inReq.rdata} + {b} && inReq.header != b
      requires inReq.rkey != b && inReq.rdata != b && inReq.rkey != inReq.rdata
      requires inReq.header != inReq.rkey && inReq.header != inReq.rdata
      ensures Reading() && RequestOk() && inReq.Whole()
    {
      hide HasData;
      assert b[..0] + inbox == inbox;
    }

    /** A phase that starts with a new buffer of its own is a valid state. */
    lemma PhaseEntered()
      requires store.Valid() && BookOk() && PadOk() && sdata == null && outbox == AllAnswers() && interest == EVENT_READ
      requires inReq != null && inReq.canFree && inReq.Whole() && inReq.header in inReq.blocks
      requires store.Loose() == inReq.blocks
      requires Reading() && RequestOk()
      ensures Valid()
    {
      hide Store.Valid, Store.Loose, BookOk, PadOk, AllAnswers, RequestOk, Request.Whole;
    }

    /** set_conn_state, case READ_KEY. */
    method EnterReadKey(env: Env)
      requires Between() && EnvOk(env) && Parsed(inReq) && 0 < inReq.keyLength && inbox == ahead[12..]
      requires inReq.rkey == null && inReq.rdata == null && inReq.rextra == null && inReq.rbytes == 0
      modifies this`outHeader, this`sdata, this`outCanFree, this`state, this`sbytes, this`interest
      modifies this`done, this`todo, this`served, this`ahead
      modifies store`live, inReq`blocks, inReq`rkey
      ensures Valid() && state != CONN_CLOSED
      ensures Booked(old(done), done, !env.memory, env)
      ensures InStep() <==> old(InStep()) && env.memory
      ensures env.memory ==> state == READ_KEY && done == old(done)
      ensures inReq != null && inReq == old(inReq) && fresh(inReq.blocks - old(inReq.blocks))
      ensures !env.memory ==>
                && state == SEND_HEADER && interest == EVENT_WRITE
                && done == old(done) + [Event(Aborted(inReq.opcode, 12), env)]
                && AllAnswers() == outbox + EncodeResp(Resp(inReq.opcode, OUT_OF_MEMORY, []), pad)
    {
      hide *;
      BlocksAre();
      Books(done, Aborted(inReq.opcode, 12), env);
      GivenUpBeforeKey();
      var b := PhaseBuffer(inReq.keyLength, env.memory);
      if b == null {
        SendResponse(OUT_OF_MEMORY, env, Aborted(inReq.opcode, 12));
        return;
      }
      inReq.rkey := b;
      state := READ_KEY;
      KeyStarts(b);
      PhaseEntered();
    }

    /** set_conn_state, case READ_DATA. */
    method EnterReadData(env: Env)
      requires Between() && EnvOk(env) && HasKey(inReq) && 0 < inReq.dataLength
      requires inbox == ahead[12 + inReq.keyLength..]
      requires inReq.rdata == null && inReq.rextra == null && inReq.rbytes == 0
      modifies this`outHeader, this`sdata, this`outCanFree, this`state, this`sbytes, this`interest
      modifies this`done, this`todo, this`served, this`ahead
      modifies store`live, inReq`blocks, inReq`rdata
      ensures Valid() && state != CONN_CLOSED
      ensures Booked(old(done), done, !env.memory, env)
      ensures InStep() <==> old(InStep()) && env.memory
      ensures env.memory ==> state == READ_DATA && done == old(done)
      ensures inReq != null && inReq == old(inReq) && fresh(inReq.blocks - old(inReq.blocks))
      ensures !env.memory ==>
                && state == SEND_HEADER && interest == EVENT_WRITE
                && done == old(done) + [Event(Aborted(inReq.opcode, 12 + inReq.keyLength), env)]
                && AllAnswers() == outbox + EncodeResp(Resp(inReq.opcode, OUT_OF_MEMORY, []), pad)
    {
      hide *;
      BlocksAre();
      Books(done, Aborted(inReq.opcode, 12 + inReq.keyLength), env);
      GivenUpBeforeData();
      var b := PhaseBuffer(inReq.dataLength, env.memory);
      if b == null {
        SendResponse(OUT_OF_MEMORY, env, Aborted(inReq.opcode, 12 + inReq.keyLength));
        return;
      }
      inReq.rdata := b;
      state := READ_DATA;
      DataStarts(b);
      PhaseEntered();
    }

    /** set_conn_state, case READ_EXTRA. */
    method EnterReadExtra(env: Env)
      requires Between() && EnvOk(env) && HasData(inReq) && 0 < inReq.extraLength
      requires inbox == ahead[12 + inReq.keyLength + inReq.dataLength..] && inReq.rextra == null && inReq.rbytes == 0
      modifies this`outHeader, this`sdata, this`outCanFree, this`state, this`sbytes, this`interest
      modifies this`done, this`todo, this`served, this`ahead
      modifies store`live, inReq`blocks, inReq`rextra
      ensures Valid() && state != CONN_CLOSED
      ensures Booked(old(done), done, !env.memory, env)
      ensures InStep() <==> old(InStep()) && env.memory
      ensures env.memory ==> state == READ_EXTRA && done == old(done)
      ensures inReq != null && inReq == old(inReq) && fresh(inReq.blocks - old(inReq.blocks))
      ensures !env.memory ==>
                && state == SEND_HEADER && interest == EVENT_WRITE
                && done == old(done) + [Event(Aborted(inReq.opcode, 12 + inReq.keyLength + inReq.dataLength), env)]
                && AllAnswers() == outbox + EncodeResp(Resp(inReq.opcode, OUT_OF_MEMORY, []), pad)
    {
      hide *;
      BlocksAre();
      Books(done, Aborted(inReq.opcode, 12 + inReq.keyLength + inReq.dataLength), env);
      GivenUpBeforeExtra();
      var b := PhaseBuffer(inReq.extraLength, env.memory);
      if b == null {
        SendResponse(OUT_OF_MEMORY, env, Aborted(inReq.opcode, 12 + inReq.keyLength + inReq.dataLength));
        return;
      }
      inReq.rextra := b;
      state := READ_EXTRA;
      ExtraStarts(b);
      PhaseEntered();
    }

    // ----- when a phase is complete -----------------------------------------------------------------

    /** The parsed request from its parts, as the server cuts it. */
    lemma CutNoKey(q: Request)
      requires Parsed(q) && q.keyLength == 0 && q.rkey == null && q.rdata == null && q.rextra == null
      ensures var m := Request(q.opcode, [], [], []);
              Cut(ahead) == Some((m, REQ_HEADER_SIZE)) && q.Is(m)
    {
    }

    lemma CutKey(q: Request)
      requires HasKey(q) && q.dataLength == 0 && q.rdata == null && q.rextra == null
      ensures var m := Request(q.opcode, ahead[12..12 + q.keyLength], [], []);
              Cut(ahead) == Some((m, 12 + q.keyLength)) && q.Is(m)
    {
    }

    lemma CutData(q: Request)
      requires HasData(q) && q.extraLength == 0 && q.rextra == null
      ensures var k, d := 12 + q.keyLength, 12 + q.keyLength + q.dataLength;
              var m := Request(q.opcode, ahead[12..k], ahead[k..d], []);
              Cut(ahead) == Some((m, d)) && q.Is(m)
    {
    }

    lemma CutExtra(q: Request)
      requires HasData(q) && 0 < q.extraLength && 12 + q.keyLength + q.dataLength + q.extraLength <= |ahead|
      requires var d := 12 + q.keyLength + q.dataLength; Request.Holds(q.rextra, ahead[d..d + q.extraLength])
      ensures var k, d := 12 + q.keyLength, 12 + q.keyLength + q.dataLength;
              var e := d + q.extraLength;
              var m := Request(q.opcode, ahead[12..k], ahead[k..d], ahead[d..e]);
              Cut(ahead) == Some((m, e)) && q.Is(m)
    {
    }

    lemma CutOversize(op: byte, kl: byte, dl: nat, el: nat)
      requires |ahead| >= REQ_HEADER_SIZE && op == ahead[0] && kl == ahead[1]
      requires dl == FromBigEndian(ahead[4..8]) && el == FromBigEndian(ahead[8..12]) && TooLarge(kl, dl, el)
      ensures Cut(ahead) == Some((Oversize(op, kl, dl, el), REQ_HEADER_SIZE))
    {
    }

    lemma IsComplete(m: Msg, n: nat)
      requires Cut(ahead) == Some((m, n)) && n <= |ahead| && inbox == ahead[n..]
      ensures Complete(m) && Cut(ahead).value.0 == m
    {
    }

    /** Whether the command finds what it uses: the source goes on without looking. */
    static predicate Usable(q: Request)
      reads q`opcode, q`keyLength, q`rkey, q`rdata, q`rextra, q.rkey
    {
      && (q.rkey == null ==> q.opcode !in {CMD_GET, CMD_DELETE, CMD_GET_SETTING})
      && (q.rkey != null ==> q.keyLength <= q.rkey.Length && NulFree(q.rkey[..q.keyLength]))
      && (q.opcode == CMD_SET && q.rdata != null ==> q.rextra != null)
    }

    lemma UsableIs(m: Msg)
      requires inReq != null && inReq.Is(m) && Complete(m)
      ensures Usable(inReq) <==> WellFormed(m)
      ensures !WellFormed(m) ==> !Handles(ahead)
      ensures WellFormed(m) ==> Received(m) && !m.Aborted?
    {
      hide FromBigEndian;
      if m.key != [] {
        inReq.KeyIs(m);
      }
    }

    lemma Stops()
      requires Between()
      ensures store.Valid() && BookOk() && PadOk() && HeapOk() && outbox == AllAnswers()
    {
      hide Store.Valid, BookOk, PadOk, HeapOk, AllAnswers;
    }

    lemma Stopped()
      requires store.Valid() && BookOk() && PadOk() && HeapOk() && outbox == AllAnswers()
      requires state == UNDEFINED && interest == NO_EVENT && !Handles(ahead)
      ensures Valid()
    {
      hide Store.Valid, BookOk, PadOk, HeapOk, AllAnswers, Handles;
    }

    /** The request is complete: it is executed, unless the source is not written for it. */
    method CmdReceived(env: Env, ghost m: Msg)
      requires Between() && inReq.Is(m) && Complete(m) && EnvOk(env)
      modifies this`outHeader, this`sdata, this`outCanFree, this`state, this`sbytes, this`interest
      modifies this`done, this`todo, this`served, this`ahead, Footprint()
      ensures Valid()
      ensures forall o | o in Footprint() && o !in old(Footprint()) :: fresh(o)
      ensures Booked(old(done), done, false, env)
      ensures if WellFormed(m) then state == SEND_HEADER && done == old(done) + [Event(m, env)]
              else state == UNDEFINED && done == old(done)
    {
      hide *;
      FrameIs();
      Books(done, m, env);
      OwnBlocks();
      UsableIs(m);
      if Usable(inReq) {
        state := CMD_RECEIVED;
        ExecuteCmd(env, m);
      } else {
        Stops();
        state, interest := UNDEFINED, NO_EVENT;
        Stopped();
      }
      FrameIs();
    }

    /** After the size check: on to the key or straight to the command. */
    method HeaderParsed(env: Env)
      requires Between() && state == READ_HEADER && EnvOk(env) && Parsed(inReq)
      requires inReq.rkey == null && inReq.rdata == null && inReq.rextra == null && inReq.rbytes == 0
      requires |ahead| >= REQ_HEADER_SIZE == 12 && inbox == ahead[12..]
      modifies this`outHeader, this`sdata, this`outCanFree, this`state, this`sbytes, this`interest
      modifies this`done, this`todo, this`served, this`ahead, Footprint()
      ensures Valid() && state != CONN_CLOSED
      ensures forall o | o in Footprint() && o !in old(Footprint()) :: fresh(o)
      ensures Booked(old(done), done, old(GivesUpAt(ahead, 12)) && !env.memory, env)
    {
      hide *;
      BooksOf();
      AtKey();
      if inReq.keyLength == 0 {
        CutNoKey(inReq);
        IsComplete(Request(inReq.opcode, [], [], []), REQ_HEADER_SIZE);
        CmdReceived(env, Request(inReq.opcode, [], [], []));
      } else {
        FrameIs();
        EnterReadKey(env);
        FrameIs();
      }
    }

    /** The whole header is there: lengths to host order, the size check, and on to the key or
        straight to the command. */
    method HeaderDone(env: Env) returns (ret: SocketState)
      requires Between() && state == READ_HEADER && EnvOk(env)
      requires inReq.rkey == null && inReq.rdata == null && inReq.rextra == null && inReq.rbytes == 0
      requires inReq.header.Length == REQ_HEADER_SIZE && inReq.header[..] + inbox == ahead
      modifies this`outHeader, this`sdata, this`outCanFree, this`state, this`sbytes, this`interest
      modifies this`done, this`todo, this`served, this`ahead, Footprint()
      ensures Valid() && state != CONN_CLOSED
      ensures forall o | o in Footprint() && o !in old(Footprint()) :: fresh(o)
      ensures Booked(old(done), done, old(GivesUpAt(ahead, 12)) && !env.memory, env)
      ensures ret != READ_ERR
    {
      hide *;
      FrameIs();
      BooksOf();
      ParseHeader();
      FrameIs();
      IsTooLarge(inReq.keyLength, inReq.dataLength, inReq.extraLength);
      if inReq.dataLength >= MAX_DATA_SIZE || inReq.keyLength >= MAX_KEY_SIZE || inReq.extraLength >= MAX_EXTRA_SIZE {
        ghost var m := Oversize(inReq.opcode, inReq.keyLength, inReq.dataLength, inReq.extraLength);
        CutOversize(inReq.opcode, inReq.keyLength, inReq.dataLength, inReq.extraLength);
        IsComplete(m, REQ_HEADER_SIZE);
        IsOversize(m);
        Books(done, m, env);
        SendResponse(INVALID_PARAM_SIZE, env, m);
        FrameIs();
        return FAILED;
      }
      IsParsed();
      HeaderParsed(env);
      return READ_COMPLETED;
    }

    lemma IsOversize(m: Msg)
      requires Complete(m) && m.Oversize?
      ensures Received(m) && !m.Aborted? && !GivesUpAt(ahead, 12)
    {
      FromBigEndianBound(ahead[4..8]);
      FromBigEndianBound(ahead[8..12]);
      FourBytes();
    }

    lemma AtKey()
      requires inReq != null && Parsed(inReq)
      ensures GivesUpAt(ahead, 12) <==> 0 < inReq.keyLength
    {
    }

    lemma IsTooLarge(kl: nat, dl: nat, el: nat)
      ensures TooLarge(kl, dl, el) <==> dl >= MAX_DATA_SIZE || kl >= MAX_KEY_SIZE || el >= MAX_EXTRA_SIZE
      ensures REQ_HEADER_SIZE == 12
    {
    }

    lemma IsParsed()
      requires inReq != null && |ahead| >= REQ_HEADER_SIZE && inReq.opcode == ahead[0] && inReq.keyLength == ahead[1]
      requires inReq.dataLength == FromBigEndian(ahead[4..8]) && inReq.extraLength == FromBigEndian(ahead[8..12])
      requires inReq.dataLength < MAX_DATA_SIZE && inReq.keyLength < MAX_KEY_SIZE
      requires inReq.extraLength < MAX_EXTRA_SIZE
      ensures Parsed(inReq)
    {
    }

    /** Cutting the header into its fields, lengths in host order. */
    method ParseHeader()
      requires Between() && inReq.header.Length == REQ_HEADER_SIZE && inReq.header[..] + inbox == ahead
      modifies inReq`opcode, inReq`keyLength, inReq`dataLength, inReq`extraLength
      ensures Between() && |ahead| >= REQ_HEADER_SIZE && inbox == ahead[12..]
      ensures inReq.opcode == ahead[0] && inReq.keyLength == ahead[1] && inReq.keyLength < 256
      ensures inReq.dataLength == FromBigEndian(ahead[4..8]) && inReq.extraLength == FromBigEndian(ahead[8..12])
    {
      hide Store.Valid, Between, FromBigEndian, Request.Whole;
      OwnBlocks();
      var h := inReq.header;
      assert h[..][4..8] == h[4..8] == ahead[4..8] && h[..][8..12] == h[8..12] == ahead[8..12];
      inReq.opcode := h[0];
      inReq.keyLength := h[1];
      inReq.dataLength := FromBigEndian(h[4..8]);
      inReq.extraLength := FromBigEndian(h[8..12]);
    }

    /** The key is there. */
    method KeyDone(env: Env)
      requires Between() && state == READ_KEY && EnvOk(env) && HasKey(inReq)
      requires inReq.rdata == null && inReq.rextra == null && inReq.rbytes == 0
      requires inbox == ahead[12 + inReq.keyLength..]
      modifies this`outHeader, this`sdata, this`outCanFree, this`state, this`sbytes, this`interest
      modifies this`done, this`todo, this`served, this`ahead, Footprint()
      ensures Valid() && state != CONN_CLOSED
      ensures forall o | o in Footprint() && o !in old(Footprint()) :: fresh(o)
      ensures Booked(old(done), done, old(inReq.dataLength != 0) && !env.memory, env)
    {
      hide *;
      BooksOf();
      if inReq.dataLength == 0 {
        CutKey(inReq);
        ghost var m := Cut(ahead).value.0;
        IsComplete(m, 12 + inReq.keyLength);
        CmdReceived(env, m);
      } else {
        FrameIs();
        EnterReadData(env);
        FrameIs();
      }
    }

    /** The data is there. */
    method DataDone(env: Env)
      requires Between() && state == READ_DATA && EnvOk(env) && HasData(inReq)
      requires inReq.rextra == null && inReq.rbytes == 0 && inbox == ahead[12 + inReq.keyLength + inReq.dataLength..]
      modifies this`outHeader, this`sdata, this`outCanFree, this`state, this`sbytes, this`interest
      modifies this`done, this`todo, this`served, this`ahead, Footprint()
      ensures Valid() && state != CONN_CLOSED
      ensures forall o | o in Footprint() && o !in old(Footprint()) :: fresh(o)
      ensures Booked(old(done), done, old(inReq.extraLength != 0) && !env.memory, env)
    {
      hide *;
      BooksOf();
      if inReq.extraLength != 0 {
        FrameIs();
        EnterReadExtra(env);
        FrameIs();
      } else {
        CutData(inReq);
        ghost var m := Cut(ahead).value.0;
        IsComplete(m, 12 + inReq.keyLength + inReq.dataLength);
        CmdReceived(env, m);
      }
    }

    /** The extra part is there. */
    method ExtraDone(env: Env)
      requires Between() && state == READ_EXTRA && EnvOk(env) && HasData(inReq)
      requires 0 < inReq.extraLength
      requires 12 + inReq.keyLength + inReq.dataLength + inReq.extraLength <= |ahead|
      requires var d := 12 + inReq.keyLength + inReq.dataLength;
               && Request.Holds(inReq.rextra, ahead[d..d + inReq.extraLength])
               && inbox == ahead[d + inReq.extraLength..]
      modifies this`outHeader, this`sdata, this`outCanFree, this`state, this`sbytes, this`interest
      modifies this`done, this`todo, this`served, this`ahead, Footprint()
      ensures Valid() && state != CONN_CLOSED
      ensures forall o | o in Footprint() && o !in old(Footprint()) :: fresh(o)
      ensures Booked(old(done), done, false, env)
    {
      hide *;
      BooksOf();
      CutExtra(inReq);
      ghost var m := Cut(ahead).value.0;
      IsComplete(m, 12 + inReq.keyLength + inReq.dataLength + inReq.extraLength);
      CmdReceived(env, m);
    }

    // ----- the read events ------------------------------------------------------------------------

    /** A full buffer holds its part of the stream ahead. */
    lemma Filled(b: array<byte>, total: nat, off: nat)
      requires 0 < total && b.Length == total + 1 && b[total] == 0 && off <= |ahead|
      requires ahead[off..] == b[..total] + inbox
      ensures off + total <= |ahead| && Request.Holds(b, ahead[off..off + total]) && inbox == ahead[off + total..]
    {
      assert |ahead| - off == total + |inbox|;
      assert ahead[off..off + total] == ahead[off..][..total] == b[..total];
      assert ahead[off + total..] == ahead[off..][total..];
    }

    lemma IsFilling(b: array<byte>, total: nat, got: nat, off: nat)
      requires got < total && b.Length == total + 1 && b[total] == 0 && off <= |ahead|
      requires ahead[off..] == b[..got] + inbox
      ensures Filling(b, total, got, off)
    {
    }

    // Where a read phase stands, and that it stays there while the buffer is not full.

    lemma InHeader()
      requires Valid() && state == READ_HEADER
      ensures Between() && inReq != null && inReq.header in inReq.blocks
      ensures inReq.rkey == null && inReq.rdata == null && inReq.rextra == null
      ensures inReq.rbytes < inReq.header.Length == REQ_HEADER_SIZE && inReq.header[..inReq.rbytes] + inbox == ahead
      ensures NextAtPart() <==> inbox != [] && inReq.rbytes + 1 == REQ_HEADER_SIZE && GivesUpAt(ahead, 12)
    {
      hide FromBigEndian, TooLarge, Store.Valid, BookOk, PadOk, AllAnswers;
    }

    lemma StaysInHeader()
      requires Between() && state == READ_HEADER && inReq != null
      requires inReq.rkey == null && inReq.rdata == null && inReq.rextra == null
      requires inReq.rbytes < inReq.header.Length == REQ_HEADER_SIZE && inReq.header[..inReq.rbytes] + inbox == ahead
      ensures Valid()
    {
      hide Between;
    }

    /** try_read_request, case READ_HEADER. */
    method ReadHeader(io: Io, env: Env) returns (ret: SocketState)
      requires Valid() && state == READ_HEADER && EnvOk(env)
      modifies this`outHeader, this`sdata, this`outCanFree, this`state, this`sbytes, this`interest
      modifies this`done, this`todo, this`served, this`ahead, this`inbox, this`bytesRead, Footprint()
      ensures Valid() && (ret == READ_ERR <==> io == Ends) && state != CONN_CLOSED
      ensures forall o | o in Footprint() && o !in old(Footprint()) :: fresh(o)
      ensures Booked(old(done), done, io == Moves && old(NextAtPart()) && !env.memory, env)
      ensures ReadsByte(io, old(bytesRead), old(inbox), bytesRead, inbox)
      ensures io != Moves || old(inbox) == [] ==> state == old(state)
    {
      hide *;
      FrameIs();
      Books(done, Aborted(0, 0), env);
      ghost var count, stream := bytesRead, inbox;
      InHeader();
      var b := inReq.header;
      ret := ReadNBytes(b, REQ_HEADER_SIZE, io);
      ReadsFacts(io, count, stream, bytesRead, inbox);
      FrameIs();
      if ret == READ_COMPLETED {
        assert b[..REQ_HEADER_SIZE] == b[..];
        ret := HeaderDone(env);
      } else {
        StaysInHeader();
      }
    }

    lemma InKey()
      requires Valid() && state == READ_KEY
      ensures Between() && inReq != null && Parsed(inReq) && inReq.rdata == null && inReq.rextra == null
      ensures var b := inReq.rkey;
              && b != null && b in inReq.blocks && inReq.rbytes < inReq.keyLength
              && b.Length == inReq.keyLength + 1 && b[inReq.keyLength] == 0
              && 12 <= |ahead| && ahead[12..] == b[..inReq.rbytes] + inbox
      ensures NextAtPart() <==> inbox != [] && inReq.rbytes + 1 == inReq.keyLength && inReq.dataLength != 0
    {
      hide Store.Valid, BookOk, PadOk, AllAnswers, FromBigEndian;
    }

    lemma StaysInKey()
      requires Between() && state == READ_KEY && inReq != null && Parsed(inReq) && inReq.rdata == null
      requires inReq.rextra == null
      requires Filling(inReq.rkey, inReq.keyLength, inReq.rbytes, 12)
      ensures Valid()
    {
      hide Between, Parsed, Filling;
    }

    lemma GotKey(q: Request)
      requires Parsed(q) && 0 < q.keyLength && 12 + q.keyLength <= |ahead|
      requires Request.Holds(q.rkey, ahead[12..12 + q.keyLength])
      ensures HasKey(q)
    {
    }

    /** try_read_request, case READ_KEY. */
    method ReadKey(io: Io, env: Env) returns (ret: SocketState)
      requires Valid() && state == READ_KEY && EnvOk(env)
      modifies this`outHeader, this`sdata, this`outCanFree, this`state, this`sbytes, this`interest
      modifies this`done, this`todo, this`served, this`ahead, this`inbox, this`bytesRead, Footprint()
      ensures Valid() && (ret == READ_ERR <==> io == Ends) && state != CONN_CLOSED
      ensures forall o | o in Footprint() && o !in old(Footprint()) :: fresh(o)
      ensures Booked(old(done), done, io == Moves && old(NextAtPart()) && !env.memory, env)
      ensures ReadsByte(io, old(bytesRead), old(inbox), bytesRead, inbox)
      ensures io != Moves || old(inbox) == [] ==> state == old(state)
    {
      hide *;
      FrameIs();
      Books(done, Aborted(0, 0), env);
      ghost var count, stream := bytesRead, inbox;
      InKey();
      var b := inReq.rkey;
      ret := ReadNBytes(b, inReq.keyLength, io);
      ReadsFacts(io, count, stream, bytesRead, inbox);
      FrameIs();
      assert b[inReq.keyLength] == 0;
      if ret == READ_COMPLETED {
        Filled(b, inReq.keyLength, 12);
        GotKey(inReq);
        KeyDone(env);
      } else {
        IsFilling(b, inReq.keyLength, inReq.rbytes, 12);
        StaysInKey();
      }
    }

    lemma InData()
      requires Valid() && state == READ_DATA
      ensures Between() && inReq != null && HasKey(inReq) && inReq.rextra == null
      ensures var b, off := inReq.rdata, 12 + inReq.keyLength;
              && b != null && b in inReq.blocks && inReq.rkey != b && inReq.rbytes < inReq.dataLength
              && b.Length == inReq.dataLength + 1 && b[inReq.dataLength] == 0
              && off <= |ahead| && ahead[off..] == b[..inReq.rbytes] + inbox
      ensures NextAtPart() <==> inbox != [] && inReq.rbytes + 1 == inReq.dataLength && inReq.extraLength != 0
    {
      hide Store.Valid, BookOk, PadOk, AllAnswers, FromBigEndian;
    }

    lemma StaysInData()
      requires Between() && state == READ_DATA && inReq != null && HasKey(inReq) && inReq.rextra == null
      requires Filling(inReq.rdata, inReq.dataLength, inReq.rbytes, 12 + inReq.keyLength)
      ensures Valid()
    {
      hide Between, HasKey, Filling;
    }

    lemma GotData(q: Request)
      requires HasKey(q) && 0 < q.dataLength && 12 + q.keyLength + q.dataLength <= |ahead|
      requires Request.Holds(q.rdata, ahead[12 + q.keyLength..12 + q.keyLength + q.dataLength])
      ensures HasData(q)
    {
    }

    /** try_read_request, case READ_DATA. */
    method ReadData(io: Io, env: Env) returns (ret: SocketState)
      requires Valid() && state == READ_DATA && EnvOk(env)
      modifies this`outHeader, this`sdata, this`outCanFree, this`state, this`sbytes, this`interest
      modifies this`done, this`todo, this`served, this`ahead, this`inbox, this`bytesRead, Footprint()
      ensures Valid() && (ret == READ_ERR <==> io == Ends) && state != CONN_CLOSED
      ensures forall o | o in Footprint() && o !in old(Footprint()) :: fresh(o)
      ensures Booked(old(done), done, io == Moves && old(NextAtPart()) && !env.memory, env)
      ensures ReadsByte(io, old(bytesRead), old(inbox), bytesRead, inbox)
      ensures io != Moves || old(inbox) == [] ==> state == old(state)
    {
      hide *;
      FrameIs();
      Books(done, Aborted(0, 0), env);
      ghost var count, stream := bytesRead, inbox;
      InData();
      var b := inReq.rdata;
      ret := ReadNBytes(b, inReq.dataLength, io);
      ReadsFacts(io, count, stream, bytesRead, inbox);
      FrameIs();
      assert b[inReq.dataLength] == 0 && HasKey(inReq);
      if ret == READ_COMPLETED {
        Filled(b, inReq.dataLength, 12 + inReq.keyLength);
        GotData(inReq);
        DataDone(env);
      } else {
        IsFilling(b, inReq.dataLength, inReq.rbytes, 12 + inReq.keyLength);
        StaysInData();
      }
    }

    lemma InExtra()
      requires Valid() && state == READ_EXTRA
      ensures Between() && inReq != null && HasData(inReq)
      ensures var b, off := inReq.rextra, 12 + inReq.keyLength + inReq.dataLength;
              && b != null && b in inReq.blocks && inReq.rkey != b && inReq.rdata != b
              && inReq.rbytes < inReq.extraLength
              && b.Length == inReq.extraLength + 1 && b[inReq.extraLength] == 0
              && off <= |ahead| && ahead[off..] == b[..inReq.rbytes] + inbox
      ensures !NextAtPart()
    {
      hide Store.Valid, BookOk, PadOk, AllAnswers, FromBigEndian;
    }

    lemma StaysInExtra()
      requires Between() && state == READ_EXTRA && inReq != null && HasData(inReq)
      requires Filling(inReq.rextra, inReq.extraLength, inReq.rbytes, 12 + inReq.keyLength + inReq.dataLength)
      ensures Valid()
    {
      hide Between, HasData, Filling;
    }

    /** try_read_request, case READ_EXTRA. */
    method ReadExtra(io: Io, env: Env) returns (ret: SocketState)
      requires Valid() && state == READ_EXTRA && EnvOk(env)
      modifies this`outHeader, this`sdata, this`outCanFree, this`state, this`sbytes, this`interest
      modifies this`done, this`todo, this`served, this`ahead, this`inbox, this`bytesRead, Footprint()
      ensures Valid() && (ret == READ_ERR <==> io == Ends) && state != CONN_CLOSED
      ensures forall o | o in Footprint() && o !in old(Footprint()) :: fresh(o)
      ensures Booked(old(done), done, io == Moves && old(NextAtPart()) && !env.memory, env)
      ensures ReadsByte(io, old(bytesRead), old(inbox), bytesRead, inbox)
      ensures io != Moves || old(inbox) == [] ==> state == old(state)
    {
      hide *;
      FrameIs();
      Books(done, Aborted(0, 0), env);
      ghost var count, stream := bytesRead, inbox;
      InExtra();
      var b := inReq.rextra;
      ret := ReadNBytes(b, inReq.extraLength, io);
      ReadsFacts(io, count, stream, bytesRead, inbox);
      FrameIs();
      assert b[inReq.extraLength] == 0;
      if ret == READ_COMPLETED {
        Filled(b, inReq.extraLength, 12 + inReq.keyLength + inReq.dataLength);
        ExtraDone(env);
      } else {
        IsFilling(b, inReq.extraLength, inReq.rbytes, 12 + inReq.keyLength + inReq.dataLength);
        StaysInExtra();
      }
    }

    /** try_read_request. Its default branch, an event in a state that does not read, is excluded by
        the interest registered with the poller. */
    method TryReadRequest(io: Io, env: Env) returns (ret: SocketState)
      requires Valid() && interest == EVENT_READ && EnvOk(env)
      modifies this`outHeader, this`sdata, this`outCanFree, this`state, this`sbytes, this`interest
      modifies this`done, this`todo, this`served, this`ahead, this`inbox, this`bytesRead, Footprint()
      ensures Valid() && (ret == READ_ERR <==> io == Ends) && state != CONN_CLOSED
      ensures forall o | o in Footprint() && o !in old(Footprint()) :: fresh(o)
      ensures Booked(old(done), done, io == Moves && old(NextAtPart()) && !env.memory, env)
      ensures ReadsByte(io, old(bytesRead), old(inbox), bytesRead, inbox)
      ensures io != Moves || old(inbox) == [] ==> state == old(state)
    {
      hide *;
      ReadingState();
      match state {
        case READ_HEADER => ret := ReadHeader(io, env);
        case READ_KEY => ret := ReadKey(io, env);
        case READ_DATA => ret := ReadData(io, env);
        case READ_EXTRA => ret := ReadExtra(io, env);
      }
    }

    lemma ReadingState()
      requires Valid() && interest == EVENT_READ
      ensures state in {READ_HEADER, READ_KEY, READ_DATA, READ_EXTRA}
    {
      hide Between, ResponseOk, BookOk;
    }

    // ----- the write events -----------------------------------------------------------------------

    /** send_nbytes: one byte of the buffer to the socket. */
    method SendNBytes(bytes: seq<byte>, total: nat, io: Io) returns (ret: SocketState)
      requires sbytes < total <= |bytes|
      modifies this`sbytes, this`outbox, this`bytesWritten
      ensures ret in {SEND_COMPLETED, NEED_MORE, SEND_ERR} && (ret == SEND_ERR <==> io == Ends)
      ensures if ret == SEND_COMPLETED then sbytes == 0 && outbox == old(outbox + bytes[sbytes..total])
              else sbytes < total && outbox + bytes[sbytes..total] == old(outbox + bytes[sbytes..total])
      ensures bytesWritten == old(bytesWritten) + (if io == Moves then 1 else 0)
      ensures bytesWritten - |outbox| == old(bytesWritten - |outbox|)
    {
      if io == Ends {
        return SEND_ERR;
      }
      if io == WouldBlock {
        return NEED_MORE;
      }
      ghost var rest := bytes[sbytes..total];
      outbox := outbox + [bytes[sbytes]];
      bytesWritten := bytesWritten + 1;
      sbytes := sbytes + 1;
      assert rest == [bytes[sbytes - 1]] + bytes[sbytes..total];
      if sbytes == total {
        sbytes := 0;
        return SEND_COMPLETED;
      }
      return NEED_MORE;
    }

    /** What holds while a response is sent. */
    ghost predicate Outgoing()
      reads this`done, this`served, this`todo, this`ahead, this`inbox, this`outHeader, this`interest
      reads this`inReq, this`sdata, this`outCanFree
      reads Req()`canFree, Req()`blocks, Req()`rkey, Req()`rdata, Req()`rextra
      reads store, store.cache, store.cache.table, store.cache.items, store.held.Keys
      reads store.reqs`blocks, store.reqs`rkey, store.reqs`rdata, store.reqs`rextra, store.reqs`dataLength
      reads store.reqs`received
    {
      && store.Valid() && BookOk() && PadOk() && HeapOk()
      && inReq != null && ahead == inbox && interest == EVENT_WRITE
    }

    lemma OutgoingFacts()
      requires Outgoing()
      ensures store.Valid() && BookOk() && PadOk() && HeapOk() && ahead == inbox
      ensures |outHeader| == 8 && RESP_HEADER_SIZE == 8 && DataLen() == FromBigEndian(outHeader[4..8])
    {
      hide Store.Valid, BookOk, HeapOk, FromBigEndian;
    }

    lemma InSendHeader()
      requires Valid() && state == SEND_HEADER
      ensures Outgoing() && |outHeader| == RESP_HEADER_SIZE && sbytes < RESP_HEADER_SIZE && PayloadOk(sdata, DataLen())
      ensures outbox + outHeader[sbytes..RESP_HEADER_SIZE] + Payload(sdata, DataLen()) == AllAnswers()
    {
      hide Store.Valid, BookOk, PadOk, AllAnswers, HeapOk, DataLen, PayloadOk, Payload;
      assert outHeader[sbytes..RESP_HEADER_SIZE] == outHeader[sbytes..];
    }

    lemma StaysInSendHeader()
      requires Outgoing() && state == SEND_HEADER && |outHeader| == RESP_HEADER_SIZE && sbytes < RESP_HEADER_SIZE
      requires PayloadOk(sdata, DataLen())
      requires outbox + outHeader[sbytes..RESP_HEADER_SIZE] + Payload(sdata, DataLen()) == AllAnswers()
      ensures Valid()
    {
      hide Store.Valid, BookOk, PadOk, AllAnswers, HeapOk, DataLen, PayloadOk, Payload;
      assert outHeader[sbytes..RESP_HEADER_SIZE] == outHeader[sbytes..];
    }

    lemma EntersSendData()
      requires Outgoing() && state == SEND_DATA && |outHeader| == RESP_HEADER_SIZE && sbytes == 0 && DataLen() != 0
      requires PayloadOk(sdata, DataLen()) && outbox + Payload(sdata, DataLen()) == AllAnswers()
      ensures Valid()
    {
      hide Store.Valid, BookOk, PadOk, AllAnswers, HeapOk, DataLen, PayloadOk, Payload;
      assert Payload(sdata, DataLen())[0..] == Payload(sdata, DataLen());
    }

    lemma NoDataToSend()
      requires |outHeader| == RESP_HEADER_SIZE && PayloadOk(sdata, DataLen()) && DataLen() == 0
      ensures outbox + Payload(sdata, DataLen()) == outbox
    {
      hide DataLen;
    }

    /** try_send_response, case SEND_HEADER. */
    method SendHeader(io: Io, env: Env) returns (ret: SocketState)
      requires Valid() && state == SEND_HEADER
      modifies this`inReq, this`sdata, this`sbytes, this`outCanFree, this`state, this`interest, this`free
      modifies this`outbox, this`bytesWritten, store`live
      ensures Valid() && (ret == SEND_ERR <==> io == Ends) && (state == CONN_CLOSED ==> !env.memory)
      ensures forall o | o in Footprint() && o !in old(Footprint()) :: fresh(o)
      ensures bytesWritten == old(bytesWritten) + (if io == Moves then 1 else 0)
      ensures bytesWritten - |outbox| == old(bytesWritten - |outbox|)
    {
      hide *;
      FrameIs();
      InSendHeader();
      OutgoingFacts();
      ghost var rest := Payload(sdata, DataLen());
      ret := SendNBytes(outHeader, RESP_HEADER_SIZE, io);
      if ret == SEND_COMPLETED {
        if FromBigEndian(outHeader[4..8]) != 0 {
          state := SEND_DATA;
          EntersSendData();
        } else {
          NoDataToSend();
          state := CMD_SENT;
          EnterReadHeader(env.memory);
        }
      } else {
        StaysInSendHeader();
      }
      FrameIs();
    }

    lemma InSendData()
      requires Valid() && state == SEND_DATA
      ensures Outgoing() && |outHeader| == RESP_HEADER_SIZE && sbytes < DataLen() && PayloadOk(sdata, DataLen())
      ensures sdata != null && DataLen() <= sdata.Length && sdata[..DataLen()] == Payload(sdata, DataLen())
      ensures outbox + sdata[..DataLen()][sbytes..DataLen()] == AllAnswers()
    {
      hide Store.Valid, BookOk, PadOk, AllAnswers, HeapOk, DataLen;
      assert sdata[..DataLen()][sbytes..DataLen()] == Payload(sdata, DataLen())[sbytes..];
    }

    lemma StaysInSendData()
      requires Outgoing() && state == SEND_DATA && |outHeader| == RESP_HEADER_SIZE && sbytes < DataLen()
      requires PayloadOk(sdata, DataLen()) && sdata != null && DataLen() <= sdata.Length
      requires outbox + sdata[..DataLen()][sbytes..DataLen()] == AllAnswers()
      ensures Valid()
    {
      hide Store.Valid, BookOk, PadOk, AllAnswers, HeapOk, DataLen;
      assert sdata[..DataLen()][sbytes..DataLen()] == Payload(sdata, DataLen())[sbytes..];
    }

    /** try_send_response, case SEND_DATA. */
    method SendData(io: Io, env: Env) returns (ret: SocketState)
      requires Valid() && state == SEND_DATA
      modifies this`inReq, this`sdata, this`sbytes, this`outCanFree, this`state, this`interest, this`free
      modifies this`outbox, this`bytesWritten, store`live
      ensures Valid() && (ret == SEND_ERR <==> io == Ends) && (state == CONN_CLOSED ==> !env.memory)
      ensures forall o | o in Footprint() && o !in old(Footprint()) :: fresh(o)
      ensures bytesWritten == old(bytesWritten) + (if io == Moves then 1 else 0)
      ensures bytesWritten - |outbox| == old(bytesWritten - |outbox|)
    {
      hide *;
      FrameIs();
      InSendData();
      OutgoingFacts();
      var n := FromBigEndian(outHeader[4..8]);
      ret := SendNBytes(sdata[..n], n, io);
      if ret == SEND_COMPLETED {
        state := CMD_SENT;
        EnterReadHeader(env.memory);
      } else {
        StaysInSendData();
      }
      FrameIs();
    }

    /** try_send_response. Its default branch is excluded as in try_read_request. */
    method TrySendResponse(io: Io, env: Env) returns (ret: SocketState)
      requires Valid() && interest == EVENT_WRITE
      modifies this`inReq, this`sdata, this`sbytes, this`outCanFree, this`state, this`interest, this`free
      modifies this`outbox, this`bytesWritten, store`live
      ensures Valid() && (ret == SEND_ERR <==> io == Ends) && (state == CONN_CLOSED ==> !env.memory)
      ensures forall o | o in Footprint() && o !in old(Footprint()) :: fresh(o)
      ensures bytesWritten == old(bytesWritten) + (if io == Moves then 1 else 0)
      ensures bytesWritten - |outbox| == old(bytesWritten - |outbox|)
    {
      hide *;
      SendingState();
      match state {
        case SEND_HEADER => ret := SendHeader(io, env);
        case SEND_DATA => ret := SendData(io, env);
      }
    }

    lemma SendingState()
      requires Valid() && interest == EVENT_WRITE
      ensures state in {SEND_HEADER, SEND_DATA}
    {
      hide RequestOk, ResponseOk, BookOk, HeapOk;
    }

    // ----- events ---------------------------------------------------------------------------------

    lemma Disconnectable()
      requires Valid()
      ensures store.Valid() && BookOk() && PadOk() && HeapOk() && outbox <= AllAnswers()
    {
      hide Store.Valid, BookOk, PadOk, RequestOk, AllAnswers, HeapOk, DataLen, PayloadOk, Payload;
    }

    /** event_handler, case EVENT_READ, for a client connection. */
    method HandleRead(io: Io, env: Env)
      requires Valid() && EnvOk(env) && interest == EVENT_READ
      modifies this`outHeader, this`sdata, this`outCanFree, this`state, this`sbytes, this`interest, this`free
      modifies this`done, this`todo, this`served, this`ahead, this`inbox, this`bytesRead, this`inReq
      modifies Footprint()
      ensures Valid()
      ensures forall o | o in Footprint() && o !in old(Footprint()) :: fresh(o)
      ensures Booked(old(done), done, io == Moves && old(NextAtPart()) && !env.memory, env)
      ensures ReadsByte(io, old(bytesRead), old(inbox), bytesRead, inbox)
      ensures state == CONN_CLOSED <==> io == Ends
      ensures io == WouldBlock || (io == Moves && old(inbox) == []) ==> state == old(state)
    {
      hide *;
      FrameIs();
      var ret := TryReadRequest(io, env);
      FrameIs();
      if ret == READ_ERR {
        Disconnectable();
        DisconnectConn();
        FrameIs();
      }
    }

    /** event_handler, case EVENT_WRITE. */
    method HandleWrite(io: Io, env: Env)
      requires Valid() && interest == EVENT_WRITE
      modifies this`inReq, this`sdata, this`sbytes, this`outCanFree, this`state, this`interest, this`free
      modifies this`outbox, this`bytesWritten, store`live
      ensures Valid()
      ensures forall o | o in Footprint() && o !in old(Footprint()) :: fresh(o)
      ensures bytesWritten == old(bytesWritten) + (if io == Moves then 1 else 0)
      ensures bytesWritten - |outbox| == old(bytesWritten - |outbox|)
      ensures (io == Ends ==> state == CONN_CLOSED) && (state == CONN_CLOSED ==> io == Ends || !env.memory)
    {
      hide *;
      FrameIs();
      var ret := TrySendResponse(io, env);
      FrameIs();
      if ret == SEND_ERR {
        Disconnectable();
        DisconnectConn();
        FrameIs();
      }
    }

    /** event_handler for a client connection. The poller delivers only the registered event, or one
        that was pending when the connection closed, which is ignored. A request is aborted, and with
        it the server loses step with the client, exactly if the byte that comes is the last before a
        part that needs a block and there is no memory for it. */
    method EventHandler(ev: Interest, io: Io, env: Env)
      requires Valid() && EnvOk(env) && state != UNDEFINED && (state != CONN_CLOSED ==> ev == interest)
      modifies this, Footprint()
      ensures Valid()
      ensures forall o | o in Footprint() && o !in old(Footprint()) :: fresh(o)
      ensures Booked(old(done), done, io == Moves && old(NextAtPart()) && !env.memory, env)
      ensures bytesWritten - |outbox| == old(bytesWritten - |outbox|)
      ensures var way := if old(interest) == EVENT_READ then io else WouldBlock;
              ReadsByte(way, old(bytesRead), old(inbox), bytesRead, inbox)
      ensures bytesWritten == old(bytesWritten) + (if old(interest) == EVENT_WRITE && io == Moves then 1 else 0)
      ensures old(state) == CONN_CLOSED ==> state == CONN_CLOSED
      ensures old(state) != CONN_CLOSED ==>
                && lastHeard == env.now && (io == Ends ==> state == CONN_CLOSED)
                && (state == CONN_CLOSED ==> io == Ends || (ev == EVENT_WRITE && !env.memory))
      ensures InStep() <==> old(InStep()) && !(io == Moves && old(NextAtPart()) && !env.memory)
      ensures io != Ends && old(Idle()) ==> Idle()
    {
      hide *;
      FrameIs();
      Books(done, Aborted(0, 0), env);
      ReadsFacts(WouldBlock, bytesRead, inbox, bytesRead, inbox);
      ghost var count, stream := bytesRead, inbox;
      ghost var before, refused := done, io == Moves && NextAtPart() && !env.memory;
      IdleIs();
      TrackOf();
      InStepExactly();
      if state == CONN_CLOSED {
        return;
      }
      OpenState();
      lastHeard := env.now;
      match ev {
        case EVENT_READ =>
          HandleRead(io, env);
          ReadsFacts(io, count, stream, bytesRead, inbox);
          IdleIs();
        case EVENT_WRITE =>
          HandleWrite(io, env);
          IdleIs();
      }
      BookedFacts(before, done, refused, env);
      TrackOf();
      InStepExactly();
    }

    lemma TrackOf()
      requires Valid()
      ensures Track() && (NextAtPart() ==> Reading()) && (state == CONN_CLOSED ==> interest == NO_EVENT)
    {
      hide Store.Valid, HeapOk, RequestOk, ResponseOk, Track, AllAnswers;
    }

    /** The server waits, and everything the client has sent has been read. */
    ghost predicate Idle()
      reads this`state, this`inbox
    {
      Reading() && inbox == []
    }

    lemma IdleIs()
      ensures Reading() <==> state in {READ_HEADER, READ_KEY, READ_DATA, READ_EXTRA}
      ensures Idle() <==> state in {READ_HEADER, READ_KEY, READ_DATA, READ_EXTRA} && inbox == []
    {
    }

    lemma OpenState()
      requires Valid() && state !in {CONN_CLOSED, UNDEFINED}
      ensures interest in {EVENT_READ, EVENT_WRITE} && (interest == EVENT_READ <==> Reading())
    {
      hide RequestOk, ResponseOk, BookOk, HeapOk, AllAnswers;
    }

    /** While no request was aborted, the next request is the client's, so the server is written for
        it. */
    lemma NextIsHandled()
      requires Valid() && InStep()
      ensures Handles(ahead) && state != UNDEFINED
    {
      hide Store.Valid, HeapOk, RequestOk, ResponseOk, Cut, EncodeAll, WellFormed, TakeAll;
      CutFirst(todo);
    }

    // ----- what the invariant says ----------------------------------------------------------------

    /** The answered units were taken off the client's stream one by one and leave what is ahead; up to
        the first aborted one they are the client's requests, in order and no others. The store is in
        the state they lead to, and what the server has written is a prefix of their encoded answers,
        all of it once it reads again. */
    lemma Served()
      requires Valid()
      ensures AllWellFormed(script) && TakeAll(EncodeAll(script), done) == Some(ahead)
      ensures served <= |done| && served <= |script| && Msgs(done)[..served] == script[..served]
      ensures served < |done| ==>
                && served < |script|
                && done[served].msg.Aborted? && done[served].msg.opcode == script[served].opcode
      ensures InStep() <==> Aborts(done) == 0
      ensures store.Abs() == Run(init, done) && EventsOk(done)
      ensures outbox <= EncodeResps(Answers(init, done), pad)
      ensures Reading() ==> outbox == EncodeResps(Answers(init, done), pad)
    {
      hide Store.Valid, RequestOk, HeapOk, DataLen, Run, Answers, EncodeResps, PayloadOk, Payload, TakeAll;
      InStepExactly();
    }

    /** The answered units are a prefix of the client's requests exactly as long as none of them was
        aborted. */
    lemma ServedExactly()
      requires Valid()
      ensures Msgs(done) <= script <==> Aborts(done) == 0
    {
      hide Valid, Aborts, TakeAll, EncodeAll, EncodeResps, Answers, Run, EventsOk, Track, WellFormed;
      Served();
      if served < |done| {
        assert Msgs(done)[served] == done[served].msg;
        NeverSent(script[served]);
      } else {
        assert Msgs(done) == Msgs(done)[..served];
      }
    }

    /** With the first aborted request the server loses its place: what is left of the stream begins
        with the rest of that request's body. */
    lemma AbortLeaves()
      requires Valid() && !InStep()
      ensures served < |script| && served < |done| && AllWellFormed(script)
      ensures var m, n := script[served], done[served].msg.taken;
              && m.Request? && 12 <= n < |Encode(m)|
              && TakeAll(EncodeAll(script), done[..served + 1])
                 == Some(Encode(m)[n..] + EncodeAll(script[served + 1..]))
    {
      hide *;
      Served();
      InStepIs();
      FirstAbort(script, done, served);
    }

    lemma InStepIs()
      ensures InStep() <==> served == |done|
    {
    }

    /** When the server waits, nothing is left to read and no request was aborted, every request has
        been answered. */
    lemma AllServed()
      requires Valid() && Idle() && InStep()
      ensures Msgs(done) == script && state == READ_HEADER && inReq != null && inReq.rbytes == 0
    {
      hide Store.Valid, HeapOk, Run, Answers, EncodeResps, Encode, Cut, Handles;
      CutFirst(todo);
      NothingCut();
    }

    /** When the server waits and nothing is left to read, no complete unit is left unanswered. */
    lemma NothingWaits()
      requires Valid() && Idle()
      ensures Cut(ahead) == None
    {
      hide Store.Valid, HeapOk, BookOk, PadOk, AllAnswers, Cut;
      NothingCut();
    }

    /** The source goes wrong only on a unit it is not written for, after everything before it was
        answered. */
    lemma StuckOn()
      requires Valid()
      ensures state == UNDEFINED ==> !Handles(ahead) && outbox == EncodeResps(Answers(init, done), pad)
    {
      hide Store.Valid, HeapOk, BookOk, PadOk, EncodeResps, Answers, Handles;
    }

    /** What has been read of the unit in hand lies between the stream ahead and the socket. */
    lemma Position()
      requires Valid()
      ensures state !in {CONN_CLOSED, UNDEFINED} ==> |inbox| <= |ahead| && (interest == EVENT_WRITE ==> ahead == inbox)
      ensures NextAtPart() <==>
                && interest == EVENT_READ && inbox != [] && |inbox| <= |ahead|
                && GivesUpAt(ahead, |ahead| - |inbox| + 1)
    {
      hide Store.Valid, HeapOk, BookOk, PadOk, AllAnswers, FromBigEndian;
    }

    /** An incomplete request on the stream cannot be cut. */
    lemma NothingCut()
      requires Reading() && RequestOk() && inbox == []
      ensures Cut(ahead) == None
      ensures state != READ_HEADER ==> |ahead| >= REQ_HEADER_SIZE
    {
    }

    /** At every step interest and state agree, and a read phase has room for the bytes to come,
        whatever requests were aborted before. */
    lemma InterestMatchesState()
      requires Valid()
      ensures interest == EVENT_READ <==> state in {READ_HEADER, READ_KEY, READ_DATA, READ_EXTRA}
      ensures interest == EVENT_WRITE <==> state in {SEND_HEADER, SEND_DATA}
      ensures state == READ_HEADER ==> inReq != null && inReq.rbytes < 12 == inReq.header.Length
      ensures state == READ_KEY ==>
                && inReq != null && inReq.rkey != null && inReq.rbytes < inReq.keyLength
                && inReq.rkey.Length == inReq.keyLength + 1 && inReq.rkey[inReq.keyLength] == 0
      ensures state == READ_DATA ==>
                && inReq != null && inReq.rdata != null && inReq.rbytes < inReq.dataLength
                && inReq.rdata.Length == inReq.dataLength + 1 && inReq.rdata[inReq.dataLength] == 0
      ensures state == READ_EXTRA ==>
                && inReq != null && inReq.rextra != null && inReq.rbytes < inReq.extraLength
                && inReq.rextra.Length == inReq.extraLength + 1 && inReq.rextra[inReq.extraLength] == 0
    {
      hide Store.Valid, HeapOk, BookOk, PadOk, AllAnswers, ResponseOk, Parsed;
    }

    /** Back in READ_HEADER the live blocks are the one empty request and four for each item of the
        cache: its request, key, data and extra. */
    lemma NothingLeaks()
      requires Valid() && state == READ_HEADER
      ensures inReq != null && store.live == {inReq.header} + store.held.Keys && inReq.header !in store.held
      ensures |store.live| == 1 + 4 * |store.store|
    {
      hide Store.Valid, BookOk, PadOk, AllAnswers;
      store.HeldLive();
      store.FourBlocksEach();
      assert store.Loose() == {inReq.header};
    }

    /** A closed connection has given back everything but the cache. */
    lemma NothingLeaksAfterClose()
      requires Valid() && state == CONN_CLOSED
      ensures store.live == store.held.Keys && |store.live| == 4 * |store.store|
    {
      hide Store.Valid, BookOk, PadOk, AllAnswers;
      store.HeldLive();
      store.FourBlocksEach();
      assert forall b | b in store.live :: b in store.Loose() || b in store.held.Keys;
    }
  }

  /** One poll: what the socket does, the clock, and whether there is memory. */
  datatype Delivery = Delivery(io: Io, env: Env)

  /** How many deliveries of the schedule move a byte if there is one. */
  function Moving(schedule: seq<Delivery>): nat {
    if schedule == [] then 0
    else Moving(schedule[..|schedule| - 1]) + if schedule[|schedule| - 1].io == Moves then 1 else 0
  }

  /** The peer stays. */
  predicate Connected(schedule: seq<Delivery>) {
    forall d | d in schedule :: d.io != Ends
  }

  predicate Supplied(schedule: seq<Delivery>) {
    forall d | d in schedule :: d.env.memory
  }

  /** Any schedule of deliveries, up to where the source is undefined. The connection is closed only
      if the peer is gone or memory is refused, and a request is aborted only if memory is refused.
      While the connection is served, every delivery that may move a byte moves exactly one, until
      everything is served, with blocked deliveries anywhere in between. */
  method Serve(c: Conn, schedule: seq<Delivery>)
    requires c.Valid() && forall d | d in schedule :: EnvOk(d.env)
    modifies c, c.Footprint()
    ensures c.Valid() && old(c.done) <= c.done
    ensures forall o | o in c.Footprint() && o !in old(c.Footprint()) :: fresh(o)
    ensures Supplied(schedule) ==> Aborts(c.done) == old(Aborts(c.done))
    ensures Supplied(schedule) && Connected(schedule) && old(c.state) != CONN_CLOSED ==> c.state != CONN_CLOSED
    ensures c.bytesRead + |c.inbox| == old(c.bytesRead + |c.inbox|)
    ensures c.bytesWritten - |c.outbox| == old(c.bytesWritten - |c.outbox|)
    ensures c.bytesRead + c.bytesWritten <= old(c.bytesRead + c.bytesWritten) + Moving(schedule)
    ensures c.state !in {CONN_CLOSED, UNDEFINED} ==>
              c.Idle() || c.bytesRead + c.bytesWritten == old(c.bytesRead + c.bytesWritten) + Moving(schedule)
  {
    hide *;
    var i := 0;
    MovingGrows(schedule, 0);
    while i < |schedule| && c.state != UNDEFINED
      invariant 0 <= i <= |schedule|
      invariant c.Valid() && old(c.done) <= c.done
      invariant c.bytesRead + |c.inbox| == old(c.bytesRead + |c.inbox|)
      invariant c.bytesWritten - |c.outbox| == old(c.bytesWritten - |c.outbox|)
      invariant c.bytesRead + c.bytesWritten <= old(c.bytesRead + c.bytesWritten) + Moving(schedule[..i])
      invariant Supplied(schedule) ==> Aborts(c.done) == old(Aborts(c.done))
      invariant Supplied(schedule) && Connected(schedule) && old(c.state) != CONN_CLOSED ==> c.state != CONN_CLOSED
      invariant c.state !in {CONN_CLOSED, UNDEFINED} ==>
                  || c.Idle()
                  || c.bytesRead + c.bytesWritten == old(c.bytesRead + c.bytesWritten) + Moving(schedule[..i])
      invariant forall o | o in c.Footprint() && o !in old(c.Footprint()) :: fresh(o)
    {
      c.IdleIs();
      MovingStep(schedule, i);
      if c.state != CONN_CLOSED {
        c.OpenState();
      }
      ghost var count, stream := c.bytesRead, c.inbox;
      ghost var way := if c.interest == EVENT_READ then schedule[i].io else WouldBlock;
      ghost var before, refused := c.done, schedule[i].io == Moves && c.NextAtPart() && !schedule[i].env.memory;
      c.EventHandler(c.interest, schedule[i].io, schedule[i].env);
      ReadsFacts(way, count, stream, c.bytesRead, c.inbox);
      BookedFacts(before, c.done, refused, schedule[i].env);
      i := i + 1;
    }
    MovingGrows(schedule, i);
    assert schedule[..|schedule|] == schedule;
  }

  lemma {:induction false} MovingGrows(schedule: seq<Delivery>, i: nat)
    requires i <= |schedule|
    ensures Moving(schedule[..0]) == 0 && Moving(schedule[..i]) <= Moving(schedule)
  {
    if i < |schedule| {
      MovingGrows(schedule[..|schedule| - 1], i);
      assert schedule[..|schedule| - 1][..i] == schedule[..i];
    } else {
      assert schedule[..i] == schedule;
    }
  }

  lemma MovingStep(schedule: seq<Delivery>, i: nat)
    requires i < |schedule|
    ensures Moving(schedule[..i + 1]) == Moving(schedule[..i]) + if schedule[i].io == Moves then 1 else 0
    ensures Supplied(schedule) ==> schedule[i].env.memory
    ensures Connected(schedule) ==> schedule[i].io != Ends
  {
    assert schedule[..i + 1][..i] == schedule[..i];
  }
}

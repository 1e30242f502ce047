// A whole session: a client sends requests, the server serves them under any schedule, and the
// client reads the responses (src/lightcache.c:638-691, test/lcclient.py:28-79).
module Session {
  import opened Arithmetic
  import opened Common
  import opened Numbers
  import opened Wire
  import opened Commands
  import opened Streams
  import opened Executor
  import opened Connection

  /** How many bytes a session moves at most that reads `bytes` bytes and answers `units` units. */
  function Traffic(bytes: nat, units: nat): nat {
    bytes + (RESP_HEADER_SIZE + MAX_DATA_SIZE) * units
  }

  /** The encoded requests go through the server byte by byte, under any schedule, with deliveries
      that block, a peer that goes away, and memory given or refused at any point.

      What the server has answered was taken off the client's stream unit by unit. It is a prefix of
      the requests exactly if no request was aborted; else it is one up to the first that was, and from
      there on what the server finds behind the part it had no memory for. The store and the written
      bytes are those of the map with expiry, and whenever the server reads, the client decodes exactly
      the answers, in order and with their opcodes.

      A connection that is not closed, and on which nothing the source is not written for was found,
      has read everything and answered every complete unit once enough deliveries could move a byte.
      Without refused memory nothing is aborted; with a peer that stays, the connection is not closed
      either. */
  method RunSession(hash: Key -> nat, timeout: word, requests: seq<Msg>, junk: seq<byte>, memory: bool,
                    schedule: seq<Delivery>)
    returns (c: Conn, got: seq<Resp>)
    requires AllWellFormed(requests) && |junk| == RESP_HEADER_SIZE && forall d | d in schedule :: EnvOk(d.env)
    ensures c.script == requests && c.init == State(map[], timeout, 0, 0, 0, 0)
    ensures TakeAll(EncodeAll(requests), c.done) == Some(c.ahead) && EventsOk(c.done)
    ensures Msgs(c.done) <= requests <==> Aborts(c.done) == 0
    ensures Aborts(c.done) > 0 ==>
              && c.served < |c.done| && c.served < |requests| && Msgs(c.done)[..c.served] == requests[..c.served]
              && c.done[c.served].msg.Aborted? && c.done[c.served].msg.opcode == requests[c.served].opcode
    ensures c.store.Abs() == Run(c.init, c.done)
    ensures c.outbox <= EncodeResps(Answers(c.init, c.done), c.pad)
    ensures c.state in {READ_HEADER, READ_KEY, READ_DATA, READ_EXTRA} ==>
              got == Answers(c.init, c.done) && forall i | 0 <= i < |got| :: got[i].opcode == c.done[i].msg.opcode
    ensures c.Idle() ==> Cut(c.ahead) == None
    ensures c.Idle() && Aborts(c.done) == 0 ==> Msgs(c.done) == requests && c.state == READ_HEADER
    ensures c.state == UNDEFINED ==> !Handles(c.ahead) && Aborts(c.done) > 0
    ensures c.state !in {CONN_CLOSED, UNDEFINED} ==>
              var bytes := |EncodeAll(requests)|;
              && (Moving(schedule) > Traffic(bytes, bytes / REQ_HEADER_SIZE) ==> c.Idle())
              && (Moving(schedule) > Traffic(bytes, |requests|) && Aborts(c.done) == 0 ==> c.Idle())
    ensures memory && Supplied(schedule) ==> Aborts(c.done) == 0
    ensures memory && Supplied(schedule) && Connected(schedule) ==> c.state !in {CONN_CLOSED, UNDEFINED}
  {
    hide *;
    var s := new Store(hash, timeout);
    NothingHeld(s);
    StartState(timeout);
    c := new Conn(s, requests, junk, memory);
    c.FrameIs();
    NoAborts(c.done);
    Serve(c, schedule);
    c.Served();
    c.ServedExactly();
    c.IdleIs();
    Outcome(c);
    WithinTraffic(c);
    got := [];
    if c.state in {READ_HEADER, READ_KEY, READ_DATA, READ_EXTRA} {
      SmallAnswers(c.init, c.done);
      got := Decode(c.outbox, Answers(c.init, c.done), c.pad);
      Echoes(c.init, c.done);
    }
  }

  /** What the final state says. */
  lemma Outcome(c: Conn)
    requires c.Valid()
    ensures c.Idle() ==> Cut(c.ahead) == None
    ensures c.Idle() && Aborts(c.done) == 0 ==> Msgs(c.done) == c.script && c.state == READ_HEADER
    ensures c.state == UNDEFINED ==> !Handles(c.ahead) && Aborts(c.done) > 0
    ensures Aborts(c.done) > 0 <==> c.served < |c.done|
    ensures Aborts(c.done) == 0 ==> |c.done| <= |c.script|
  {
    hide *;
    c.Served();
    c.InStepIs();
    c.StuckOn();
    if c.Idle() {
      c.NothingWaits();
      if c.InStep() {
        c.AllServed();
      }
    }
    if c.InStep() {
      c.NextIsHandled();
    }
  }

  /** The client's view of the written bytes. */
  method Decode(stream: seq<byte>, ghost rs: seq<Resp>, ghost pad: Padding) returns (got: seq<Resp>)
    requires stream == EncodeResps(rs, pad) && forall r | r in rs :: |r.data| < U32
    ensures got == rs
  {
    var client := new Client(stream);
    got := ReceiveAll(client, rs, pad);
  }

  lemma NothingHeld(s: Store)
    requires s.live == {}
    ensures s.Loose() == {}
  {
  }

  lemma StartState(timeout: word)
    ensures SmallData(State(map[], timeout, 0, 0, 0, 0))
  {
  }

  lemma SmallAnswers(st: State, es: seq<Event>)
    requires SmallData(st) && EventsOk(es)
    ensures forall r | r in Answers(st, es) :: |r.data| < MAX_DATA_SIZE < U32
  {
    AnswersSmall(st, es);
  }

  lemma Echoes(st: State, es: seq<Event>)
    ensures forall i | 0 <= i < |es| :: Answers(st, es)[i].opcode == es[i].msg.opcode
  {
    forall i | 0 <= i < |es| ensures Answers(st, es)[i].opcode == es[i].msg.opcode {
      AnswersEchoOpcodes(st, es, i);
    }
  }

  /** What is written is never more than the answers, of which there are at most as many as headers
      fit in the stream, and as requests while none was aborted. */
  lemma WithinTraffic(c: Conn)
    requires SmallData(c.init) && EventsOk(c.done) && AllWellFormed(c.script)
    requires c.outbox <= EncodeResps(Answers(c.init, c.done), c.pad)
    requires TakeAll(EncodeAll(c.script), c.done) == Some(c.ahead)
    ensures var bytes := |EncodeAll(c.script)|;
            && bytes + |c.outbox| <= Traffic(bytes, bytes / REQ_HEADER_SIZE)
            && (|c.done| <= |c.script| ==> bytes + |c.outbox| <= Traffic(bytes, |c.script|))
  {
    hide EncodeAll, Answers, EncodeResps, EventsOk, SmallData, TakeAll;
    SmallAnswers(c.init, c.done);
    RespsBound(Answers(c.init, c.done), c.pad);
    TakeBound(EncodeAll(c.script), c.done);
    MulMonotone(|c.done|, |EncodeAll(c.script)| / REQ_HEADER_SIZE, RESP_HEADER_SIZE + MAX_DATA_SIZE);
    if |c.done| <= |c.script| {
      MulMonotone(|c.done|, |c.script|, RESP_HEADER_SIZE + MAX_DATA_SIZE);
    }
  }
}

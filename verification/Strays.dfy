// Where the client's requests and the served ones part: after a request was aborted for want of
// memory, the rest of its body is taken for requests (src/lightcache.c:201-224).
module Strays {
  import opened Arithmetic
  import opened Common
  import opened Numbers
  import opened Wire
  import opened Commands
  import opened Streams
  import opened Executor
  import opened Connection
  import Session

  /** A SET whose data are packed requests. */
  function Carrier(key: Key, ms: seq<Msg>, extra: seq<byte>): Msg
    requires AllWellFormed(ms)
  {
    Request(CMD_SET, key, EncodeAll(ms), extra)
  }

  /** The key, requests and extra that make one. */
  predicate Carries(key: Key, ms: seq<Msg>, extra: seq<byte>) {
    AllWellFormed(ms) && ms != [] && WellFormed(Carrier(key, ms, extra))
  }

  /** Such a SET that finds no memory for its data. */
  function AbortedSet(key: Key): Msg {
    Aborted(CMD_SET, 12 + |key|)
  }

  lemma BeforeData(key: Key, ms: seq<Msg>, extra: seq<byte>)
    requires Carries(key, ms, extra)
    ensures AllWellFormed(ms) && ms != [] && WellFormed(Carrier(key, ms, extra))
    ensures AllWellFormed([Carrier(key, ms, extra)])
    ensures var s := Encode(Carrier(key, ms, extra));
            && s != [] && s[0] == CMD_SET && key != [] && |s| == 12 + |key| + |EncodeAll(ms)| + |extra|
            && GivesUpAt(s, 12 + |key|) && s[12 + |key|..] == EncodeAll(ms) + extra
            && EncodeAll([Carrier(key, ms, extra)]) == s && AbortedSet(key) == Aborted(s[0], 12 + |key|)
  {
    hide BigEndian, FromBigEndian, EncodeAll;
    var m := Carrier(key, ms, extra);
    var s, h := Encode(m), HeaderOf(m);
    FirstOpcode(ms);
    HeaderDecodes(m);
    assert s[..12] == h && s[0] == h[0] && s[1] == h[1] && s[4..8] == h[4..8] && s[8..12] == h[8..12];
    BodyFrom(h, key, EncodeAll(ms), extra, []);
    OneRequest(m);
  }

  lemma OneRequest(m: Msg)
    requires WellFormed(m)
    ensures AllWellFormed([m]) && EncodeAll([m]) == Encode(m)
  {
  }

  /** When a SET is aborted before its data, the server takes the data for requests, whatever requests
      they spell, although the client sent none of them. */
  lemma StrayRequests(key: Key, ms: seq<Msg>, extra: seq<byte>, env: Env, es: seq<Event>)
    requires Carries(key, ms, extra) && !env.memory && Msgs(es) == ms
    ensures TakeAll(EncodeAll([Carrier(key, ms, extra)]), [Event(AbortedSet(key), env)] + es) == Some(extra)
  {
    hide Cut, EncodeAll, GivesUpAt;
    var e, s := Event(AbortedSet(key), env), EncodeAll([Carrier(key, ms, extra)]);
    BeforeData(key, ms, extra);
    TakeOne(s, e);
    TakeParts(s, [e], EncodeAll(ms) + extra, es);
    TakeFront(es, extra);
  }

  /** For instance a FLUSH_ALL in the data: the client asked for one SET, and the cache is empty. */
  lemma StrayFlush(st: State, key: Key, extra: seq<byte>, env: Env, env': Env)
    requires Carries(key, [Request(CMD_FLUSH_ALL, [], [], [])], extra) && !env.memory
    ensures var flush := Request(CMD_FLUSH_ALL, [], [], []);
            var es := [Event(AbortedSet(key), env), Event(flush, env')];
            && TakeAll(EncodeAll([Carrier(key, [flush], extra)]), es) == Some(extra)
            && Run(st, es) == st.(store := map[])
            && Run(st, [Event(Carrier(key, [flush], extra), env)]).store.Keys >= st.store.Keys
  {
    hide TakeAll, Encode, EncodeAll, Atoull;
    var flush := Request(CMD_FLUSH_ALL, [], [], []);
    var es := [Event(AbortedSet(key), env), Event(flush, env')];
    assert Msgs([Event(flush, env')]) == [flush] && [Event(AbortedSet(key), env)] + [Event(flush, env')] == es;
    StrayRequests(key, [flush], extra, env, [Event(flush, env')]);
    assert es[..1] == [Event(AbortedSet(key), env)];
    RunOne(st, Event(AbortedSet(key), env));
    RunOne(st, Event(Carrier(key, [flush], extra), env));
  }

  lemma RunOne(st: State, e: Event)
    ensures Run(st, [e]) == Next(st, e.msg, e.env)
  {
  }

  // ----- a run that does it -----------------------------------------------------------------------

  function Steady(n: nat, env: Env): (d: seq<Delivery>)
    ensures |d| == n && forall x | x in d :: x == Delivery(Moves, env)
  {
    seq(n, i => Delivery(Moves, env))
  }

  lemma {:induction false} SteadyMoves(n: nat, env: Env)
    ensures Moving(Steady(n, env)) == n && Connected(Steady(n, env)) && (env.memory ==> Supplied(Steady(n, env)))
  {
    if n > 0 {
      SteadyMoves(n - 1, env);
      assert Steady(n, env)[..n - 1] == Steady(n - 1, env);
    }
  }

  /** Just before the data the server has answered nothing, and the next byte starts the part that
      needs a block. */
  lemma AtTheData(c: Conn, key: Key, ms: seq<Msg>, extra: seq<byte>)
    requires c.Valid() && Carries(key, ms, extra) && c.script == [Carrier(key, ms, extra)]
    requires Aborts(c.done) == 0 && c.state !in {CONN_CLOSED, UNDEFINED}
    requires c.bytesRead + |c.inbox| == |EncodeAll(c.script)| && c.bytesWritten == |c.outbox|
    requires c.bytesRead + c.bytesWritten <= 11 + |key|
    requires c.Idle() || c.bytesRead + c.bytesWritten == 11 + |key|
    ensures c.done == [] && c.outbox == [] && c.ahead == EncodeAll(c.script) && c.interest == EVENT_READ
    ensures c.NextAtPart() && |c.inbox| == |EncodeAll(c.script)| - 11 - |key|
  {
    hide *;
    BeforeData(key, ms, extra);
    var put := Carrier(key, ms, extra);
    c.Served();
    c.InStepIs();
    c.Position();
    c.IdleIs();
    c.OpenState();
    OnlyRequest(c.done, put);
    NoAnswers(c.init, c.pad);
  }

  lemma NoAnswers(st: State, pad: Padding)
    ensures EncodeResps(Answers(st, []), pad) == []
  {
  }

  /** What a run without aborts takes off a stream of one request. */
  lemma {:induction false} OnlyRequest(es: seq<Event>, m: Msg)
    requires WellFormed(m) && |es| <= 1 && Aborts(es) == 0
    ensures EncodeAll([m]) == Encode(m)
    ensures TakeAll(Encode(m), es).Some? ==> TakeAll(Encode(m), es).value == if es == [] then Encode(m) else []
  {
    hide Cut, Encode;
    CutInvertsEncode(m, []);
    assert Encode(m) + [] == Encode(m);
    if es != [] {
      NoAborts(es);
      assert es == [es[0]] && es[0] in es;
      TakeOne(Encode(m), es[0]);
    }
  }
  /** With that byte and no memory the SET is aborted. */
  lemma Aborting(c: Conn, key: Key, ms: seq<Msg>, extra: seq<byte>, env: Env)
    requires c.Valid() && Carries(key, ms, extra) && c.script == [Carrier(key, ms, extra)]
    requires Booked([], c.done, true, env) && c.outbox == [] && c.state != CONN_CLOSED
    requires |c.inbox| == |EncodeAll(c.script)| - 12 - |key|
    ensures c.done == [Event(AbortedSet(key), env)] && Aborts(c.done) == 1
  {
    hide *;
    BeforeData(key, ms, extra);
    c.Served();
    c.Position();
    c.StuckOn();
    c.IdleIs();
    if c.state != UNDEFINED {
      c.OpenState();
    }
    RespsLength(Answers(c.init, c.done), c.pad);
    OneAbort(EncodeAll(c.script), c.done, env, c.init);
    NoAborts([]);
    BookedFacts([], c.done, true, env);
  }

  lemma OneAbort(s: seq<byte>, es: seq<Event>, env: Env, st: State)
    requires Booked([], es, true, env) && TakeAll(s, es).Some?
    ensures |es| == |Answers(st, es)| == 1 && RESP_HEADER_SIZE == 8
    ensures var n := |s| - |TakeAll(s, es).value|;
            0 <= n && s != [] && es == [Event(Aborted(s[0], n), env)] && TakeAll(s, es).value == s[n..]
  {
    hide GivesUpAt;
    assert es == [es[0]];
    TakeOne(s, es[0]);
    GivesUpInside(s, es[0].msg.taken);
  }

  lemma GivesUpInside(s: seq<byte>, n: nat)
    ensures GivesUpAt(s, n) ==> s != [] && n <= |s|
  {
  }

  /** From there on the server executes what the data spell. */
  lemma Straying(c: Conn, key: Key, ms: seq<Msg>, extra: seq<byte>, env: Env)
    requires c.Valid() && Carries(key, ms, extra) && c.script == [Carrier(key, ms, extra)] && |extra| < REQ_HEADER_SIZE
    requires [Event(AbortedSet(key), env)] <= c.done && Aborts(c.done) == 1 && !env.memory
    ensures c.state != UNDEFINED
    ensures c.Idle() ==> Msgs(c.done) == [AbortedSet(key)] + ms
  {
    hide *;
    c.Served();
    c.StuckOn();
    AfterAbort(key, ms, extra, env, c.done, c.ahead);
    if c.Idle() {
      c.NothingWaits();
    }
  }

  lemma AfterAbort(key: Key, ms: seq<Msg>, extra: seq<byte>, env: Env, es: seq<Event>, ahead: seq<byte>)
    requires Carries(key, ms, extra) && |extra| < REQ_HEADER_SIZE && !env.memory
    requires [Event(AbortedSet(key), env)] <= es && Aborts(es) == 1
    requires TakeAll(EncodeAll([Carrier(key, ms, extra)]), es) == Some(ahead)
    ensures Handles(ahead) && (Cut(ahead) == None ==> Msgs(es) == [AbortedSet(key)] + ms)
  {
    hide EncodeAll, GivesUpAt, Cut, TakeAll, Carries;
    BeforeData(key, ms, extra);
    var e, fs, s := Event(AbortedSet(key), env), es[1..], EncodeAll([Carrier(key, ms, extra)]);
    assert es == [e] + fs;
    TakeOne(s, e);
    TakeParts(s, [e], EncodeAll(ms) + extra, fs);
    AbortsAfter(e, fs);
    TakeCuts(EncodeAll(ms) + extra, fs);
    CutAllInvertsEncodeAll(ms, extra);
    TooShort(extra);
    assert ms == Msgs(fs) + CutAll(ahead).0;
    if Cut(ahead).Some? {
      assert CutAll(ahead).0[0] in ms;
    }
    assert Msgs(es) == [AbortedSet(key)] + Msgs(fs);
  }

  lemma TooShort(s: seq<byte>)
    requires |s| < REQ_HEADER_SIZE
    ensures Cut(s) == None
  {
  }

  lemma {:induction false} AbortsAfter(e: Event, fs: seq<Event>)
    ensures Aborts([e] + fs) == Aborts(fs) + if e.msg.Aborted? then 1 else 0
  {
    if fs == [] {
      assert [e] + fs == [e] && [e][..0] == [];
    } else {
      AbortsAfter(e, fs[..|fs| - 1]);
      assert ([e] + fs)[..|[e] + fs| - 1] == [e] + fs[..|fs| - 1];
    }
  }

  /** The client sends one SET, and there is no memory at the moment its data start. */
  method AbortAtData(hash: Key -> nat, timeout: word, key: Key, ms: seq<Msg>, extra: seq<byte>, junk: seq<byte>,
                     yes: Env, no: Env)
    returns (c: Conn)
    requires Carries(key, ms, extra) && |junk| == RESP_HEADER_SIZE
    requires EnvOk(yes) && EnvOk(no) && yes.memory && !no.memory
    ensures fresh(c) && (forall o | o in c.Footprint() :: fresh(o)) && c.Valid() && c.state != CONN_CLOSED
    ensures c.script == [Carrier(key, ms, extra)] && c.init == State(map[], timeout, 0, 0, 0, 0)
    ensures c.done == [Event(AbortedSet(key), no)] && Aborts(c.done) == 1
    ensures c.bytesRead + |c.inbox| == |EncodeAll(c.script)| && c.bytesWritten == |c.outbox|
  {
    hide *;
    BeforeData(key, ms, extra);
    var s := new Store(hash, timeout);
    Session.NothingHeld(s);
    c := new Conn(s, [Carrier(key, ms, extra)], junk, true);
    c.FrameIs();
    NoAborts(c.done);
    SteadyMoves(11 + |key|, yes);
    Serve(c, Steady(11 + |key|, yes));
    Session.Outcome(c);
    AtTheData(c, key, ms, extra);
    ghost var count, stream := c.bytesRead, c.inbox;
    c.EventHandler(EVENT_READ, Moves, no);
    ReadsFacts(Moves, count, stream, c.bytesRead, c.inbox);
    Aborting(c, key, ms, extra, no);
  }

  /** So this session goes wrong, although there is always memory before and after: the server executes
      every request that the data spell, and the client gets an answer to each of them. */
  method StraySession(hash: Key -> nat, timeout: word, key: Key, ms: seq<Msg>, extra: seq<byte>, junk: seq<byte>,
                      yes: Env, no: Env)
    returns (c: Conn, got: seq<Resp>)
    requires Carries(key, ms, extra) && |extra| < REQ_HEADER_SIZE && |junk| == RESP_HEADER_SIZE
    requires EnvOk(yes) && EnvOk(no) && yes.memory && !no.memory
    ensures c.script == [Carrier(key, ms, extra)] && c.init == State(map[], timeout, 0, 0, 0, 0)
    ensures Msgs(c.done) == [AbortedSet(key)] + ms && c.store.Abs() == Run(c.init, c.done)
    ensures got == Answers(c.init, c.done)
  {
    hide *;
    BeforeData(key, ms, extra);
    c := AbortAtData(hash, timeout, key, ms, extra, junk, yes, no);
    var bytes := |Encode(Carrier(key, ms, extra))|;
    var enough := Session.Traffic(bytes, bytes / REQ_HEADER_SIZE) + 1;
    SteadyMoves(enough, yes);
    Serve(c, Steady(enough, yes));
    Straying(c, key, ms, extra, no);
    c.Served();
    c.IdleIs();
    Session.StartState(timeout);
    Session.WithinTraffic(c);
    Session.SmallAnswers(c.init, c.done);
    got := Session.Decode(c.outbox, Answers(c.init, c.done), c.pad);
  }
}

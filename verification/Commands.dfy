// What the commands mean: the cache as a map with expiry, the one setting, and the counters
// (src/lightcache.c:256-451).
module Commands {
  import opened Common
  import opened Numbers
  import opened Wire

  const STATS_SIZE: nat := 512

  /** "idle_conn_timeout" */
  const IDLE_CONN_TIMEOUT: Key := [105, 100, 108, 101, 95, 99, 111, 110, 110, 95, 116, 105, 109, 101, 111, 117, 116]

  datatype Entry = Entry(data: seq<byte>, timeout: nat, setTime: int)

  datatype State = State(store: map<Key, Entry>, idleTimeout: nat, cmdGet: nat, cmdSet: nat, hits: nat, misses: nat)

  /** What an event takes from outside: the clock, the text that GET_STATS prints, and whether
      li_malloc succeeds. An event allocates at most one block outside the hash table. */
  datatype Env = Env(now: int, statsText: seq<byte>, memory: bool)

  predicate EnvOk(env: Env) {
    |env.statsText| == STATS_SIZE
  }

  /** The age of an entry is cut to an unsigned 32-bit number. */
  function Elapsed32(now: int, setTime: int): nat {
    (now - setTime) % U32
  }

  predicate Expired(e: Entry, now: int) {
    Elapsed32(now, e.setTime) > e.timeout
  }

  function ExecGet(st: State, key: Key, now: int): (r: (State, byte, seq<byte>))
  {
    var st := st.(cmdGet := st.cmdGet + 1);
    if key !in st.store then (st.(misses := st.misses + 1), KEY_NOTEXISTS, [])
    else if Expired(st.store[key], now) then
      (st.(store := st.store - {key}, misses := st.misses + 1), KEY_NOTEXISTS, [])
    else (st.(hits := st.hits + 1), SUCCESS, st.store[key].data)
  }

  /** The timeout travels as a NUL-terminated decimal string. */
  function ExecSet(st: State, key: Key, data: seq<byte>, extra: seq<byte>, now: int): (r: (State, byte, seq<byte>))
  {
    var st := st.(cmdSet := st.cmdSet + 1);
    if data == [] then (st, INVALID_PARAM, [])
    else
      match Atoull(extra + [0])
      case None => (st, INVALID_PARAM, [])
      case Some(t) => (st.(store := st.store[key := Entry(data, t, now)]), SUCCESS, [])
  }

  function ExecChgSetting(st: State, key: Key, data: seq<byte>): (r: (State, byte, seq<byte>))
  {
    if data == [] || key != IDLE_CONN_TIMEOUT then (st, INVALID_PARAM, [])
    else
      match Atoull(data + [0])
      case None => (st, INVALID_PARAM, [])
      case Some(v) => (st.(idleTimeout := v), SUCCESS, [])
  }

  /** One unit of the stream: the new state, the return code and the response data. */
  function Perform(st: State, m: Msg, env: Env): (r: (State, byte, seq<byte>))
  {
    match m
    case Oversize(_, _, _, _) => (st, INVALID_PARAM_SIZE, [])
    case Aborted(_, _) => (st, OUT_OF_MEMORY, [])
    case Request(op, key, data, extra) =>
      if op == CMD_GET then ExecGet(st, key, env.now)
      else if op == CMD_SET then ExecSet(st, key, data, extra, env.now)
      else if op == CMD_DELETE then
        if key in st.store then (st.(store := st.store - {key}), SUCCESS, []) else (st, KEY_NOTEXISTS, [])
      else if op == CMD_FLUSH_ALL then (st.(store := map[]), SUCCESS, [])
      else if op == CMD_CHG_SETTING then ExecChgSetting(st, key, data)
      else if op == CMD_GET_SETTING then
        if key != IDLE_CONN_TIMEOUT then (st, INVALID_PARAM, [])
        else if !env.memory then (st, OUT_OF_MEMORY, [])
        else (st, SUCCESS, LittleEndian(Swapped(st.idleTimeout), 8))
      else if op == CMD_GET_STATS then
        if env.memory then (st, SUCCESS, env.statsText) else (st, OUT_OF_MEMORY, [])
      else (st, INVALID_COMMAND, [])
  }

  function Next(st: State, m: Msg, env: Env): State {
    Perform(st, m, env).0
  }

  function Answer(st: State, m: Msg, env: Env): Resp {
    var (_, code, data) := Perform(st, m, env);
    Resp(m.opcode, code, data)
  }

  // ----- runs -----------------------------------------------------------------------------------

  datatype Event = Event(msg: Msg, env: Env)

  function Run(st: State, es: seq<Event>): State {
    if es == [] then st else Next(Run(st, es[..|es| - 1]), es[|es| - 1].msg, es[|es| - 1].env)
  }

  function Answers(st: State, es: seq<Event>): (rs: seq<Resp>)
    ensures |rs| == |es|
  {
    if es == [] then []
    else
      var front, last := es[..|es| - 1], es[|es| - 1];
      Answers(st, front) + [Answer(Run(st, front), last.msg, last.env)]
  }

  /** Well-formed requests, or aborted ones, in a sane environment. */
  predicate EventsOk(es: seq<Event>) {
    forall e | e in es :: (e.msg.Aborted? || WellFormed(e.msg)) && EnvOk(e.env)
  }

  predicate SmallData(st: State) {
    forall k | k in st.store :: |st.store[k].data| < MAX_DATA_SIZE
  }

  /** The data of every answer is within the size limit, so its length fits the header. */
  lemma {:induction false} AnswersSmall(st: State, es: seq<Event>)
    requires SmallData(st) && EventsOk(es)
    ensures SmallData(Run(st, es)) && forall r | r in Answers(st, es) :: |r.data| < MAX_DATA_SIZE
  {
    if es != [] {
      var front, last := es[..|es| - 1], es[|es| - 1];
      AnswersSmall(st, front);
      AnswerSmall(Run(st, front), last.msg, last.env);
    }
  }

  lemma AnswerSmall(st: State, m: Msg, env: Env)
    requires SmallData(st) && (m.Aborted? || WellFormed(m)) && EnvOk(env)
    ensures SmallData(Next(st, m, env)) && |Answer(st, m, env).data| < MAX_DATA_SIZE
  {
  }

  /** The i-th answer is that of the i-th request in the state the requests before it lead to. */
  lemma {:induction false} AnswersAt(st: State, es: seq<Event>, i: nat)
    requires i < |es|
    ensures Answers(st, es)[i] == Answer(Run(st, es[..i]), es[i].msg, es[i].env)
  {
    if i < |es| - 1 {
      AnswersAt(st, es[..|es| - 1], i);
      assert es[..|es| - 1][..i] == es[..i];
    } else {
      assert es[..i] == es[..|es| - 1];
    }
  }

  // ----- which answer a command gets ------------------------------------------------------------

  predicate IsCommand(m: Msg, op: byte) {
    m.Request? && m.opcode == op
  }

  predicate IsGet(m: Msg, key: Key) {
    IsCommand(m, CMD_GET) && m.key == key
  }

  /** atoull accepts the string. */
  predicate IsNumber(s: seq<byte>) {
    Atoull(s + [0]).Some?
  }

  /** A SET that is accepted. */
  predicate StoresKey(m: Msg, key: Key) {
    IsCommand(m, CMD_SET) && m.key == key && m.data != [] && IsNumber(m.extra)
  }

  predicate RemovesKey(m: Msg, key: Key) {
    IsCommand(m, CMD_FLUSH_ALL) || (IsCommand(m, CMD_DELETE) && m.key == key)
  }

  /** A CHG_SETTING that is accepted. */
  predicate ChangesSetting(m: Msg) {
    IsCommand(m, CMD_CHG_SETTING) && m.key == IDLE_CONN_TIMEOUT && m.data != [] && IsNumber(m.data)
  }

  /** A command that allocates the data of its answer. */
  predicate AsksForBlock(m: Msg) {
    IsCommand(m, CMD_GET_STATS) || (IsCommand(m, CMD_GET_SETTING) && m.key == IDLE_CONN_TIMEOUT)
  }

  /** The entry is there for a GET. */
  predicate Present(st: State, key: Key, now: int) {
    key in st.store && !Expired(st.store[key], now)
  }

  /** Only opcodes that are none of the seven commands are invalid, and they change nothing. */
  lemma InvalidCommandExactly(st: State, m: Msg, env: Env)
    ensures Answer(st, m, env).code == INVALID_COMMAND <==>
              && m.Request?
              && m.opcode !in {CMD_GET, CMD_SET, CMD_CHG_SETTING, CMD_GET_SETTING}
              && m.opcode !in {CMD_GET_STATS, CMD_DELETE, CMD_FLUSH_ALL}
    ensures Answer(st, m, env).code == INVALID_COMMAND ==> Next(st, m, env) == st
  {
  }

  lemma SizeRefusedExactly(st: State, m: Msg, env: Env)
    ensures Answer(st, m, env).code == INVALID_PARAM_SIZE <==> m.Oversize?
    ensures m.Oversize? ==> Next(st, m, env) == st
  {
  }

  lemma OutOfMemoryExactly(st: State, m: Msg, env: Env)
    ensures Answer(st, m, env).code == OUT_OF_MEMORY <==> m.Aborted? || (AsksForBlock(m) && !env.memory)
    ensures Answer(st, m, env).code == OUT_OF_MEMORY ==> Next(st, m, env) == st
  {
  }

  lemma KeyNotExistsExactly(st: State, m: Msg, env: Env)
    ensures Answer(st, m, env).code == KEY_NOTEXISTS <==>
              || (IsCommand(m, CMD_GET) && !Present(st, m.key, env.now))
              || (IsCommand(m, CMD_DELETE) && m.key !in st.store)
  {
  }

  /** SET needs data and a number as timeout, CHG_SETTING the one setting and a number, GET_SETTING the
      one setting. A refused command changes neither the store nor the setting. */
  lemma InvalidParamExactly(st: State, m: Msg, env: Env)
    ensures Answer(st, m, env).code == INVALID_PARAM <==>
              || (IsCommand(m, CMD_SET) && !StoresKey(m, m.key))
              || (IsCommand(m, CMD_CHG_SETTING) && !ChangesSetting(m))
              || (IsCommand(m, CMD_GET_SETTING) && m.key != IDLE_CONN_TIMEOUT)
    ensures Answer(st, m, env).code == INVALID_PARAM ==>
              Next(st, m, env).store == st.store && Next(st, m, env).idleTimeout == st.idleTimeout
  {
  }

  /** The other commands succeed. */
  lemma SuccessExactly(st: State, m: Msg, env: Env)
    ensures Answer(st, m, env).code == SUCCESS <==>
              || (IsCommand(m, CMD_GET) && Present(st, m.key, env.now))
              || (IsCommand(m, CMD_SET) && StoresKey(m, m.key))
              || (IsCommand(m, CMD_DELETE) && m.key in st.store)
              || IsCommand(m, CMD_FLUSH_ALL)
              || ChangesSetting(m)
              || (AsksForBlock(m) && env.memory)
  {
  }

  /** Only a GET that finds its entry, GET_SETTING and GET_STATS are answered with data. */
  lemma DataExactly(st: State, m: Msg, env: Env)
    requires st.idleTimeout < U64
    ensures var r := Answer(st, m, env);
            && r.opcode == m.opcode
            && (r.code != SUCCESS ==> r.data == [])
            && (r.code == SUCCESS ==>
                  if IsCommand(m, CMD_GET) then m.key in st.store && r.data == st.store[m.key].data
                  else if IsCommand(m, CMD_GET_STATS) then r.data == env.statsText
                  else if IsCommand(m, CMD_GET_SETTING) then |r.data| == 8 && FromBigEndian(r.data) == st.idleTimeout
                  else r.data == [])
  {
    hide Atoull, LittleEndian, FromBigEndian, Swapped;
    BytesOfSetting(st.idleTimeout);
  }

  /** What a command does to each key: an accepted SET stores its entry, DELETE and FLUSH_ALL remove, a
      GET removes an entry it finds expired, and nothing else touches the store. */
  lemma StoreExactly(st: State, m: Msg, env: Env, k: Key)
    ensures var s := Next(st, m, env).store;
            && (k in s <==>
                  || StoresKey(m, k)
                  || (k in st.store && !RemovesKey(m, k) && (IsGet(m, k) ==> !Expired(st.store[k], env.now))))
            && (k in s ==>
                  s[k] == if StoresKey(m, k) then Entry(m.data, Atoull(m.extra + [0]).value, env.now) else st.store[k])
  {
    hide Atoull;
  }

  /** With a string of digits as timeout SET stores exactly the numbers 1 .. 2^64 - 1, and says so. */
  lemma SetAnswers(st: State, key: Key, data: seq<byte>, s: seq<byte>, env: Env)
    requires s != [] && forall b | b in s :: IsDigit(b)
    ensures var put := Request(CMD_SET, key, data, s);
            if data != [] && 1 <= DigitsValue(s) < U64 then
              && Answer(st, put, env) == Resp(CMD_SET, SUCCESS, [])
              && Next(st, put, env).store == st.store[key := Entry(data, DigitsValue(s), env.now)]
            else Answer(st, put, env) == Resp(CMD_SET, INVALID_PARAM, []) && Next(st, put, env).store == st.store
  {
    hide Atoull, DigitsValue;
    AtoullOfDigits(s);
  }

  /** So a timeout that the client sends as str(n) is stored as n. */
  lemma TimeoutStored(st: State, key: Key, data: seq<byte>, n: nat, env: Env)
    requires data != [] && 1 <= n < U64
    ensures Next(st, Request(CMD_SET, key, data, Decimal(n)), env).store == st.store[key := Entry(data, n, env.now)]
  {
    hide Decimal, DigitsValue, Atoull;
    SetAnswers(st, key, data, Decimal(n), env);
  }

  lemma FlushAnswers(st: State, m: Msg, env: Env)
    requires IsCommand(m, CMD_FLUSH_ALL)
    ensures Answer(st, m, env) == Resp(CMD_FLUSH_ALL, SUCCESS, []) && Next(st, m, env) == st.(store := map[])
  {
  }

  // ----- the counters ---------------------------------------------------------------------------

  /** A request that is the command `op` and its answer is `code`, or anything if that is None. */
  predicate AnsweredWith(m: Msg, r: Resp, op: byte, code: Option<byte>) {
    IsCommand(m, op) && (code == None || r.code == code.value)
  }

  /** The places of these requests in a run with the answers rs. */
  ghost function Which(es: seq<Event>, rs: seq<Resp>, op: byte, code: Option<byte>): (w: set<nat>)
    requires |es| == |rs|
  {
    set i: nat | i < |es| && AnsweredWith(es[i].msg, rs[i], op, code)
  }

  lemma {:induction false} WhichStep(es: seq<Event>, rs: seq<Resp>, e: Event, r: Resp, op: byte, code: Option<byte>)
    requires |es| == |rs|
    ensures |Which(es + [e], rs + [r], op, code)| ==
              |Which(es, rs, op, code)| + if AnsweredWith(e.msg, r, op, code) then 1 else 0
  {
    hide AnsweredWith;
    var w, v := Which(es + [e], rs + [r], op, code), Which(es, rs, op, code);
    assert (es + [e])[|es|] == e && (rs + [r])[|es|] == r;
    if AnsweredWith(e.msg, r, op, code) {
      assert w == v + {|es|};
    } else {
      assert w == v;
    }
  }

  /** In every run cmd_get and cmd_set grow by the GETs and SETs, get_hits by the GETs that are answered
      with SUCCESS, and get_misses by those answered with KEY_NOTEXISTS. */
  lemma {:induction false} CountersExactly(st: State, es: seq<Event>)
    ensures var r, rs := Run(st, es), Answers(st, es);
            && r.cmdGet == st.cmdGet + |Which(es, rs, CMD_GET, None)|
            && r.cmdSet == st.cmdSet + |Which(es, rs, CMD_SET, None)|
            && r.hits == st.hits + |Which(es, rs, CMD_GET, Some(SUCCESS))|
            && r.misses == st.misses + |Which(es, rs, CMD_GET, Some(KEY_NOTEXISTS))|
  {
    hide Which, Answer;
    if es == [] {
      NoneYet();
    } else {
      var front, e := es[..|es| - 1], es[|es| - 1];
      var rs, r := Answers(st, front), Answer(Run(st, front), e.msg, e.env);
      CountersExactly(st, front);
      assert es == front + [e] && Answers(st, es) == rs + [r];
      WhichStep(front, rs, e, r, CMD_GET, None);
      WhichStep(front, rs, e, r, CMD_SET, None);
      WhichStep(front, rs, e, r, CMD_GET, Some(SUCCESS));
      WhichStep(front, rs, e, r, CMD_GET, Some(KEY_NOTEXISTS));
      CountersStep(Run(st, front), e.msg, e.env);
    }
  }

  lemma NoneYet()
    ensures forall op, code :: Which([], [], op, code) == {}
  {
  }

  /** One command counts itself, and as a hit or a miss by its answer. */
  lemma CountersStep(st: State, m: Msg, env: Env)
    ensures var n, code := Next(st, m, env), Answer(st, m, env).code;
            && n.cmdGet == st.cmdGet + (if IsCommand(m, CMD_GET) then 1 else 0)
            && n.cmdSet == st.cmdSet + (if IsCommand(m, CMD_SET) then 1 else 0)
            && n.hits == st.hits + (if IsCommand(m, CMD_GET) && code == SUCCESS then 1 else 0)
            && n.misses == st.misses + (if IsCommand(m, CMD_GET) && code == KEY_NOTEXISTS then 1 else 0)
  {
    hide Atoull;
  }

  predicate Counted(st: State) {
    st.cmdGet == st.hits + st.misses
  }

  /** In every run every GET is a hit or a miss. */
  lemma {:induction false} GetsAreHitsOrMisses(st: State, es: seq<Event>)
    requires Counted(st)
    ensures Counted(Run(st, es))
  {
    if es != [] {
      GetsAreHitsOrMisses(st, es[..|es| - 1]);
    }
  }

  /** Every response carries the opcode of its request. */
  lemma {:induction false} AnswersEchoOpcodes(st: State, es: seq<Event>, i: nat)
    requires i < |es|
    ensures Answers(st, es)[i].opcode == es[i].msg.opcode
  {
    if i < |es| - 1 {
      AnswersEchoOpcodes(st, es[..|es| - 1], i);
    }
  }

  // ----- GET after SET --------------------------------------------------------------------------

  predicate LeavesKey(m: Msg, key: Key) {
    !StoresKey(m, key) && !RemovesKey(m, key)
  }

  /** No GET of the key finds the entry expired. */
  predicate FoundInTime(e: Entry, key: Key, es: seq<Event>) {
    forall i | 0 <= i < |es| && IsGet(es[i].msg, key) :: !Expired(e, es[i].env.now)
  }

  /** Commands that neither store nor remove the key keep its entry exactly if no GET among them
      finds it expired, whatever the clock does; else the key is gone. */
  lemma {:induction false} EntryKept(st: State, es: seq<Event>, key: Key, e: Entry)
    requires key in st.store && st.store[key] == e
    requires forall i | 0 <= i < |es| :: LeavesKey(es[i].msg, key)
    ensures FoundInTime(e, key, es) ==> key in Run(st, es).store && Run(st, es).store[key] == e
    ensures !FoundInTime(e, key, es) ==> key !in Run(st, es).store
  {
    if es != [] {
      var front, last := es[..|es| - 1], es[|es| - 1];
      EntryKept(st, front, key, e);
      assert FoundInTime(e, key, es) <==>
             FoundInTime(e, key, front) && (IsGet(last.msg, key) ==> !Expired(e, last.env.now));
      assert LeavesKey(last.msg, key);
      OneMoreCommand(Run(st, front), last.msg, last.env, key, e);
    }
  }

  lemma OneMoreCommand(st: State, m: Msg, env: Env, key: Key, e: Entry)
    requires LeavesKey(m, key) && (key in st.store ==> st.store[key] == e)
    ensures var s := Next(st, m, env).store;
            if key in st.store && (IsGet(m, key) ==> !Expired(e, env.now)) then key in s && s[key] == e
            else key !in s
  {
  }

  /** After an accepted SET and any commands that neither store nor remove the key, GET returns the
      data exactly if neither it nor any GET of the key before it finds the 32-bit age above the
      timeout, whatever the clock does. */
  lemma GetAfterSet(st: State, put: Msg, putEnv: Env, es: seq<Event>, get: Msg, getEnv: Env)
    requires put.Request? && StoresKey(put, put.key) && IsGet(get, put.key)
    requires forall i | 0 <= i < |es| :: LeavesKey(es[i].msg, put.key)
    ensures var e := Entry(put.data, Atoull(put.extra + [0]).value, putEnv.now);
            Answer(Run(Next(st, put, putEnv), es), get, getEnv) ==
              if FoundInTime(e, put.key, es) && Elapsed32(getEnv.now, putEnv.now) <= e.timeout
              then Resp(CMD_GET, SUCCESS, put.data) else Resp(CMD_GET, KEY_NOTEXISTS, [])
  {
    hide Run, Atoull, Perform, FoundInTime;
    var e := Entry(put.data, Atoull(put.extra + [0]).value, putEnv.now);
    PutStores(st, put, putEnv);
    EntryKept(Next(st, put, putEnv), es, put.key, e);
    GetAnswers(Run(Next(st, put, putEnv), es), put.key, e, get, getEnv);
  }

  lemma PutStores(st: State, put: Msg, putEnv: Env)
    requires put.Request? && StoresKey(put, put.key)
    ensures var s := Next(st, put, putEnv).store;
            put.key in s && s[put.key] == Entry(put.data, Atoull(put.extra + [0]).value, putEnv.now)
  {
  }

  lemma GetAnswers(st: State, key: Key, e: Entry, get: Msg, env: Env)
    requires IsGet(get, key) && (key in st.store ==> st.store[key] == e)
    ensures Answer(st, get, env) ==
              if key in st.store && !Expired(e, env.now) then Resp(CMD_GET, SUCCESS, e.data)
              else Resp(CMD_GET, KEY_NOTEXISTS, [])
  {
  }

  /** The clock does not run backwards and stays within 2^32 seconds of `start`. */
  predicate ClockFrom(start: int, es: seq<Event>, now: int) {
    && start <= now < start + U32
    && (forall i | 0 <= i < |es| :: start <= es[i].env.now <= now)
  }

  /** While the clock behaves, the GETs in between do not matter: GET returns the data exactly while
      the true age does not exceed the timeout. */
  lemma GetAfterSetInTime(st: State, put: Msg, putEnv: Env, es: seq<Event>, get: Msg, getEnv: Env)
    requires put.Request? && StoresKey(put, put.key) && IsGet(get, put.key)
    requires forall i | 0 <= i < |es| :: LeavesKey(es[i].msg, put.key)
    requires ClockFrom(putEnv.now, es, getEnv.now)
    ensures Answer(Run(Next(st, put, putEnv), es), get, getEnv) ==
              if getEnv.now - putEnv.now <= Atoull(put.extra + [0]).value then Resp(CMD_GET, SUCCESS, put.data)
              else Resp(CMD_GET, KEY_NOTEXISTS, [])
  {
    hide Run, Atoull, Perform, Answer, FoundInTime, Elapsed32;
    GetAfterSet(st, put, putEnv, es, get, getEnv);
    NoGetTooLate(Entry(put.data, Atoull(put.extra + [0]).value, putEnv.now), put.key, es, getEnv.now);
  }

  lemma NoGetTooLate(e: Entry, key: Key, es: seq<Event>, now: int)
    requires ClockFrom(e.setTime, es, now)
    ensures Elapsed32(now, e.setTime) == now - e.setTime
    ensures now - e.setTime <= e.timeout ==> FoundInTime(e, key, es)
  {
    hide IsGet;
    SmallAge(now - e.setTime);
    forall i | 0 <= i < |es|
      ensures Elapsed32(es[i].env.now, e.setTime) <= now - e.setTime {
      SmallAge(es[i].env.now - e.setTime);
    }
  }

  lemma SmallAge(age: int)
    requires 0 <= age < U32
    ensures age % U32 == age
  {
  }

  /** A clock that is set back by one second makes a new entry look 2^32 - 1 seconds old: with any
      smaller timeout GET drops it. */
  lemma SetBackClock(st: State, put: Msg, putEnv: Env, get: Msg, getEnv: Env)
    requires put.Request? && StoresKey(put, put.key) && IsGet(get, put.key)
    requires Atoull(put.extra + [0]).value < U32 - 1 && getEnv.now == putEnv.now - 1
    ensures Answer(Next(st, put, putEnv), get, getEnv) == Resp(CMD_GET, KEY_NOTEXISTS, [])
    ensures put.key !in Next(Next(st, put, putEnv), get, getEnv).store
  {
    hide Atoull;
  }

  /** A key that is absent, because it was deleted, flushed or never set, stays absent until it is
      stored again. */
  lemma {:induction false} AbsentUntilStored(st: State, es: seq<Event>, key: Key)
    requires key !in st.store && forall i | 0 <= i < |es| :: !StoresKey(es[i].msg, key)
    ensures key !in Run(st, es).store
  {
    if es != [] {
      AbsentUntilStored(st, es[..|es| - 1], key);
      assert !StoresKey(es[|es| - 1].msg, key);
    }
  }

  lemma RemovingWorks(st: State, remove: Msg, removeEnv: Env, es: seq<Event>, key: Key, get: Msg, getEnv: Env)
    requires RemovesKey(remove, key) && forall i | 0 <= i < |es| :: !StoresKey(es[i].msg, key)
    requires IsGet(get, key)
    ensures Answer(Run(Next(st, remove, removeEnv), es), get, getEnv) == Resp(CMD_GET, KEY_NOTEXISTS, [])
  {
    AbsentUntilStored(Next(st, remove, removeEnv), es, key);
  }

  /** The 32-bit age decides like the true age, for every timeout that SET can store, exactly below
      2^32 seconds, and for a clock that was set back exactly if the age is cut to at most one second.
      Above, an entry that had expired is served again; below zero, a fresh entry is dropped. */
  lemma Expiry32Exactly(age: int)
    ensures (forall timeout | 1 <= timeout < U64 :: Timely(age, timeout)) <==> age < U32 && (age >= 0 || age % U32 <= 1)
  {
    if age >= U32 {
      var cut := age % U32;
      assert !Timely(age, if cut == 0 then 1 else cut);
    } else if age < 0 {
      assert age % U32 <= 1 || !Timely(age, 1);
    }
  }

  predicate Timely(age: int, timeout: nat) {
    Elapsed32(age, 0) <= timeout <==> age <= timeout
  }

  // ----- the setting ----------------------------------------------------------------------------

  /** An accepted CHG_SETTING stores its number, and no other command touches the setting. */
  lemma SettingExactly(st: State, m: Msg, env: Env)
    ensures Next(st, m, env).idleTimeout == if ChangesSetting(m) then Atoull(m.data + [0]).value else st.idleTimeout
  {
    hide Atoull;
  }

  lemma {:induction false} SettingKept(st: State, es: seq<Event>)
    requires forall i | 0 <= i < |es| :: !ChangesSetting(es[i].msg)
    ensures Run(st, es).idleTimeout == st.idleTimeout
  {
    if es != [] {
      SettingKept(st, es[..|es| - 1]);
      assert !ChangesSetting(es[|es| - 1].msg);
    }
  }

  /** Any string of digits that denotes 1 .. 2^64 - 1 and is sent by CHG_SETTING is decoded by
      get_setting as that number, whatever other commands come between, unless there is no memory
      for the answer; any other string of digits is refused and changes nothing. */
  lemma SettingRoundTrip(st: State, s: seq<byte>, chgEnv: Env, es: seq<Event>, getEnv: Env)
    requires s != [] && forall b | b in s :: IsDigit(b)
    requires forall i | 0 <= i < |es| :: !ChangesSetting(es[i].msg)
    ensures var chg := Request(CMD_CHG_SETTING, IDLE_CONN_TIMEOUT, s, []);
            var get := Request(CMD_GET_SETTING, IDLE_CONN_TIMEOUT, [], []);
            var answer := Answer(Run(Next(st, chg, chgEnv), es), get, getEnv);
            if 1 <= DigitsValue(s) < U64 then
              && Answer(st, chg, chgEnv) == Resp(CMD_CHG_SETTING, SUCCESS, [])
              && if getEnv.memory then answer.code == SUCCESS && FromBigEndian(answer.data) == DigitsValue(s)
                 else answer == Resp(CMD_GET_SETTING, OUT_OF_MEMORY, [])
            else Answer(st, chg, chgEnv) == Resp(CMD_CHG_SETTING, INVALID_PARAM, []) && Next(st, chg, chgEnv) == st
  {
    hide Run, Atoull, DigitsValue, LittleEndian, FromBigEndian, Pow256;
    AtoullOfDigits(s);
    BytesOfSetting(DigitsValue(s));
    var chg := Request(CMD_CHG_SETTING, IDLE_CONN_TIMEOUT, s, []);
    SettingKept(Next(st, chg, chgEnv), es);
  }

  lemma BytesOfSetting(n: nat)
    ensures |LittleEndian(Swapped(n), 8)| == 8
    ensures n < U64 ==> FromBigEndian(LittleEndian(Swapped(n), 8)) == n
  {
    if n < U64 {
      SwapReverses(n);
      assert Pow256(8) == U64;
      BigEndianRoundTrip(n, 8);
    }
  }
}

// The wire format, both halves: requests as the client packs them, responses as it unpacks them
// (src/protocol.h:4-26, src/lightcache.c:172-182, test/lcclient.py:28-79).
module Wire {
  import opened Common
  import opened Numbers

  const MAX_KEY_SIZE: nat := 250
  const MAX_DATA_SIZE: nat := 1274       // 1024 + MAX_KEY_SIZE
  const MAX_EXTRA_SIZE: nat := 250
  const REQ_HEADER_SIZE: nat := 12
  const RESP_HEADER_SIZE: nat := 8

  const CMD_GET: byte := 0
  const CMD_SET: byte := 1
  const CMD_CHG_SETTING: byte := 2
  const CMD_GET_SETTING: byte := 3
  const CMD_GET_STATS: byte := 4
  const CMD_DELETE: byte := 5
  const CMD_FLUSH_ALL: byte := 6

  const KEY_NOTEXISTS: byte := 0
  const INVALID_PARAM: byte := 1
  const INVALID_PARAM_SIZE: byte := 3
  const SUCCESS: byte := 4
  const INVALID_COMMAND: byte := 5
  const OUT_OF_MEMORY: byte := 6

  // ----- requests -----------------------------------------------------------------------------

  /** One unit the server answers: a request within the size limits, a header that announces too
      much, which is answered without reading on, or a request that is given up after `taken` bytes
      because there is no memory for its next part. */
  datatype Msg =
    | Request(opcode: byte, key: seq<byte>, data: seq<byte>, extra: seq<byte>)
    | Oversize(opcode: byte, keyLength: byte, dataLength: nat, extraLength: nat)
    | Aborted(opcode: byte, taken: nat)

  predicate TooLarge(keyLength: nat, dataLength: nat, extraLength: nat) {
    dataLength >= MAX_DATA_SIZE || keyLength >= MAX_KEY_SIZE || extraLength >= MAX_EXTRA_SIZE
  }

  predicate NulFree(s: seq<byte>) {
    forall b | b in s :: b != 0
  }

  /** The requests the server is written for: a body without a key, or an extra without data, is
      never read, and GET, DELETE, GET_SETTING and SET with data use their key and extra unchecked. */
  predicate WellFormed(m: Msg) {
    match m
    case Request(op, key, data, extra) =>
      && !TooLarge(|key|, |data|, |extra|)
      && NulFree(key)
      && (key == [] ==> data == []) && (data == [] ==> extra == [])
      && (op == CMD_GET || op == CMD_DELETE || op == CMD_GET_SETTING ==> key != [])
      && (op == CMD_SET && data != [] ==> extra != [])
    case Oversize(op, kl, dl, el) => TooLarge(kl, dl, el) && dl < U32 && el < U32
    case Aborted(_, _) => false
  }

  /** struct.pack('BBII', ...) after htonl: two bytes of padding align the lengths. */
  function Header(op: byte, kl: byte, dl: nat, el: nat): (h: seq<byte>)
    ensures |h| == REQ_HEADER_SIZE
    ensures h[0] == op && h[1] == kl && h[4..8] == BigEndian(dl, 4) && h[8..12] == BigEndian(el, 4)
  {
    [op, kl, 0, 0] + BigEndian(dl, 4) + BigEndian(el, 4)
  }

  function HeaderOf(m: Msg): (h: seq<byte>)
    requires WellFormed(m)
    ensures |h| == REQ_HEADER_SIZE
  {
    match m
    case Request(op, key, data, extra) => Header(op, |key|, |data|, |extra|)
    case Oversize(op, kl, dl, el) => Header(op, kl, dl, el)
  }

  /** _make_packet. */
  function Encode(m: Msg): (s: seq<byte>)
    requires WellFormed(m)
    ensures |s| >= REQ_HEADER_SIZE
  {
    if m.Oversize? then HeaderOf(m) else HeaderOf(m) + m.key + m.data + m.extra
  }

  /** Opcode and key length, two bytes of padding, the lengths of data and extra in network order, and
      then the key, the data and the extra. An oversize request is its header. */
  lemma RequestLayout(m: Msg)
    requires WellFormed(m)
    ensures var s, h := Encode(m), HeaderOf(m);
            && s[..12] == h && h[0] == m.opcode
            && match m
               case Request(_, key, data, extra) =>
                 && |s| == 12 + |key| + |data| + |extra| && h[1] == |key|
                 && LengthAt(h, 4, |data|) && LengthAt(h, 8, |extra|)
                 && s[12..12 + |key|] == key && s[12 + |key|..12 + |key| + |data|] == data
                 && s[12 + |key| + |data|..] == extra
               case Oversize(_, kl, dl, el) =>
                 s == h && h[1] == kl && LengthAt(h, 4, dl) && LengthAt(h, 8, el)
               case Aborted(_, _) => true
  {
    hide BigEndian, LengthAt;
    var h := HeaderOf(m);
    if m.Request? {
      LengthIs(h, 4, |m.data|);
      LengthIs(h, 8, |m.extra|);
      BodyParts(h, m.key, m.data, m.extra, []);
      BodyFrom(h, m.key, m.data, m.extra, []);
      assert h + m.key + m.data + m.extra + [] == h + m.key + m.data + m.extra;
    } else {
      LengthIs(h, 4, m.dataLength);
      LengthIs(h, 8, m.extraLength);
    }
  }

  lemma LengthIs(s: seq<byte>, i: nat, n: nat)
    requires i + 4 <= |s| && s[i..i + 4] == BigEndian(n, 4) && n < U32
    ensures LengthAt(s, i, n)
  {
    hide BigEndian;
    NetworkOrder(n);
  }

  /** The four bytes of n from place i on, most significant first. */
  predicate LengthAt(s: seq<byte>, i: nat, n: nat) {
    i + 4 <= |s| && s[i..i + 4] == [n / 0x100_0000 % 256, n / 0x1_0000 % 256, n / 0x100 % 256, n % 256]
  }

  function EncodeAll(ms: seq<Msg>): seq<byte>
    requires forall m | m in ms :: WellFormed(m)
  {
    if ms == [] then [] else Encode(ms[0]) + EncodeAll(ms[1..])
  }

  /** The server reads back from the header bytes what the client packed. */
  lemma HeaderDecodes(m: Msg)
    requires WellFormed(m)
    ensures var h := HeaderOf(m);
            && h[0] == m.opcode
            && h[1] == (if m.Request? then |m.key| else m.keyLength)
            && FromBigEndian(h[4..8]) == (if m.Request? then |m.data| else m.dataLength)
            && FromBigEndian(h[8..12]) == (if m.Request? then |m.extra| else m.extraLength)
  {
    assert Pow256(4) == U32;
    if m.Request? {
      BigEndianRoundTrip(|m.data|, 4);
      BigEndianRoundTrip(|m.extra|, 4);
    } else {
      BigEndianRoundTrip(m.dataLength, 4);
      BigEndianRoundTrip(m.extraLength, 4);
    }
  }

  // ----- the server's receiving half ------------------------------------------------------------

  /** The first unit of any stream of bytes, as the server cuts it off, and its length: a key that is
      announced as empty ends the request, and so does empty data. None while bytes are missing. */
  function Cut(s: seq<byte>): (r: Option<(Msg, nat)>)
    ensures r.Some? ==> REQ_HEADER_SIZE <= r.value.1 <= |s| && !r.value.0.Aborted? && r.value.0.opcode == s[0]
  {
    if |s| < REQ_HEADER_SIZE then None
    else
      var kl, dl, el := s[1], FromBigEndian(s[4..8]), FromBigEndian(s[8..12]);
      if TooLarge(kl, dl, el) then Some((Oversize(s[0], kl, dl, el), REQ_HEADER_SIZE))
      else if kl == 0 then Some((Request(s[0], [], [], []), REQ_HEADER_SIZE))
      else if |s| < 12 + kl then None
      else if dl == 0 then Some((Request(s[0], s[12..12 + kl], [], []), 12 + kl))
      else if |s| < 12 + kl + dl then None
      else if el == 0 then Some((Request(s[0], s[12..12 + kl], s[12 + kl..12 + kl + dl], []), 12 + kl + dl))
      else if |s| < 12 + kl + dl + el then None
      else
        Some((Request(s[0], s[12..12 + kl], s[12 + kl..12 + kl + dl], s[12 + kl + dl..12 + kl + dl + el]),
              12 + kl + dl + el))
  }

  /** The next unit of the stream, if it is complete, is one the server is written for. */
  predicate Handles(s: seq<byte>) {
    match Cut(s)
    case None => true
    case Some((m, _)) => WellFormed(m)
  }

  /** Of the complete units on a stream exactly these are not handled: a command that uses its key
      without one, a SET with data and without a timeout, and a key with a NUL in it. */
  lemma HandlesExactly(s: seq<byte>)
    ensures Handles(s) <==>
              match Cut(s)
              case None => true
              case Some((Request(op, key, data, extra), _)) =>
                && (key == [] ==> op !in {CMD_GET, CMD_DELETE, CMD_GET_SETTING})
                && (op == CMD_SET && data != [] ==> extra != [])
                && 0 !in key
              case Some((_, _)) => true
  {
    hide FromBigEndian;
    if |s| >= REQ_HEADER_SIZE {
      FromBigEndianBound(s[4..8]);
      FromBigEndianBound(s[8..12]);
      assert Pow256(4) == U32;
    }
  }

  /** Cutting inverts packing: the first unit of a stream that starts with a packed request is that
      request, whatever follows. */
  lemma CutInvertsEncode(m: Msg, rest: seq<byte>)
    requires WellFormed(m)
    ensures Cut(Encode(m) + rest) == Some((m, |Encode(m)|))
  {
    hide BigEndian, FromBigEndian;
    var s, h := Encode(m) + rest, HeaderOf(m);
    HeaderDecodes(m);
    assert s[..12] == h && s[0] == h[0] && s[1] == h[1] && s[4..8] == h[4..8] && s[8..12] == h[8..12];
    if m.Request? {
      BodyParts(h, m.key, m.data, m.extra, rest);
    }
  }

  lemma BodyParts(h: seq<byte>, key: seq<byte>, data: seq<byte>, extra: seq<byte>, rest: seq<byte>)
    requires |h| == REQ_HEADER_SIZE
    ensures var s := h + key + data + extra + rest; var k, d := 12 + |key|, 12 + |key| + |data|;
            && |s| >= d + |extra| && s[12..k] == key && s[k..d] == data && s[d..d + |extra|] == extra
  {
  }

  /** So the first unit of a stream of packed requests is the first request. */
  lemma CutFirst(ms: seq<Msg>)
    requires forall m | m in ms :: WellFormed(m)
    ensures if ms == [] then Cut(EncodeAll(ms)) == None
            else
              && Cut(EncodeAll(ms)) == Some((ms[0], |Encode(ms[0])|))
              && EncodeAll(ms)[|Encode(ms[0])|..] == EncodeAll(ms[1..])
  {
    hide Cut, Encode;
    if ms != [] {
      CutInvertsEncode(ms[0], EncodeAll(ms[1..]));
    } else {
      NothingToCut();
    }
  }

  lemma NothingToCut()
    ensures Cut([]) == None
  {
  }

  /** All complete units of a stream, one after the other, and the bytes that are left. */
  function CutAll(s: seq<byte>): (r: (seq<Msg>, seq<byte>))
    decreases |s|
  {
    match Cut(s)
    case None => ([], s)
    case Some((m, n)) =>
      var (ms, rest) := CutAll(s[n..]);
      ([m] + ms, rest)
  }

  /** The server's receiving half inverts the client's sending half: a stream of packed requests is
      cut into exactly these requests, whatever follows. */
  lemma {:induction false} CutAllInvertsEncodeAll(ms: seq<Msg>, rest: seq<byte>)
    requires forall m | m in ms :: WellFormed(m)
    ensures CutAll(EncodeAll(ms) + rest) == (ms + CutAll(rest).0, CutAll(rest).1)
  {
    hide Cut, CutAll, Encode;
    if ms == [] {
      assert EncodeAll(ms) + rest == rest && ms + CutAll(rest).0 == CutAll(rest).0;
    } else {
      var s, tail := EncodeAll(ms) + rest, EncodeAll(ms[1..]) + rest;
      assert s == Encode(ms[0]) + tail;
      CutInvertsEncode(ms[0], tail);
      CutAllStep(s);
      CutAllInvertsEncodeAll(ms[1..], rest);
      assert [ms[0]] + (ms[1..] + CutAll(rest).0) == ms + CutAll(rest).0;
    }
  }

  lemma CutAllStep(s: seq<byte>)
    requires Cut(s).Some?
    ensures var (m, n) := Cut(s).value; var (ms, rest) := CutAll(s[n..]); CutAll(s) == ([m] + ms, rest)
  {
  }

  // ----- requests that are given up -------------------------------------------------------------

  /** The server gives up the first unit of the stream after n bytes: it has read the header, the key
      or the data, and there is no memory for the part that comes next. */
  predicate GivesUpAt(s: seq<byte>, n: nat) {
    && REQ_HEADER_SIZE <= |s|
    && var kl, dl, el := s[1], FromBigEndian(s[4..8]), FromBigEndian(s[8..12]);
       && !TooLarge(kl, dl, el) && n <= |s| && 0 < kl
       && (n == 12 || (0 < dl && (n == 12 + kl || (0 < el && n == 12 + kl + dl))))
  }

  /** Of a packed request that is given up, the part that had no memory stays on the stream, where
      the server takes it for the next header. */
  lemma GivenUpLeaves(m: Msg, rest: seq<byte>, n: nat)
    requires WellFormed(m) && GivesUpAt(Encode(m) + rest, n)
    ensures m.Request? && m.key != [] && 12 <= n < |Encode(m)| && (Encode(m) + rest)[n..] == Encode(m)[n..] + rest
    ensures Encode(m)[n..] == m.key + m.data + m.extra
            || (m.data != [] && Encode(m)[n..] == m.data + m.extra)
            || (m.data != [] && m.extra != [] && Encode(m)[n..] == m.extra)
  {
    hide BigEndian, FromBigEndian;
    var s, h := Encode(m) + rest, HeaderOf(m);
    HeaderDecodes(m);
    assert s[..12] == h && s[0] == h[0] && s[1] == h[1] && s[4..8] == h[4..8] && s[8..12] == h[8..12];
    if m.Request? {
      BodyFrom(h, m.key, m.data, m.extra, rest);
    }
  }

  lemma BodyFrom(h: seq<byte>, key: seq<byte>, data: seq<byte>, extra: seq<byte>, rest: seq<byte>)
    requires |h| == REQ_HEADER_SIZE
    ensures var s := h + key + data + extra; var k, d := 12 + |key|, 12 + |key| + |data|;
            && s[12..] == key + data + extra && s[k..] == data + extra && s[d..] == extra
            && forall n | 0 <= n <= |s| :: (s + rest)[n..] == s[n..] + rest
  {
  }

  // ----- responses ----------------------------------------------------------------------------

  datatype Resp = Resp(opcode: byte, code: byte, data: seq<byte>)

  /** The padding bytes of the response header are never written: they are what they were. */
  datatype Padding = Padding(b2: byte, b3: byte)

  function RespHeader(r: Resp, pad: Padding): (h: seq<byte>)
    ensures |h| == RESP_HEADER_SIZE
    ensures h[0] == r.opcode && h[1] == r.code && h[4..8] == BigEndian(|r.data|, 4)
  {
    [r.opcode, r.code, pad.b2, pad.b3] + BigEndian(|r.data|, 4)
  }

  function EncodeResp(r: Resp, pad: Padding): seq<byte> {
    RespHeader(r, pad) + r.data
  }

  /** Opcode and code, two bytes of padding, the length in network order, and then the data. */
  lemma ResponseLayout(r: Resp, pad: Padding)
    requires |r.data| < U32
    ensures var s, n := EncodeResp(r, pad), |r.data|;
            && |s| == 8 + n && s[0] == r.opcode && s[1] == r.code && s[2] == pad.b2 && s[3] == pad.b3
            && s[4..8] == [n / 0x100_0000, n / 0x1_0000 % 256, n / 0x100 % 256, n % 256]
            && s[8..] == r.data
  {
    hide BigEndian;
    NetworkOrder(|r.data|);
    assert EncodeResp(r, pad)[4..8] == RespHeader(r, pad)[4..8];
  }

  function EncodeResps(rs: seq<Resp>, pad: Padding): seq<byte> {
    if rs == [] then [] else EncodeResps(rs[..|rs| - 1], pad) + EncodeResp(rs[|rs| - 1], pad)
  }

  // ----- the client's receiving half ----------------------------------------------------------

  /** The client: a stream of received bytes and the fields of its last response. */
  class Client {
    var inbox: seq<byte>
    var opcode: byte
    var errcode: byte
    var dataLen: nat
    var data: Option<seq<byte>>

    constructor (stream: seq<byte>)
      ensures inbox == stream
    {
      inbox, opcode, errcode, dataLen, data := stream, 0, 0, 0, None;
    }

    /** _recv_until: n bytes, one at a time. */
    method RecvUntil(n: nat) returns (resp: seq<byte>)
      requires n <= |inbox|
      modifies this`inbox
      ensures resp == old(inbox)[..n] && inbox == old(inbox)[n..]
    {
      resp := [];
      var i := 0;
      while i < n
        invariant 0 <= i <= n && resp == old(inbox)[..i] && inbox == old(inbox)[i..]
      {
        resp := resp + [inbox[0]];
        inbox := inbox[1..];
        i := i + 1;
      }
    }

    /** recv_packet: when the stream starts with a response, its opcode, code and data come out and
        exactly its bytes are consumed. */
    method RecvPacket(ghost r: Resp, ghost pad: Padding, ghost rest: seq<byte>)
      requires |r.data| < U32 && inbox == EncodeResp(r, pad) + rest
      modifies this
      ensures inbox == rest
      ensures opcode == r.opcode && errcode == r.code && dataLen == |r.data|
      ensures data == if r.data == [] then None else Some(r.data)
    {
      data := None;
      assert inbox[..8] == RespHeader(r, pad) && inbox[8..] == r.data + rest;
      var h := RecvUntil(RESP_HEADER_SIZE);
      opcode, errcode, dataLen := h[0], h[1], FromBigEndian(h[4..8]);
      assert h[4..8] == BigEndian(|r.data|, 4);
      assert Pow256(4) == U32;
      BigEndianRoundTrip(|r.data|, 4);
      if dataLen == 0 {
        return;
      }
      var d := RecvUntil(dataLen);
      data := Some(d);
    }
  }

  lemma {:induction false} EncodeRespsFront(rs: seq<Resp>, pad: Padding)
    requires rs != []
    ensures EncodeResps(rs, pad) == EncodeResp(rs[0], pad) + EncodeResps(rs[1..], pad)
  {
    hide EncodeResp;
    var front := rs[..|rs| - 1];
    if front != [] {
      EncodeRespsFront(front, pad);
      assert front[1..] == rs[1..][..|rs| - 2];
    }
  }

  /** The client that receives packets until its stream ends gets exactly the responses that were
      encoded, in order. */
  method ReceiveAll(c: Client, ghost rs: seq<Resp>, ghost pad: Padding) returns (got: seq<Resp>)
    requires c.inbox == EncodeResps(rs, pad) && forall r | r in rs :: |r.data| < U32
    modifies c
    ensures got == rs && c.inbox == []
  {
    hide EncodeResp;
    got := [];
    ghost var i := 0;
    RespsLength(rs, pad);
    while c.inbox != []
      invariant 0 <= i <= |rs| && got == rs[..i] && c.inbox == EncodeResps(rs[i..], pad)
      decreases |rs| - i
    {
      assert rs[i..] != [];
      EncodeRespsFront(rs[i..], pad);
      assert rs[i..][1..] == rs[i + 1..];
      c.RecvPacket(rs[i], pad, EncodeResps(rs[i + 1..], pad));
      got := got + [Resp(c.opcode, c.errcode, if c.data.None? then [] else c.data.value)];
      i := i + 1;
    }
    RespsLength(rs[i..], pad);
  }

  /** Every response takes at least a header. */
  lemma {:induction false} RespsLength(rs: seq<Resp>, pad: Padding)
    ensures |EncodeResps(rs, pad)| >= RESP_HEADER_SIZE * |rs|
  {
    if rs != [] {
      RespsLength(rs[..|rs| - 1], pad);
    }
  }

  /** And at most a header and data of the size limit. */
  lemma {:induction false} RespsBound(rs: seq<Resp>, pad: Padding)
    requires forall r | r in rs :: |r.data| < MAX_DATA_SIZE
    ensures |EncodeResps(rs, pad)| <= (RESP_HEADER_SIZE + MAX_DATA_SIZE) * |rs|
  {
    if rs != [] {
      assert rs[|rs| - 1] in rs;
      RespsBound(rs[..|rs| - 1], pad);
    }
  }
}

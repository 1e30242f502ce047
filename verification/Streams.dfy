// What a run takes off the stream of bytes that the client sends: the answered and the aborted units,
// one after the other (src/lightcache.c:190-239, 496-573).
module Streams {
  import opened Common
  import opened Numbers
  import opened Wire
  import opened Commands

  function Msgs(es: seq<Event>): (ms: seq<Msg>)
    ensures |ms| == |es|
  {
    seq(|es|, i requires 0 <= i < |es| => es[i].msg)
  }

  predicate AllWellFormed(ms: seq<Msg>) {
    forall m | m in ms :: WellFormed(m)
  }

  lemma {:induction false} FirstOpcode(ms: seq<Msg>)
    requires AllWellFormed(ms) && ms != []
    ensures |EncodeAll(ms)| >= REQ_HEADER_SIZE && EncodeAll(ms)[0] == ms[0].opcode
  {
    HeaderDecodes(ms[0]);
  }

  /** What is left of a stream when the unit of event e is taken off its front: an answered one
      completely, an aborted one up to the part that there was no memory for. None if that unit is not
      there. */
  function Take(s: seq<byte>, e: Event): Option<seq<byte>> {
    if e.msg.Aborted? then
      if GivesUpAt(s, e.msg.taken) && e.msg.opcode == s[0] && !e.env.memory then Some(s[e.msg.taken..]) else None
    else
      match Cut(s)
      case None => None
      case Some((m, n)) => if m == e.msg then Some(s[n..]) else None
  }

  /** The same for the units of es, one after the other. */
  function TakeAll(s: seq<byte>, es: seq<Event>): Option<seq<byte>> {
    if es == [] then Some(s)
    else
      match TakeAll(s, es[..|es| - 1])
      case None => None
      case Some(mid) => Take(mid, es[|es| - 1])
  }

  lemma TakeStep(s: seq<byte>, es: seq<Event>, mid: seq<byte>, e: Event)
    requires TakeAll(s, es) == Some(mid)
    ensures TakeAll(s, es + [e]) == Take(mid, e)
  {
    assert (es + [e])[..|es + [e]| - 1] == es;
  }

  lemma TakeOne(s: seq<byte>, e: Event)
    ensures TakeAll(s, [e]) == Take(s, e)
  {
    TakeStep(s, [], s, e);
    assert [] + [e] == [e];
  }

  /** Every unit takes at least a header. */
  lemma {:induction false} TakeBound(s: seq<byte>, es: seq<Event>)
    requires TakeAll(s, es).Some?
    ensures REQ_HEADER_SIZE * |es| + |TakeAll(s, es).value| <= |s|
  {
    hide Cut;
    if es != [] {
      TakeBound(s, es[..|es| - 1]);
    }
  }

  /** Two parts of a run, one after the other. */
  lemma {:induction false} TakeParts(s: seq<byte>, es: seq<Event>, mid: seq<byte>, fs: seq<Event>)
    requires TakeAll(s, es) == Some(mid)
    ensures TakeAll(s, es + fs) == TakeAll(mid, fs)
  {
    hide Take;
    if fs == [] {
      assert es + fs == es;
    } else {
      TakeParts(s, es, mid, fs[..|fs| - 1]);
      assert (es + fs)[..|es + fs| - 1] == es + fs[..|fs| - 1];
    }
  }

  /** Packed requests are taken off their stream one by one. */
  lemma {:induction false} TakeSent(es: seq<Event>, rest: seq<Msg>)
    requires AllWellFormed(Msgs(es) + rest)
    ensures AllWellFormed(rest) && TakeAll(EncodeAll(Msgs(es) + rest), es) == Some(EncodeAll(rest))
  {
    hide Cut, Encode, EncodeAll, GivesUpAt;
    assert forall m | m in rest :: m in Msgs(es) + rest;
    if es == [] {
      assert Msgs(es) + rest == rest;
    } else {
      var front, last := es[..|es| - 1], es[|es| - 1];
      assert Msgs(es) + rest == Msgs(front) + ([last.msg] + rest);
      TakeSent(front, [last.msg] + rest);
      CutFirst([last.msg] + rest);
      assert ([last.msg] + rest)[1..] == rest && last.msg in Msgs(es) + rest;
      NeverSent(last.msg);
    }
  }

  lemma {:induction false} TakeUpTo(s: seq<byte>, es: seq<Event>, n: nat)
    requires TakeAll(s, es).Some? && n <= |es|
    ensures TakeAll(s, es[..n]).Some?
  {
    hide Take;
    if n < |es| {
      TakeUpTo(s, es[..|es| - 1], n);
      assert es[..|es| - 1][..n] == es[..n];
    } else {
      assert es[..n] == es;
    }
  }

  lemma SplitFirst(ms: seq<Msg>)
    requires AllWellFormed(ms) && ms != []
    ensures EncodeAll(ms) == Encode(ms[0]) + EncodeAll(ms[1..])
  {
  }

  /** The first aborted request of a run leaves the rest of its body on the stream, in front of the
      requests that follow. */
  lemma FirstAbort(ms: seq<Msg>, es: seq<Event>, k: nat)
    requires AllWellFormed(ms) && k < |es| && k < |ms| && Msgs(es)[..k] == ms[..k] && es[k].msg.Aborted?
    requires TakeAll(EncodeAll(ms), es).Some?
    ensures AllWellFormed(ms[k + 1..]) && ms[k].Request?
    ensures var n := es[k].msg.taken;
            && 12 <= n < |Encode(ms[k])|
            && TakeAll(EncodeAll(ms), es[..k + 1]) == Some(Encode(ms[k])[n..] + EncodeAll(ms[k + 1..]))
  {
    hide Aborts, EncodeAll, WellFormed, Encode, Cut, GivesUpAt;
    var front, tail := es[..k], ms[k + 1..];
    assert Msgs(front) == ms[..k] && ms == ms[..k] + ms[k..];
    TakeSent(front, ms[k..]);
    TakeUpTo(EncodeAll(ms), es, k + 1);
    TakeStep(EncodeAll(ms), front, EncodeAll(ms[k..]), es[k]);
    assert es[..k + 1] == front + [es[k]];
    assert ms[k] in ms && ms[k..][1..] == tail && forall m | m in tail :: m in ms;
    SplitFirst(ms[k..]);
    GivenUpLeaves(ms[k], EncodeAll(tail), es[k].msg.taken);
  }

  /** Whatever follows packed requests, they are taken off one by one. */
  lemma {:induction false} TakeFront(es: seq<Event>, rest: seq<byte>)
    requires AllWellFormed(Msgs(es))
    ensures TakeAll(EncodeAll(Msgs(es)) + rest, es) == Some(rest)
    decreases |es|
  {
    hide Cut, Encode, GivesUpAt;
    if es != [] {
      var first, tail := es[0], es[1..];
      var s := EncodeAll(Msgs(es)) + rest;
      assert first.msg == Msgs(es)[0] && Msgs(es)[1..] == Msgs(tail) && first.msg in Msgs(es);
      assert forall m | m in Msgs(tail) :: m in Msgs(es);
      NeverSent(first.msg);
      assert s == Encode(first.msg) + (EncodeAll(Msgs(tail)) + rest);
      CutInvertsEncode(first.msg, EncodeAll(Msgs(tail)) + rest);
      assert [first] + tail == es;
      TakeOne(s, first);
      TakeParts(s, [first], EncodeAll(Msgs(tail)) + rest, tail);
      TakeFront(tail, rest);
    } else {
      assert EncodeAll(Msgs(es)) + rest == rest;
    }
  }

  lemma NeverSent(m: Msg)
    requires WellFormed(m)
    ensures !m.Aborted?
  {
  }

  /** Units that were all answered are the first complete ones of the stream. */
  lemma {:induction false} TakeCuts(s: seq<byte>, es: seq<Event>)
    requires TakeAll(s, es).Some? && Aborts(es) == 0
    ensures CutAll(s).0 == Msgs(es) + CutAll(TakeAll(s, es).value).0
  {
    hide Cut, GivesUpAt;
    if es != [] {
      var front, last := es[..|es| - 1], es[|es| - 1];
      TakeCuts(s, front);
      assert Msgs(es) == Msgs(front) + [last.msg];
    }
  }

  /** The number of aborted requests. */
  function Aborts(es: seq<Event>): nat {
    if es == [] then 0 else Aborts(es[..|es| - 1]) + if es[|es| - 1].msg.Aborted? then 1 else 0
  }

  lemma AbortsStep(es: seq<Event>, e: Event)
    ensures Aborts(es + [e]) == Aborts(es) + if e.msg.Aborted? then 1 else 0
  {
    assert (es + [e])[..|es + [e]| - 1] == es;
  }

  lemma {:induction false} NoAborts(es: seq<Event>)
    ensures Aborts(es) == 0 <==> forall e | e in es :: !e.msg.Aborted?
  {
    if es != [] {
      NoAborts(es[..|es| - 1]);
      assert es == es[..|es| - 1] + [es[|es| - 1]];
    }
  }

  /** One event adds at most one answered unit, an aborted one exactly if `refused`. */
  predicate Booked(before: seq<Event>, after: seq<Event>, refused: bool, env: Env) {
    if after == before then !refused
    else
      && |after| == |before| + 1 && after[..|before|] == before
      && after[|before|].env == env && (after[|before|].msg.Aborted? <==> refused)
  }

  lemma BookedFacts(before: seq<Event>, after: seq<Event>, refused: bool, env: Env)
    requires Booked(before, after, refused, env)
    ensures before <= after && |after| <= |before| + 1
    ensures |after| > |before| ==> after[|before|].env == env
    ensures Aborts(after) == Aborts(before) + if refused then 1 else 0
  {
    if after != before {
      assert after == before + [after[|before|]];
      AbortsStep(before, after[|before|]);
    }
  }

  lemma Books(before: seq<Event>, m: Msg, env: Env)
    ensures Booked(before, before, false, env) && Booked(before, before + [Event(m, env)], m.Aborted?, env)
  {
  }
}

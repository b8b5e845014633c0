/** Frame alignment of the router, what it emits, and the loop guard. */
module RouterTheory {
  import opened Names
  import opened Wire
  import opened Sockets
  import opened Relay
  import opened RelayTheory
  import opened Router

  predicate IsRequest(ty: Bytes)
  {
    ty == MQ_REQ || ty == MQ_REQ_INTERHUB
  }

  /** A message as the router receives it: identity, type and the parts that type calls for. */
  predicate WellFormed(m: Message)
  {
    && |m| >= 2
    && var ty := CStr(m[1]);
       && (IsRequest(ty) ==> |m| >= 5)
       && (ty == MQ_RES || ty == MQ_RES_INTERHUB ==> |m| >= 3)
       && (ty == MQ_LOG ==> |m| == 3)
  }

  /** EHOSTUNREACH is only ever the ROUTER's own verdict. */
  predicate NoInjected(o: Out)
  {
    forall k :: 0 <= k < |o.script| ==> o.script[k] != Unroutable
  }

  predicate Routable(peers: Option<set<Bytes>>, id: Bytes)
  {
    peers == None || id in peers.value
  }

  // ----- EHOSTUNREACH stops a relay before its first part -------------------

  lemma {:induction false} RetryVerdict(o: Out, data: Bytes, more: bool)
    requires NoInjected(o)
    ensures NoInjected(Retry(o, data, more).0)
    ensures Retry(o, data, more).1 == Unroutable ==> AtStart(o) && !Routable(o.peers, data)
    decreases |o.script|
  {
    if Verdict(o, data) == Interrupted { RetryVerdict(Put(o, data, more), data, more); }
  }

  lemma {:induction false} MidMessageIsRoutable(i: In, o: Out, host: Bytes)
    requires NoInjected(o) && (!AtStart(o) || o.peers == None)
    ensures var r := RelaySndMore(i, o, host); r.err != Unroutable && NoInjected(r.out)
    decreases |i.queue|
  {
    if i.queue != [] {
      var part := i.queue[0];
      RetryVerdict(o, part.data, part.more);
      var (o', r) := Retry(o, part.data, part.more);
      if r == Sent && part.more { MidMessageIsRoutable(Next(i), o', host); }
    }
  }

  lemma UnroutableIsFirst(i: In, o: Out, host: Bytes)
    requires NoInjected(o) && i.queue != []
    ensures var r := RelaySndMore(i, o, host);
            && NoInjected(r.out)
            && (r.err == Unroutable ==> !r.ok && r.inp == Next(i) && r.out.sent == o.sent && r.host == CStr(i.queue[0].data))
  {
    var part := i.queue[0];
    RetryVerdict(o, part.data, part.more);
    var (o', r) := Retry(o, part.data, part.more);
    if r == Sent && part.more { MidMessageIsRoutable(Next(i), o', host); }
  }

  // ----- Alignment ----------------------------------------------------------

  lemma {:induction false} ReqAligned(s: RState, m: Message, ms: seq<Part>, host: Bytes) returns (k: nat)
    requires |m| >= 5 && s.inp == Rest(m, 3, ms)
    ensures 4 <= k <= |m| && ReqToInterhub(s, host).inp == Rest(m, k, ms)
  {
    NextPart(m, 3, ms, s.inp);
    var tag := ReadTag(m[3]);
    var logged := SendChain(s.out, LogMessage(tag, host), 1).0;
    var (o, ok) := SendChain(logged, ForwardHead(tag, host), 1);
    k := 4;
    if !Via(tag) && ok {
      var n := RelayIsExact(m, 4, ms, Rest(m, 4, ms), o, "");
      k := if 4 + n == |m| then |m| else 5 + n;
    }
  }

  lemma RelayAligned(hub: bool, s: RState, m: Message, ms: seq<Part>, o: Out, pub: bool) returns (k: nat)
    requires |m| >= 3 && s.inp == Rest(m, 2, ms) && NoInjected(o) && (pub ==> o.peers == None) && (!pub ==> |m| >= 5)
    ensures var r := RelaySndMore(s.inp, o, "");
            && 2 <= k <= |m|
            && AfterRelay(hub, if pub then s.(inp := r.inp, pub := r.out) else s.(inp := r.inp, out := r.out), r.ok, r.err, r.host).inp
               == Rest(m, k, ms)
  {
    var r := RelaySndMore(s.inp, o, "");
    NextPart(m, 2, ms, s.inp);
    UnroutableIsFirst(s.inp, o, "");
    var n := RelayIsExact(m, 2, ms, s.inp, o, "");
    k := if r.ok then |m| else n + 3;
    if pub {
      MidMessageIsRoutable(s.inp, o, "");
    } else if r.err == Unroutable {
      if hub {
        k := ReqAligned(s.(inp := r.inp, out := r.out), m, ms, r.host);
      } else {
        DrainReachesBoundary(m, 3, ms);
        k := |m|;
        assert Frame(m[|m|..]) + ms == ms;
      }
    }
  }

  /** Starting on a message boundary, one round reads the identity, the type
      and part or all of that message, never a part of the next one. */
  lemma RoundIsAligned(hub: bool, s: RState, m: Message, ms: seq<Part>) returns (k: nat)
    requires WellFormed(m) && s.inp == In(Frame(m) + ms, false)
    requires NoInjected(s.out) && NoInjected(s.pub) && s.pub.peers == None
    ensures 2 <= k <= |m| && Round(hub, s).0 && Round(hub, s).1.inp == Rest(m, k, ms)
  {
    var ty := CStr(m[1]);
    ReadHead(s.inp, m, ms);
    var s' := s.(inp := Rest(m, 2, ms));
    if ty == MQ_RES_INTERHUB {
      var (o, ok) := SendChain(s'.out, RES_HEAD, 1);
      k := 2;
      if ok {
        var n := RelayIsExact(m, 2, ms, s'.inp, o, "");
        k := if 2 + n == |m| then |m| else 3 + n;
      }
    } else if ty == MQ_RES {
      k := RelayAligned(hub, s', m, ms, s'.pub, true);
    } else if IsRequest(ty) {
      k := RelayAligned(hub, s', m, ms, s'.out, false);
    } else {
      k := |m|;
      if ty == MQ_LOG { NextPart(m, 2, ms, s'.inp); } else { DrainReachesBoundary(m, 2, ms); }
      assert Frame(m[|m|..]) + ms == ms;
    }
  }

  lemma ReadHead(i: In, m: Message, ms: seq<Part>)
    requires |m| >= 2 && i.queue == Frame(m) + ms
    ensures i.queue[0].data == m[0] && Next(i) == Rest(m, 1, ms)
    ensures Next(i).queue != [] && Next(i).queue[0].data == m[1] && Next(Next(i)) == Rest(m, 2, ms)
  {
  }

  predicate Keyword(data: Bytes)
  {
    CStr(data) in [MQ_REQ, MQ_RES, MQ_REQ_INTERHUB, MQ_RES_INTERHUB, MQ_LOG]
  }

  /** An unknown type at part k + 1 of a message has the rest of it drained. */
  lemma LeftoverDrains(hub: bool, s: RState, m: Message, k: nat, ms: seq<Part>)
    requires k + 1 < |m| && s.inp == Rest(m, k, ms) && !Keyword(m[k + 1])
    ensures Round(hub, s) == (true, s.(inp := In(ms, false)))
  {
    NextPart(m, k, ms, s.inp);
    NextPart(m, k + 1, ms, Next(s.inp));
    DrainReachesBoundary(m, k + 2, ms);
  }

  /** A single leftover part is taken for an identity, the next message's identity for its type. */
  lemma LastPartTakesNext(hub: bool, s: RState, m: Message, n: Message, ms: seq<Part>)
    requires m != [] && n != [] && s.inp == Rest(m, |m| - 1, Frame(n) + ms) && !Keyword(n[0])
    ensures Round(hub, s) == (true, s.(inp := In(ms, false)))
  {
    NextPart(m, |m| - 1, Frame(n) + ms, s.inp);
    assert Next(s.inp).queue == Frame(n) + ms by { AtEnd(m, Frame(n) + ms); }
    assert n[0..] == n;
    NextPart(n, 0, ms, Next(s.inp));
    DrainReachesBoundary(n, 1, ms);
  }

  lemma LastPartAlone(hub: bool, s: RState, m: Message)
    requires m != [] && s.inp == Rest(m, |m| - 1, [])
    ensures Round(hub, s) == (false, s.(inp := In([], false)))
  {
  }

  /** A round that starts on the rest of a message drops that rest, and at most
      one further message with it: the one whose identity was taken for a type. */
  lemma RoundResynchronises(hub: bool, s: RState, m: Message, k: nat, ms: seq<Message>)
    requires k < |m| && s.inp == Rest(m, k, Stream(ms)) && (ms != [] ==> ms[0] != [])
    requires k + 1 < |m| ==> !Keyword(m[k + 1])
    requires ms != [] ==> !Keyword(ms[0][0])
    ensures Round(hub, s) == (k + 1 < |m| || ms != [], s.(inp := In(Stream(if k + 1 < |m| || ms == [] then ms else ms[1..]), false)))
  {
    if k + 1 < |m| {
      LeftoverDrains(hub, s, m, k, Stream(ms));
    } else if ms != [] {
      LastPartTakesNext(hub, s, m, ms[0], Stream(ms[1..]));
    } else {
      LastPartAlone(hub, s, m);
    }
  }

  lemma AtEnd(m: Message, ms: seq<Part>)
    ensures Rest(m, |m|, ms) == In(ms, false)
  {
  }

  // ----- Whole runs ---------------------------------------------------------

  /** Messages whose leftovers cannot be mistaken for typed messages. */
  predicate Benign(m: Message)
  {
    WellFormed(m) && !Keyword(m[0]) && forall k :: 2 <= k < |m| ==> !Keyword(m[k])
  }

  /** The receiver stands at part k of message j (at its end when k is its length), or before the first. */
  predicate Standing(i: In, ms: seq<Message>, j: nat, k: nat)
  {
    j <= |ms| && if j == 0 then k == 0 && i == In(Stream(ms), false) else 2 <= k <= |ms[j - 1]| && i == Rest(ms[j - 1], k, Stream(ms[j..]))
  }

  predicate Plain(s: RState)
  {
    NoInjected(s.out) && NoInjected(s.pub) && s.pub.peers == None
  }

  lemma {:induction false} ChainKeepsPlain(o: Out, parts: seq<Part>, least: nat)
    requires NoInjected(o)
    ensures NoInjected(SendChain(o, parts, least).0)
    decreases |parts|
  {
    if parts != [] { ChainKeepsPlain(Put(o, parts[0].data, parts[0].more), parts[1..], least); }
  }

  lemma {:induction false} RelayKeepsPlain(i: In, o: Out, host: Bytes)
    requires NoInjected(o)
    ensures var r := RelaySndMore(i, o, host); NoInjected(r.out) && r.out.peers == o.peers
    decreases |i.queue|
  {
    if i.queue != [] {
      var part := i.queue[0];
      RetryVerdict(o, part.data, part.more);
      RelayKeepsPlain(Next(i), Retry(o, part.data, part.more).0, host);
    }
  }

  lemma ReqKeepsPlain(s: RState, host: Bytes)
    requires Plain(s)
    ensures Plain(ReqToInterhub(s, host))
  {
    if s.inp.queue != [] {
      var tag := ReadTag(s.inp.queue[0].data);
      var logged := SendChain(s.out, LogMessage(tag, host), 1).0;
      ChainKeepsPlain(s.out, LogMessage(tag, host), 1);
      ChainKeepsPlain(logged, ForwardHead(tag, host), 1);
      RelayKeepsPlain(Next(s.inp), SendChain(logged, ForwardHead(tag, host), 1).0, "");
    }
  }

  lemma RoundKeepsPlain(hub: bool, s: RState)
    requires Plain(s)
    ensures Plain(Round(hub, s).1)
  {
    if s.inp.queue != [] && Next(s.inp).queue != [] {
      var i := Next(s.inp);
      DispatchKeepsPlain(hub, s.(inp := Next(i)), CStr(i.queue[0].data));
    }
  }

  lemma DispatchKeepsPlain(hub: bool, s: RState, ty: Bytes)
    requires Plain(s)
    ensures Plain(Dispatch(hub, s, ty))
  {
    if ty == MQ_RES_INTERHUB {
      ChainKeepsPlain(s.out, RES_HEAD, 1);
      RelayKeepsPlain(s.inp, SendChain(s.out, RES_HEAD, 1).0, "");
    } else if ty == MQ_RES {
      var r := RelaySndMore(s.inp, s.pub, "");
      RelayKeepsPlain(s.inp, s.pub, "");
      ReqKeepsPlain(s.(inp := r.inp, pub := r.out), r.host);
    } else if IsRequest(ty) {
      var r := RelaySndMore(s.inp, s.out, "");
      RelayKeepsPlain(s.inp, s.out, "");
      ReqKeepsPlain(s.(inp := r.inp, out := r.out), r.host);
    }
  }

  /** One round from anywhere in a benign stream. */
  lemma RoundStands(hub: bool, s: RState, ms: seq<Message>, j: nat, k: nat) returns (j': nat, k': nat)
    requires (forall m :: m in ms ==> Benign(m)) && Plain(s) && Standing(s.inp, ms, j, k)
    ensures j <= j' <= j + 1 && Standing(Round(hub, s).1.inp, ms, j', k')
  {
    if j > 0 && k < |ms[j - 1]| {
      j', k' := LeftoverStands(hub, s, ms, j, k);
    } else {
      if j > 0 { AtEnd(ms[j - 1], Stream(ms[j..])); }
      assert ms[0..] == ms;
      if j == |ms| {
        j', k' := j, k;
      } else {
        assert Benign(ms[j]) && ms[j..][1..] == ms[j + 1..];
        j' := j + 1;
        k' := RoundIsAligned(hub, s, ms[j], Stream(ms[j + 1..]));
      }
    }
  }

  lemma LeftoverStands(hub: bool, s: RState, ms: seq<Message>, j: nat, k: nat) returns (j': nat, k': nat)
    requires (forall m :: m in ms ==> Benign(m)) && Plain(s) && Standing(s.inp, ms, j, k) && j > 0 && k < |ms[j - 1]|
    ensures j <= j' <= j + 1 && Standing(Round(hub, s).1.inp, ms, j', k')
  {
    assert Benign(ms[j - 1]) && (j < |ms| ==> Benign(ms[j]));
    RoundResynchronises(hub, s, ms[j - 1], k, ms[j..]);
    j' := if k + 1 < |ms[j - 1]| || j == |ms| then j else j + 1;
    k' := |ms[j' - 1]|;
    AtEnd(ms[j' - 1], Stream(ms[j'..]));
    assert ms[j..] != [] ==> ms[j..][1..] == ms[j + 1..];
  }

  /** The receiver stands somewhere from message j on, and nothing was injected. */
  ghost predicate Placed(s: RState, ms: seq<Message>, j: nat)
  {
    Plain(s) && exists j': nat, k': nat :: j <= j' && Standing(s.inp, ms, j', k')
  }

  lemma PlacedRound(hub: bool, s: RState, ms: seq<Message>, j: nat)
    requires (forall m :: m in ms ==> Benign(m)) && Placed(s, ms, j)
    ensures Placed(Round(hub, s).1, ms, j)
  {
    var j1: nat, k1: nat :| j <= j1 && Standing(s.inp, ms, j1, k1);
    var j2, k2 := RoundStands(hub, s, ms, j1, k1);
    RoundKeepsPlain(hub, s);
  }

  /** Rounds of any step function, as in Router.Rounds. */
  function Iterate(step: RState -> (bool, RState), s: RState, n: nat): RState
    decreases n
  {
    if n == 0 then s else var r := step(s); if r.0 then Iterate(step, r.1, n - 1) else r.1
  }

  lemma {:induction false} IterateKeeps(step: RState -> (bool, RState), kept: RState -> bool, s: RState, n: nat)
    requires kept(s) && forall t :: kept(t) ==> kept(step(t).1)
    ensures kept(Iterate(step, s, n))
    decreases n
  {
    if n > 0 {
      var r := step(s);
      if r.0 { IterateKeeps(step, kept, r.1, n - 1); }
    }
  }

  lemma {:induction false} RoundsIterate(hub: bool, step: RState -> (bool, RState), s: RState, n: nat)
    requires forall t :: step(t) == Round(hub, t)
    ensures Rounds(hub, s, n) == Iterate(step, s, n)
    decreases n
  {
    if n > 0 {
      var r := step(s);
      RoundsFrom(hub, s, n, r);
      if r.0 { RoundsIterate(hub, step, r.1, n - 1); }
    }
  }

  /** However many rounds run and whatever the sends return, the receiver is
      never lost: it stands inside or at the end of some message it was given. */
  lemma RunsStand(hub: bool, s: RState, ms: seq<Message>, j: nat, k: nat, n: nat) returns (j': nat, k': nat)
    requires (forall m :: m in ms ==> Benign(m)) && Plain(s) && Standing(s.inp, ms, j, k)
    ensures j <= j' && Standing(Rounds(hub, s, n).inp, ms, j', k')
  {
    var step := t => Round(hub, t);
    ghost var kept := t => Placed(t, ms, j);
    forall t | kept(t) ensures kept(step(t).1) { PlacedRound(hub, t, ms, j); }
    IterateKeeps(step, kept, s, n);
    RoundsIterate(hub, step, s, n);
    j', k' :| j <= j' && Standing(Rounds(hub, s, n).inp, ms, j', k');
  }
}

/** When a round of the router ends inside its message, for every script of send results. */
module RouterExits {
  import opened Names
  import opened Wire
  import opened Sockets
  import opened Relay
  import opened RelayTheory
  import opened Router
  import opened RouterTheory
  import opened RouterEmission

  // ----- Scripts ------------------------------------------------------------

  /** One of the first n results is not acceptance; past its end a script accepts. */
  predicate Stops(script: seq<Outcome>, n: nat)
  {
    exists j :: 0 <= j < n && j < |script| && script[j] != Sent
  }

  /** The same where EINTR is tried again. */
  predicate Refuses(script: seq<Outcome>, n: nat)
  {
    Stops(NoInterrupts(script), n)
  }

  /** How many of n sends joined by && are accepted. */
  function AcceptedFirst(script: seq<Outcome>, n: nat): (k: nat)
    ensures k <= n
    ensures k < n ==> k < |script| && script[k] != Sent
    ensures forall j :: 0 <= j < k && j < |script| ==> script[j] == Sent
  {
    if n == 0 || (script != [] && script[0] != Sent) then 0
    else 1 + AcceptedFirst(AfterFirst(script), n - 1)
  }

  /** What n sends joined by && leave of a script. */
  function AfterChain(script: seq<Outcome>, n: nat): seq<Outcome>
  {
    if n == 0 || script == [] then script
    else if script[0] != Sent then script[1..]
    else AfterChain(script[1..], n - 1)
  }

  /** What one part sent with retries leaves of it. */
  function AfterRetry(script: seq<Outcome>): seq<Outcome>
  {
    if script == [] then []
    else if script[0] == Interrupted then AfterRetry(script[1..])
    else script[1..]
  }

  lemma StopsStep(script: seq<Outcome>, n: nat)
    requires n > 0
    ensures Stops(script, n) <==> script != [] && (script[0] != Sent || Stops(script[1..], n - 1))
  {
    if script != [] && script[0] == Sent && Stops(script[1..], n - 1) {
      var j :| 0 <= j < n - 1 && j < |script[1..]| && script[1..][j] != Sent;
      assert script[j + 1] != Sent;
    }
    if Stops(script, n) && script[0] == Sent {
      var j :| 0 <= j < n && j < |script| && script[j] != Sent;
      assert script[1..][j - 1] != Sent;
    }
  }

  predicate NoneInjected(script: seq<Outcome>)
  {
    forall k :: 0 <= k < |script| ==> script[k] != Unroutable
  }

  lemma {:induction false} ChainInjectsNone(script: seq<Outcome>, n: nat)
    requires NoneInjected(script)
    ensures NoneInjected(AfterChain(script, n))
    decreases n
  {
    if n > 0 && script != [] && script[0] == Sent { ChainInjectsNone(script[1..], n - 1); }
  }

  // ----- Chains of sends ----------------------------------------------------

  /** A chain that starts where it may goes through exactly when no result in its part of the script stops it. */
  lemma {:induction false} ChainIsExact(o: Out, parts: seq<Part>, least: nat)
    requires Flowing(parts, least) && (!AtStart(o) || Routable(o.peers, parts[0].data))
    ensures var (o', ok) := SendChain(o, parts, least);
            && (ok <==> !Stops(o.script, |parts|)) && o'.script == AfterChain(o.script, |parts|)
            && (ok ==> o'.sent == o.sent + parts)
    decreases |parts|
  {
    var o' := Put(o, parts[0].data, parts[0].more);
    StopsStep(o.script, |parts|);
    if o.script == [] || o.script[0] == Sent {
      assert o'.sent == o.sent + [parts[0]];
      if |parts| > 1 {
        ChainIsExact(o', parts[1..], least);
        assert o.sent + [parts[0]] + parts[1..] == o.sent + parts;
      } else {
        assert parts == [parts[0]] && SendChain(o', parts[1..], least) == (o', true);
      }
    }
  }

  lemma FirstAccepted(o: Out, part: Part)
    requires !AtStart(o) || Routable(o.peers, part.data)
    ensures var o' := Put(o, part.data, part.more);
            if o.script == [] || o.script[0] == Sent
            then Verdict(o, part.data) == Sent && o'.sent == o.sent + [part] && o'.script == AfterFirst(o.script) && (part.more ==> !AtStart(o'))
            else Verdict(o, part.data) != Sent && o'.sent == o.sent
  {
  }

  function AfterFirst(script: seq<Outcome>): seq<Outcome>
  {
    if script == [] then [] else script[1..]
  }

  lemma ChainStep(o: Out, parts: seq<Part>, least: nat)
    requires Flowing(parts, least)
    ensures var o' := Put(o, parts[0].data, parts[0].more);
            SendChain(o, parts, least).0 ==
            if Verdict(o, parts[0].data) == Sent && |parts| > 1 then SendChain(o', parts[1..], least).0 else o'
  {
    if |parts| == 1 { assert parts[1..] == []; }
  }

  lemma ChainCut(script: seq<Outcome>, parts: seq<Part>)
    requires parts != []
    ensures parts[..AcceptedFirst(script, |parts|)] ==
            if script != [] && script[0] != Sent then []
            else [parts[0]] + parts[1..][..AcceptedFirst(AfterFirst(script), |parts| - 1)]
  {
    if script == [] || script[0] == Sent { PrefixCons(parts, AcceptedFirst(AfterFirst(script), |parts| - 1)); }
  }

  lemma PrefixCons(parts: seq<Part>, n: nat)
    requires n < |parts|
    ensures parts[..1 + n] == [parts[0]] + parts[1..][..n]
  {
  }

  /** What it sends, however it ends: its parts before the first that is not accepted. */
  lemma {:induction false} ChainSends(o: Out, parts: seq<Part>, least: nat)
    requires Flowing(parts, least) && (!AtStart(o) || Routable(o.peers, parts[0].data))
    ensures SendChain(o, parts, least).0.sent == o.sent + parts[..AcceptedFirst(o.script, |parts|)]
    decreases |parts|
  {
    FirstAccepted(o, parts[0]);
    ChainStep(o, parts, least);
    ChainCut(o.script, parts);
    var o', cut := Put(o, parts[0].data, parts[0].more), parts[1..][..AcceptedFirst(AfterFirst(o.script), |parts| - 1)];
    if o.script == [] || o.script[0] == Sent {
      if |parts| > 1 {
        ChainSends(o', parts[1..], least);
        Assoc(o.sent, [parts[0]], cut);
      } else {
        assert cut == [] && [parts[0]] + cut == [parts[0]];
      }
    } else {
      assert o.sent + [] == o.sent;
    }
  }

  /** Nothing stops n sends exactly when all of them are accepted. */
  lemma StopsBefore(script: seq<Outcome>, n: nat)
    ensures Stops(script, n) <==> AcceptedFirst(script, n) < n
  {
  }

  lemma {:induction false} ChainNeedsBytes(o: Out, parts: seq<Part>, least: nat)
    requires SendChain(o, parts, least).1
    ensures forall k :: 0 <= k < |parts| ==> |parts[k].data| >= least
    decreases |parts|
  {
    if parts != [] {
      ChainNeedsBytes(Put(o, parts[0].data, parts[0].more), parts[1..], least);
      assert forall k :: 0 < k < |parts| ==> parts[k] == parts[1..][k - 1];
    }
  }

  lemma ChainBlocked(o: Out, parts: seq<Part>, least: nat)
    requires AtStart(o) && parts != [] && !Routable(o.peers, parts[0].data)
    ensures var (o', ok) := SendChain(o, parts, least); !ok && o'.sent == o.sent
  {
  }

  // ----- Relays -------------------------------------------------------------

  lemma {:induction false} RetryAccepts(o: Out, data: Bytes, more: bool)
    requires NoInjected(o) && (!AtStart(o) || Routable(o.peers, data))
    ensures var (o', r) := Retry(o, data, more);
            var calm := NoInterrupts(o.script);
            && (calm == [] ==> r == Sent && NoInterrupts(o'.script) == [])
            && (calm != [] ==> r == calm[0] && NoInterrupts(o'.script) == calm[1..])
            && NoInjected(o') && r in [Sent, Failed]
    decreases |o.script|
  {
    if Verdict(o, data) == Interrupted { RetryAccepts(Put(o, data, more), data, more); }
  }

  /** One part of a relay that starts where it may, as the script without its EINTR results decides. */
  lemma RelayOn(m: Message, k: nat, ms: seq<Part>, i: In, o: Out, host: Bytes, r: Relayed) returns (o': Out, sent: bool)
    requires k < |m| && i.queue == Frame(m[k..]) + ms && NoInjected(o) && (!AtStart(o) || Routable(o.peers, m[k]))
    requires r == RelaySndMore(i, o, host)
    ensures var calm, calm' := NoInterrupts(o.script), NoInterrupts(o'.script);
            && (sent <==> calm == [] || calm[0] == Sent) && (calm' == if calm == [] then [] else calm[1..])
    ensures NoInjected(o') && (sent && k + 1 < |m| ==> !AtStart(o') && r == RelaySndMore(Rest(m, k + 1, ms), o', host))
    ensures sent && k + 1 == |m| ==> r.ok && r.inp == In(ms, false) && r.err != Unroutable
    ensures !sent ==> !r.ok && r.inp == Rest(m, k + 1, ms) && r.err == Failed
  {
    NextPart(m, k, ms, i);
    RetryAccepts(o, m[k], k < |m| - 1);
    AtEnd(m, ms);
    var t := Retry(o, m[k], k < |m| - 1);
    o', sent := t.0, t.1 == Sent;
  }

  lemma {:induction false} RelayStands(m: Message, k: nat, ms: seq<Part>, i: In, o: Out, host: Bytes, r: Relayed)
    requires k < |m| && i.queue == Frame(m[k..]) + ms && NoInjected(o) && (!AtStart(o) || Routable(o.peers, m[k]))
    requires r == RelaySndMore(i, o, host)
    ensures r.err != Unroutable && (r.ok <==> !Refuses(o.script, |m| - k))
    ensures r.inp == In(ms, false) <==> !Refuses(o.script, |m| - k - 1)
    decreases |m| - k
  {
    NextPart(m, k, ms, i);
    AtEnd(m, ms);
    var o', sent := RelayOn(m, k, ms, i, o, host, r);
    StopsStep(NoInterrupts(o.script), |m| - k);
    if k + 1 < |m| {
      StopsStep(NoInterrupts(o.script), |m| - k - 1);
      if sent { RelayStands(m, k + 1, ms, Rest(m, k + 1, ms), o', host, r); }
    }
  }

  /** A relay that starts where it may reads its message to the end exactly when
      no part but the last is refused, and succeeds exactly when none is. */
  lemma RelayReachesEnd(m: Message, k: nat, ms: seq<Part>, i: In, o: Out, host: Bytes)
    requires k < |m| && i.queue == Frame(m[k..]) + ms && NoInjected(o) && (!AtStart(o) || Routable(o.peers, m[k]))
    ensures var r := RelaySndMore(i, o, host);
            && r.err != Unroutable && (r.ok <==> !Refuses(o.script, |m| - k))
            && (r.inp == In(ms, false) <==> !Refuses(o.script, |m| - k - 1))
  {
    RelayStands(m, k, ms, i, o, host, RelaySndMore(i, o, host));
  }

  lemma {:induction false} RetryBlocked(o: Out, data: Bytes, more: bool)
    requires NoInjected(o) && AtStart(o) && !Routable(o.peers, data)
    ensures var (o', r) := Retry(o, data, more);
            && r == (if Refuses(o.script, 1) then Failed else Unroutable)
            && o'.sent == o.sent && o'.script == AfterRetry(o.script) && NoInjected(o')
    decreases |o.script|
  {
    StopsStep(NoInterrupts(o.script), 1);
    if Verdict(o, data) == Interrupted { RetryBlocked(Put(o, data, more), data, more); }
  }

  // ----- The exits ----------------------------------------------------------

  predicate Reaches(o: Out, id: Bytes)
  {
    !AtStart(o) || Routable(o.peers, id)
  }

  /** Forwarding stops before or in the message's rest: the hub is unreachable,
      the target has no name, or a send behind the notice fails. */
  predicate ForwardStops(peers: Option<set<Bytes>>, script: seq<Outcome>, m: Message)
    requires |m| >= 5
  {
    var left := AfterChain(script, 3);
    || !Routable(peers, INTERHUB_NAME) || CStr(m[2]) == []
    || Stops(left, 4) || Refuses(AfterChain(left, 4), |m| - 5)
  }

  /** The exits that leave parts of the message unread. */
  predicate EndsInside(hub: bool, s: RState, m: Message)
    requires WellFormed(m)
  {
    var ty, script := CStr(m[1]), s.out.script;
    if ty == MQ_RES_INTERHUB then
      !Reaches(s.out, INTERHUB_NAME) || Stops(script, 2) || Refuses(AfterChain(script, 2), |m| - 3)
    else if ty == MQ_RES then Refuses(s.pub.script, |m| - 3)
    else if IsRequest(ty) then
      if Reaches(s.out, m[2]) then Refuses(script, |m| - 3)
      else Refuses(script, 1) || (hub && (Via(ReadTag(m[3])) || ForwardStops(s.out.peers, AfterRetry(script), m)))
    else false
  }

  lemma Inside(m: Message, k: nat, ms: seq<Part>)
    requires k < |m|
    ensures Rest(m, k, ms) != In(ms, false)
  {
  }

  lemma HubResponseExits(s: RState, m: Message, ms: seq<Part>)
    requires |m| >= 3 && s.inp == Rest(m, 2, ms) && NoInjected(s.out)
    ensures var script := s.out.script;
            ResToInterhub(s).inp == In(ms, false) <==>
            Reaches(s.out, INTERHUB_NAME) && !Stops(script, 2) && !Refuses(AfterChain(script, 2), |m| - 3)
  {
    Inside(m, 2, ms);
    ChainInjectsNone(s.out.script, 2);
    if Reaches(s.out, INTERHUB_NAME) {
      ChainIsExact(s.out, RES_HEAD, 1);
      var (o, ok) := SendChain(s.out, RES_HEAD, 1);
      if ok {
        assert !AtStart(o);
        RelayReachesEnd(m, 2, ms, s.inp, o, "");
      }
    } else {
      ChainBlocked(s.out, RES_HEAD, 1);
    }
  }

  /** The head of a forwarded request, behind its notice. */
  lemma ForwardHeadExact(o: Out, tag: Bytes, host: Bytes)
    requires |tag| == TAG_SIZE && AtStart(o) && NoInjected(o)
    ensures var (o', ok) := SendChain(SendChain(o, LogMessage(tag, host), 1).0, ForwardHead(tag, host), 1);
            var left := AfterChain(o.script, 3);
            && (ok <==> Routable(o.peers, INTERHUB_NAME) && host != [] && !Stops(left, 4))
            && (ok ==> o'.script == AfterChain(left, 4) && NoInjected(o') && !AtStart(o'))
  {
    var lg, hd := LogMessage(tag, host), ForwardHead(tag, host);
    var logged := SendChain(o, lg, 1).0;
    if !Routable(o.peers, INTERHUB_NAME) {
      ChainBlocked(o, lg, 1);
      ChainBlocked(logged, hd, 1);
    } else if host == [] {
      assert hd[2].data == [];
      if SendChain(logged, hd, 1).1 {
        ChainNeedsBytes(logged, hd, 1);
        assert false;
      }
    } else {
      HeadsFlow(tag, host);
      ChainIsExact(o, lg, 1);
      ChainIsExact(logged, hd, 1);
      ChainInjectsNone(o.script, 3);
      ChainInjectsNone(AfterChain(o.script, 3), 4);
    }
  }

  lemma ForwardExits(s: RState, m: Message, ms: seq<Part>)
    requires |m| >= 5 && s.inp == Rest(m, 3, ms) && NoInjected(s.out) && AtStart(s.out)
    ensures ReqToInterhub(s, CStr(m[2])).inp == In(ms, false) <==>
            !Via(ReadTag(m[3])) && !ForwardStops(s.out.peers, s.out.script, m)
  {
    var tag, host := ReadTag(m[3]), CStr(m[2]);
    Inside(m, 4, ms);
    ForwardHeadExact(s.out, tag, host);
    var headed := SendChain(SendChain(s.out, LogMessage(tag, host), 1).0, ForwardHead(tag, host), 1);
    ForwardReads(s, m, ms, headed);
    if headed.1 { RelayReachesEnd(m, 4, ms, Rest(m, 4, ms), headed.0, ""); }
  }

  lemma ForwardReads(s: RState, m: Message, ms: seq<Part>, headed: (Out, bool))
    requires |m| >= 5 && s.inp == Rest(m, 3, ms)
    requires var tag, host := ReadTag(m[3]), CStr(m[2]);
             headed == SendChain(SendChain(s.out, LogMessage(tag, host), 1).0, ForwardHead(tag, host), 1)
    ensures ReqToInterhub(s, CStr(m[2])).inp ==
            if !Via(ReadTag(m[3])) && headed.1 then RelaySndMore(Rest(m, 4, ms), headed.0, "").inp else Rest(m, 4, ms)
  {
    NextPart(m, 3, ms, s.inp);
  }

  /** The relay of a request whose target is not connected stops at its first part. */
  lemma BlockedRelay(m: Message, ms: seq<Part>, o: Out)
    requires |m| >= 5 && NoInjected(o) && AtStart(o) && !Routable(o.peers, m[2])
    ensures var r := RelaySndMore(Rest(m, 2, ms), o, "");
            && !r.ok && r.inp == Rest(m, 3, ms) && AtStart(r.out) && NoInjected(r.out) && r.out.peers == o.peers
            && r.out.script == AfterRetry(o.script)
            && (if Refuses(o.script, 1) then r.err == Failed else r.err == Unroutable && r.host == CStr(m[2]))
  {
    NextPart(m, 2, ms, Rest(m, 2, ms));
    RetryBlocked(o, m[2], true);
  }

  lemma BlockedExits(hub: bool, s: RState, m: Message, ms: seq<Part>)
    requires |m| >= 5 && s.inp == Rest(m, 2, ms) && NoInjected(s.out) && !Reaches(s.out, m[2])
    ensures var r := RelaySndMore(s.inp, s.out, "");
            AfterRelay(hub, s.(inp := r.inp, out := r.out), r.ok, r.err, r.host).inp == In(ms, false) <==>
            !Refuses(s.out.script, 1)
            && (hub ==> !Via(ReadTag(m[3])) && !ForwardStops(s.out.peers, AfterRetry(s.out.script), m))
  {
    var r := RelaySndMore(s.inp, s.out, "");
    BlockedRelay(m, ms, s.out);
    Inside(m, 3, ms);
    DrainReachesBoundary(m, 3, ms);
    if r.err == Unroutable { ForwardExits(s.(inp := r.inp, out := r.out), m, ms); }
  }

  lemma TypedExits(hub: bool, s: RState, m: Message, ms: seq<Part>)
    requires WellFormed(m) && s.inp == Rest(m, 2, ms) && NoInjected(s.out) && NoInjected(s.pub) && s.pub.peers == None
    ensures Dispatch(hub, s, CStr(m[1])).inp == In(ms, false) <==> !EndsInside(hub, s, m)
  {
    var ty := CStr(m[1]);
    AtEnd(m, ms);
    if ty == MQ_RES_INTERHUB {
      HubResponseExits(s, m, ms);
    } else if ty == MQ_RES {
      RelayReachesEnd(m, 2, ms, s.inp, s.pub, "");
    } else if IsRequest(ty) {
      if Reaches(s.out, m[2]) {
        RelayReachesEnd(m, 2, ms, s.inp, s.out, "");
      } else {
        BlockedExits(hub, s, m, ms);
      }
    } else if ty == MQ_LOG {
      NextPart(m, 2, ms, s.inp);
    } else {
      DrainReachesBoundary(m, 2, ms);
    }
  }

  /** From a message boundary and for every script of send results: the round
      ends inside its message, rather than at its end, exactly when the loop
      guard fires, the hub cannot be reached, or a send fails before the last
      part, EINTR counting only where a send is not tried again. */
  lemma UndrainedExits(hub: bool, s: RState, m: Message, ms: seq<Part>)
    requires WellFormed(m) && s.inp == In(Frame(m) + ms, false)
    requires NoInjected(s.out) && NoInjected(s.pub) && s.pub.peers == None
    ensures Round(hub, s).1.inp != In(ms, false) <==> EndsInside(hub, s, m)
  {
    ReadHead(s.inp, m, ms);
    TypedExits(hub, s.(inp := Rest(m, 2, ms)), m, ms);
  }

  lemma {:induction false} CalmAccepts(script: seq<Outcome>, n: nat)
    requires forall k :: 0 <= k < |script| ==> script[k] in [Sent, Interrupted]
    ensures !Refuses(script, n)
    decreases |script|
  {
    if script != [] && n > 0 {
      CalmAccepts(script[1..], n);
      if script[0] == Sent {
        CalmAccepts(script[1..], n - 1);
        StopsStep(NoInterrupts(script), n);
      }
    }
  }

  /** So when sends succeed, or a response or a request for a connected peer meets
      nothing but EINTR, a round is left inside its message only by the loop
      guard and by an unreachable hub. */
  lemma SuccessfulExits(hub: bool, s: RState, m: Message, ms: seq<Part>)
    requires WellFormed(m) && TargetNamed(m) && s.inp == In(Frame(m) + ms, false)
    requires Clear(s.out) && Clear(s.pub) && s.pub.peers == None
    ensures Round(hub, s).1.inp != In(ms, false) <==>
            var ty, peers := CStr(m[1]), s.out.peers;
            || (ty == MQ_RES_INTERHUB && !Routable(peers, INTERHUB_NAME))
            || (IsRequest(ty) && !Routable(peers, m[2]) && hub && (Via(ReadTag(m[3])) || !Routable(peers, INTERHUB_NAME)))
  {
    UndrainedExits(hub, s, m, ms);
    CStrOfTarget(m);
  }

  lemma CStrOfTarget(m: Message)
    requires WellFormed(m) && TargetNamed(m)
    ensures IsRequest(CStr(m[1])) ==> CStr(m[2]) != []
  {
    if IsRequest(CStr(m[1])) { CStrOfName(m[2]); }
  }

  lemma InterruptedExits(hub: bool, s: RState, m: Message, ms: seq<Part>)
    requires WellFormed(m) && s.inp == In(Frame(m) + ms, false) && s.pub.peers == None
    requires CStr(m[1]) == MQ_RES || (IsRequest(CStr(m[1])) && Reaches(s.out, m[2]))
    requires forall o, k :: o in [s.out, s.pub] && 0 <= k < |o.script| ==> o.script[k] in [Sent, Interrupted]
    ensures Round(hub, s).1.inp == In(ms, false)
  {
    assert forall o :: o in [s.out, s.pub] ==> NoInjected(o);
    UndrainedExits(hub, s, m, ms);
    CalmAccepts(s.out.script, |m| - 3);
    CalmAccepts(s.pub.script, |m| - 3);
  }

  // ----- A head and the rest of a message -----------------------------------

  /** Parts of a head: each announces another one. */
  function HeadOf(hs: Message): seq<Part>
  {
    seq(|hs|, j requires 0 <= j < |hs| => Part(hs[j], true))
  }

  /** A head, and behind it, unless a send of the head failed, the rest of a message. */
  function HeadAndRest(i: In, o: Out, hs: Message, least: nat): (In, Out)
  {
    var (o', ok) := SendChain(o, HeadOf(hs), least);
    if ok then var r := RelaySndMore(i, o', ""); (r.inp, r.out) else (i, o')
  }

  /** n parts of the outgoing message went out, as they are to be: all of them
      exactly when no send is refused, EINTR counting only in the head.  When the
      head was cut the rest of the incoming message, from part k on, is unread;
      when the rest was cut it is read through the refused part. */
  predicate CutAfter(n: nat, o: Out, hs: Message, m: Message, k: nat, ms: seq<Part>, after: (In, Out))
    requires k < |m|
  {
    && n <= |hs| + |m| - k
    && after.1.sent == o.sent + Frame(hs + m[k..])[..n]
    && after.0 == (if n < |hs| then Rest(m, k, ms)
                   else if n < |hs| + |m| - k then Rest(m, k + (n - |hs|) + 1, ms)
                   else Rest(m, |m|, ms))
    && (n == |hs| + |m| - k <==> !Stops(o.script, |hs|) && !Refuses(AfterChain(o.script, |hs|), |m| - k))
  }

  ghost predicate CutSomewhere(o: Out, hs: Message, m: Message, k: nat, ms: seq<Part>, after: (In, Out))
    requires k < |m|
  {
    exists n: nat :: CutAfter(n, o, hs, m, k, ms, after)
  }

  /** The head may start where it does, and none of its parts is too short to go on. */
  predicate HeadMayGo(o: Out, hs: Message, least: nat)
  {
    && hs != [] && (!AtStart(o) || Routable(o.peers, hs[0]))
    && forall j :: 0 <= j < |hs| ==> |hs[j]| >= least
  }

  lemma OutgoingFrames(hs: Message, m: Message, k: nat)
    requires k < |m|
    ensures Frame(hs + m[k..]) == HeadOf(hs) + Frame(m)[k..] && Frame(m)[k..] == Frame(m[k..])
  {
    FrameSuffix(m, k);
    FrameConcat(hs, m[k..]);
  }

  lemma HeadCut(o: Out, hs: Message, least: nat, m: Message, k: nat, ms: seq<Part>)
    requires HeadMayGo(o, hs, least) && k < |m| && Stops(o.script, |hs|)
    ensures CutSomewhere(o, hs, m, k, ms, HeadAndRest(Rest(m, k, ms), o, hs, least))
  {
    var n := AcceptedFirst(o.script, |hs|);
    StopsBefore(o.script, |hs|);
    ChainIsExact(o, HeadOf(hs), least);
    ChainSends(o, HeadOf(hs), least);
    OutgoingFrames(hs, m, k);
    assert HeadOf(hs)[..n] == Frame(hs + m[k..])[..n];
    assert CutAfter(n, o, hs, m, k, ms, HeadAndRest(Rest(m, k, ms), o, hs, least));
  }

  lemma HeadSent(o: Out, hs: Message, least: nat, m: Message, k: nat, ms: seq<Part>)
    requires HeadMayGo(o, hs, least) && NoInjected(o) && k < |m| && !Stops(o.script, |hs|)
    ensures CutSomewhere(o, hs, m, k, ms, HeadAndRest(Rest(m, k, ms), o, hs, least))
  {
    ChainIsExact(o, HeadOf(hs), least);
    ChainInjectsNone(o.script, |hs|);
    var o' := SendChain(o, HeadOf(hs), least).0;
    assert !AtStart(o');
    var j := RelayIsExact(m, k, ms, Rest(m, k, ms), o', "");
    RelayReachesEnd(m, k, ms, Rest(m, k, ms), o', "");
    OutgoingFrames(hs, m, k);
    SplitPrefix(HeadOf(hs), Frame(m)[k..], j);
    Assoc(o.sent, HeadOf(hs), Frame(m)[k..][..j]);
    assert Frame(m)[k..k + j] == Frame(m)[k..][..j];
    assert CutAfter(|hs| + j, o, hs, m, k, ms, HeadAndRest(Rest(m, k, ms), o, hs, least));
  }

  lemma SplitPrefix(a: seq<Part>, b: seq<Part>, j: nat)
    requires j <= |b|
    ensures (a + b)[..|a| + j] == a + b[..j]
  {
  }

  lemma HeadAndRestIsExact(o: Out, hs: Message, least: nat, m: Message, k: nat, ms: seq<Part>)
    requires HeadMayGo(o, hs, least) && NoInjected(o) && k < |m|
    ensures CutSomewhere(o, hs, m, k, ms, HeadAndRest(Rest(m, k, ms), o, hs, least))
  {
    if Stops(o.script, |hs|) { HeadCut(o, hs, least, m, k, ms); } else { HeadSent(o, hs, least, m, k, ms); }
  }

  /** A response for a reachable hub goes out as it is to, up to some part. */
  lemma HubResponseSends(s: RState, m: Message, ms: seq<Part>) returns (n: nat)
    requires |m| >= 3 && s.inp == Rest(m, 2, ms) && NoInjected(s.out) && Reaches(s.out, INTERHUB_NAME)
    ensures var s' := ResToInterhub(s);
            s'.pub == s.pub && CutAfter(n, s.out, [INTERHUB_NAME, MQ_RES_INTERHUB], m, 2, ms, (s'.inp, s'.out))
  {
    var hs := [INTERHUB_NAME, MQ_RES_INTERHUB];
    assert HeadOf(hs) == RES_HEAD;
    HeadAndRestIsExact(s.out, hs, 1, m, 2, ms);
    var s' := ResToInterhub(s);
    assert (s'.inp, s'.out) == HeadAndRest(Rest(m, 2, ms), s.out, hs, 1);
    n :| CutAfter(n, s.out, hs, m, 2, ms, (s'.inp, s'.out));
  }

  /** A request handed to a reachable hub: the notice, up to some part, and the
      request as it is to go, up to some part; a cut notice does not hold the
      request back. */
  lemma ForwardSends(s: RState, m: Message, ms: seq<Part>) returns (logged: Out, n: nat)
    requires |m| >= 5 && s.inp == Rest(m, 3, ms) && NoInjected(s.out) && !Via(ReadTag(m[3])) && CStr(m[2]) != []
    requires Routable(s.out.peers, INTERHUB_NAME)
    ensures var s', notice := ReqToInterhub(s, CStr(m[2])), Frame(Log(m));
            && logged.sent == s.out.sent + notice[..AcceptedFirst(s.out.script, 3)]
            && logged.script == AfterChain(s.out.script, 3) && s'.pub == s.pub
            && CutAfter(n, logged, [INTERHUB_NAME, MQ_REQ, CStr(m[2]), SetVia(ReadTag(m[3]))], m, 4, ms, (s'.inp, s'.out))
  {
    var tag, host := ReadTag(m[3]), CStr(m[2]);
    var lg := LogMessage(tag, host);
    HeadsFlow(tag, host);
    ChainIsExact(s.out, lg, 1);
    ChainSends(s.out, lg, 1);
    ChainInjectsNone(s.out.script, 3);
    logged := SendChain(s.out, lg, 1).0;
    assert Frame(Log(m)) == lg;
    n := ForwardedBehind(s, m, ms, logged);
  }

  lemma ForwardedBehind(s: RState, m: Message, ms: seq<Part>, logged: Out) returns (n: nat)
    requires |m| >= 5 && s.inp == Rest(m, 3, ms) && !Via(ReadTag(m[3])) && CStr(m[2]) != []
    requires logged == SendChain(s.out, LogMessage(ReadTag(m[3]), CStr(m[2])), 1).0
    requires NoInjected(logged) && Routable(logged.peers, INTERHUB_NAME)
    ensures var s' := ReqToInterhub(s, CStr(m[2]));
            CutAfter(n, logged, [INTERHUB_NAME, MQ_REQ, CStr(m[2]), SetVia(ReadTag(m[3]))], m, 4, ms, (s'.inp, s'.out))
  {
    var tag, host := ReadTag(m[3]), CStr(m[2]);
    var hs := [INTERHUB_NAME, MQ_REQ, host, SetVia(tag)];
    assert HeadOf(hs) == ForwardHead(tag, host);
    NextPart(m, 3, ms, s.inp);
    HeadAndRestIsExact(logged, hs, 1, m, 4, ms);
    var s' := ReqToInterhub(s, host);
    assert (s'.inp, s'.out) == HeadAndRest(Rest(m, 4, ms), logged, hs, 1);
    n :| CutAfter(n, logged, hs, m, 4, ms, (s'.inp, s'.out));
  }
}

/** What the relays guarantee about streams of messages. */
module RelayTheory {
  import opened Names
  import opened Wire
  import opened Sockets
  import opened Relay

  /** The unread rest of a message and what follows it. */
  function Rest(m: Message, k: nat, ms: seq<Part>): In
    requires k <= |m|
  {
    In(Frame(m[k..]) + ms, k < |m|)
  }

  lemma NextPart(m: Message, k: nat, ms: seq<Part>, i: In)
    requires k < |m| && i.queue == Frame(m[k..]) + ms
    ensures i.queue[0] == Part(m[k], k < |m| - 1) && Next(i) == Rest(m, k + 1, ms)
  {
  }

  /** From part k on, n parts were moved with their more flags.  A stopped
      relay has read through the part it could not send, and that part is what
      `svc_host` holds if and only if the peer was unreachable. */
  predicate MovedExactly(m: Message, k: nat, n: nat, ms: seq<Part>, o: Out, host: Bytes, r: Relayed)
  {
    && k + n <= |m|
    && r.out.sent == o.sent + Frame(m)[k..k + n] && r.out.peers == o.peers
    && (r.ok <==> k + n == |m|)
    && (r.ok ==> r.inp == Rest(m, |m|, ms) && r.host == host)
    && (!r.ok ==> r.inp == Rest(m, k + n + 1, ms) && r.err in [Unroutable, Failed])
    && (!r.ok ==> r.host == if r.err == Unroutable then CStr(m[k + n]) else host)
  }

  lemma NothingMoved(m: Message, k: nat, ms: seq<Part>, o: Out, o': Out, host: Bytes, err: Outcome)
    requires k < |m| && o'.sent == o.sent && o'.peers == o.peers && err in [Unroutable, Failed]
    ensures MovedExactly(m, k, 0, ms, o, host, Relayed(Rest(m, k + 1, ms), o', false, err, if err == Unroutable then CStr(m[k]) else host))
  {
  }

  lemma LastMoved(m: Message, k: nat, ms: seq<Part>, o: Out, o': Out, host: Bytes)
    requires k + 1 == |m| && o'.sent == o.sent + [Part(m[k], false)] && o'.peers == o.peers
    ensures MovedExactly(m, k, 1, ms, o, host, Relayed(Rest(m, |m|, ms), o', true, Sent, host))
  {
  }

  /** `relay_snd_more` entered at part k of a message, under any outcomes of the sends. */
  lemma RelayIsExact(m: Message, k: nat, ms: seq<Part>, i: In, o: Out, host: Bytes) returns (n: nat)
    requires k < |m| && i.queue == Frame(m[k..]) + ms
    ensures MovedExactly(m, k, n, ms, o, host, RelaySndMore(i, o, host))
  {
    RelayEnds(m, k, ms, i, o, host, RelaySndMore(i, o, host));
    n :| MovedExactly(m, k, n, ms, o, host, RelaySndMore(i, o, host));
  }

  ghost predicate MovedSome(m: Message, k: nat, ms: seq<Part>, o: Out, host: Bytes, r: Relayed)
  {
    exists n: nat :: MovedExactly(m, k, n, ms, o, host, r)
  }

  lemma {:induction false} RelayEnds(m: Message, k: nat, ms: seq<Part>, i: In, o: Out, host: Bytes, r: Relayed)
    requires k < |m| && i.queue == Frame(m[k..]) + ms && r == RelaySndMore(i, o, host)
    ensures MovedSome(m, k, ms, o, host, r)
    decreases |m| - k
  {
    NextPart(m, k, ms, i);
    var o', res := RelayFrom(m, k, ms, i, o, host, r);
    if res != Sent {
      NothingMoved(m, k, ms, o, o', host, res);
    } else if k + 1 == |m| {
      LastMoved(m, k, ms, o, o', host);
    } else {
      RelayEnds(m, k + 1, ms, Next(i), o', host, r);
      var n: nat :| MovedExactly(m, k + 1, n, ms, o', host, r);
      OneMoreMoved(m, k, n, ms, o, o', host, r);
    }
  }

  /** One part on. */
  lemma RelayFrom(m: Message, k: nat, ms: seq<Part>, i: In, o: Out, host: Bytes, r: Relayed) returns (o': Out, res: Outcome)
    requires k < |m| && i.queue == Frame(m[k..]) + ms && r == RelaySndMore(i, o, host)
    ensures o'.peers == o.peers && res != Interrupted
    ensures o'.sent == if res == Sent then o.sent + [Part(m[k], k < |m| - 1)] else o.sent
    ensures r == if res != Sent then Relayed(Rest(m, k + 1, ms), o', false, res, if res == Unroutable then CStr(m[k]) else host)
                 else if k + 1 == |m| then Relayed(Rest(m, k + 1, ms), o', true, Sent, host)
                 else RelaySndMore(Rest(m, k + 1, ms), o', host)
  {
    NextPart(m, k, ms, i);
    var t := Retry(o, m[k], k < |m| - 1);
    o', res := t.0, t.1;
  }

  lemma OneMoreMoved(m: Message, k: nat, n: nat, ms: seq<Part>, o: Out, o': Out, host: Bytes, r: Relayed)
    requires k + 1 < |m| && MovedExactly(m, k + 1, n, ms, o', host, r)
    requires o'.sent == o.sent + [Part(m[k], true)] && o'.peers == o.peers
    ensures MovedExactly(m, k, n + 1, ms, o, host, r)
  {
  }

  /** A script without its EINTR results. */
  function NoInterrupts(s: seq<Outcome>): seq<Outcome>
  {
    if s == [] then [] else (if s[0] == Interrupted then [] else [s[0]]) + NoInterrupts(s[1..])
  }

  function Calm(o: Out): Out
  {
    o.(script := NoInterrupts(o.script))
  }

  lemma {:induction false} RetryIgnoresInterrupts(o: Out, data: Bytes, more: bool)
    ensures Retry(Calm(o), data, more) == (Calm(Retry(o, data, more).0), Retry(o, data, more).1)
    decreases |o.script|
  {
    if Verdict(o, data) == Interrupted {
      assert NoInterrupts(o.script) == NoInterrupts(o.script[1..]);
      assert Calm(Put(o, data, more)) == Calm(o);
      RetryIgnoresInterrupts(Put(o, data, more), data, more);
    } else if o.script != [] {
      assert NoInterrupts(o.script)[1..] == NoInterrupts(o.script[1..]);
    }
  }

  /** EINTR neither duplicates nor skips a part: the call ends as if no send had been interrupted. */
  lemma {:induction false} InterruptsAreInvisible(i: In, o: Out, host: Bytes)
    ensures var r := RelaySndMore(i, o, host); RelaySndMore(i, Calm(o), host) == r.(out := Calm(r.out))
    decreases |i.queue|
  {
    if i.queue != [] {
      var part := i.queue[0];
      RetryIgnoresInterrupts(o, part.data, part.more);
      InterruptsAreInvisible(Next(i), Retry(o, part.data, part.more).0, host);
    }
  }

  /** Draining after part k of a message reaches its end and nothing more. */
  lemma {:induction false} DrainReachesBoundary(m: Message, k: nat, ms: seq<Part>)
    requires k <= |m|
    ensures Drain(Rest(m, k, ms)) == In(ms, false)
    decreases |m| - k
  {
    if k < |m| {
      NextPart(m, k, ms, Rest(m, k, ms));
      DrainReachesBoundary(m, k + 1, ms);
    } else {
      assert m[k..] == [] && Frame(m[k..]) + ms == ms;
    }
  }

  /** Whatever happened to the sends, relay and drain leave the receiver at the next message. */
  lemma RelayThenDrain(m: Message, k: nat, ms: seq<Part>, i: In, o: Out, host: Bytes)
    requires k < |m| && i.queue == Frame(m[k..]) + ms
    ensures Drain(RelaySndMore(i, o, host).inp) == In(ms, false)
  {
    var n := RelayIsExact(m, k, ms, i, o, host);
    DrainReachesBoundary(m, if k + n == |m| then |m| else k + n + 1, ms);
  }

  // ----- Streams through a slot ---------------------------------------------

  /** Every send succeeds. */
  predicate Reliable(o: Out)
  {
    o.peers == None && forall k :: 0 <= k < |o.script| ==> o.script[k] == Sent
  }

  /** Callbacks run one after another, each after new parts arrived. */
  function Callbacks(i: In, o: Out, arrivals: seq<seq<Part>>): (In, Out)
    decreases |arrivals|
  {
    if arrivals == [] then (i, o)
    else
      var (i', o') := Batch(i.(queue := i.queue + arrivals[0]), o, ROUNDS);
      Callbacks(i', o', arrivals[1..])
  }

  function Concat(ss: seq<seq<Part>>): seq<Part>
  {
    if ss == [] then [] else ss[0] + Concat(ss[1..])
  }

  lemma ReliablePut(i: In, o: Out)
    requires Reliable(o) && i.queue != []
    ensures var o' := Put(o, i.queue[0].data, i.queue[0].more);
            Reliable(o') && o'.sent == o.sent + [i.queue[0]] && o'.sent + Next(i).queue == o.sent + i.queue
  {
  }

  /** The send that meets entry k of a script is accepted; past its end all are. */
  predicate AcceptsAt(script: seq<Outcome>, k: nat)
  {
    k >= |script| || script[k] == Sent
  }

  /** The positions, among n parts each sent once, of those that are accepted. */
  function AcceptedPositions(script: seq<Outcome>, n: nat): (ks: seq<nat>)
    ensures forall a :: 0 <= a < |ks| ==> ks[a] < n && AcceptsAt(script, ks[a])
    ensures forall a, b :: 0 <= a < b < |ks| ==> ks[a] < ks[b]
    ensures forall k: nat :: k < n && AcceptsAt(script, k) ==> k in ks
  {
    if n == 0 then []
    else if AcceptsAt(script, n - 1) then AcceptedPositions(script, n - 1) + [n - 1]
    else AcceptedPositions(script, n - 1)
  }

  function PartsAt(ps: seq<Part>, ks: seq<nat>): seq<Part>
    requires forall a :: 0 <= a < |ks| ==> ks[a] < |ps|
  {
    seq(|ks|, a requires 0 <= a < |ks| => ps[ks[a]])
  }

  function Least(a: nat, b: nat): nat
  {
    if a < b then a else b
  }

  lemma {:induction false} BatchLast(i: In, o: Out, n: nat)
    requires n < |i.queue|
    ensures var (i', o') := Batch(i, o, n);
            i'.queue == i.queue[n..] && Batch(i, o, n + 1) == (Next(i'), Put(o', i.queue[n].data, i.queue[n].more))
    decreases n
  {
    if n > 0 { BatchLast(Next(i), Put(o, i.queue[0].data, i.queue[0].more), n - 1); }
  }

  lemma {:induction false} BatchStops(i: In, o: Out, n: nat)
    requires n >= |i.queue|
    ensures Batch(i, o, n) == Batch(i, o, |i.queue|)
    decreases n
  {
    if i.queue != [] { BatchStops(Next(i), Put(o, i.queue[0].data, i.queue[0].more), n - 1); }
  }

  /** What a callback of r rounds that all find a part leaves behind. */
  predicate ReadAndSent(i: In, o: Out, r: nat, after: (In, Out))
    requires r <= |i.queue|
  {
    && after.0.queue == i.queue[r..] && after.0.more == (if r == 0 then i.more else i.queue[r - 1].more)
    && after.1.sent == o.sent + PartsAt(i.queue, AcceptedPositions(o.script, r))
    && after.1.script == o.script[Least(r, |o.script|)..] && after.1.peers == None
  }

  lemma NothingSent(i: In, o: Out)
    requires o.peers == None
    ensures ReadAndSent(i, o, 0, (i, o))
  {
    assert PartsAt(i.queue, []) == [] && o.sent + [] == o.sent;
  }

  lemma PositionsStep(script: seq<Outcome>, ps: seq<Part>, r: nat)
    requires r < |ps|
    ensures PartsAt(ps, AcceptedPositions(script, r + 1)) ==
            PartsAt(ps, AcceptedPositions(script, r)) + if AcceptsAt(script, r) then [ps[r]] else []
  {
    var ks := AcceptedPositions(script, r);
    if AcceptsAt(script, r) { assert PartsAt(ps, ks + [r]) == PartsAt(ps, ks) + [ps[r]]; }
  }

  /** The send that meets entry r of the script. */
  lemma EntryDecides(script: seq<Outcome>, r: nat, o: Out, part: Part)
    requires o.peers == None && o.script == script[Least(r, |script|)..]
    ensures var o' := Put(o, part.data, part.more);
            && o'.sent == o.sent + (if AcceptsAt(script, r) then [part] else [])
            && o'.script == script[Least(r + 1, |script|)..] && o'.peers == None
  {
    assert o.sent + [] == o.sent;
  }

  lemma OneMoreSent(i: In, o: Out, r: nat, before: (In, Out), after: (In, Out))
    requires r < |i.queue| && ReadAndSent(i, o, r, before)
    requires after == (Next(before.0), Put(before.1, i.queue[r].data, i.queue[r].more))
    ensures ReadAndSent(i, o, r + 1, after)
  {
    EntryDecides(o.script, r, before.1, i.queue[r]);
    PositionsStep(o.script, i.queue, r);
    Assoc(o.sent, PartsAt(i.queue, AcceptedPositions(o.script, r)), if AcceptsAt(o.script, r) then [i.queue[r]] else []);
  }

  lemma {:induction false} BatchReads(i: In, o: Out, r: nat, after: (In, Out))
    requires o.peers == None && r <= |i.queue| && after == Batch(i, o, r)
    ensures ReadAndSent(i, o, r, after)
    decreases r
  {
    if r == 0 {
      NothingSent(i, o);
    } else {
      BatchReads(i, o, r - 1, Batch(i, o, r - 1));
      BatchNext(i, o, r - 1, Batch(i, o, r - 1), after);
    }
  }

  lemma BatchNext(i: In, o: Out, r: nat, before: (In, Out), after: (In, Out))
    requires r < |i.queue| && before == Batch(i, o, r) && after == Batch(i, o, r + 1) && ReadAndSent(i, o, r, before)
    ensures ReadAndSent(i, o, r + 1, after)
  {
    BatchLast(i, o, r);
    OneMoreSent(i, o, r, before, after);
  }

  /** A callback of n rounds, whatever the sends return, EINTR included: it reads
      min(n, |queue|) parts, and what it sends is, in order and with their more
      flags, those of them whose own send was accepted, each once. */
  lemma BatchIsExact(i: In, o: Out, n: nat)
    requires o.peers == None
    ensures var r := Least(n, |i.queue|);
            var (i', o') := Batch(i, o, n);
            && i'.queue == i.queue[r..] && |i'.queue| == |i.queue| - r
            && o'.sent == o.sent + PartsAt(i.queue, AcceptedPositions(o.script, r))
            && o'.script == o.script[Least(r, |o.script|)..]
  {
    if n >= |i.queue| { BatchStops(i, o, n); }
    BatchReads(i, o, Least(n, |i.queue|), Batch(i, o, n));
  }

  lemma {:induction false} BatchKeepsStream(i: In, o: Out, n: nat)
    requires Reliable(o)
    ensures var (i', o') := Batch(i, o, n);
            && o'.sent + i'.queue == o.sent + i.queue && o.sent <= o'.sent && Reliable(o')
            && |i'.queue| == if n < |i.queue| then |i.queue| - n else 0
    decreases n
  {
    if n > 0 && i.queue != [] {
      ReliablePut(i, o);
      BatchKeepsStream(Next(i), Put(o, i.queue[0].data, i.queue[0].more), n - 1);
    }
  }

  /** However messages arrive and wherever the batches cut them, what was sent
      is a prefix of what came in, part for part, and the rest is still queued. */
  lemma {:induction false} BatchesKeepStream(i: In, o: Out, arrivals: seq<seq<Part>>)
    requires Reliable(o)
    ensures var (i', o') := Callbacks(i, o, arrivals);
            o'.sent + i'.queue == o.sent + i.queue + Concat(arrivals) && o.sent <= o'.sent
    decreases |arrivals|
  {
    if arrivals != [] {
      var i1 := i.(queue := i.queue + arrivals[0]);
      var (i2, o2) := Batch(i1, o, ROUNDS);
      BatchKeepsStream(i1, o, ROUNDS);
      BatchesKeepStream(i2, o2, arrivals[1..]);
      Assoc(o.sent, i.queue, arrivals[0]);
      Assoc(o.sent + i.queue, arrivals[0], Concat(arrivals[1..]));
    }
  }

  function Tails(ms: seq<Message>): (r: seq<Message>)
    requires forall m :: m in ms ==> |m| > 0
    ensures |r| == |ms|
  {
    seq(|ms|, k requires 0 <= k < |ms| => ms[k][1..])
  }

  lemma {:induction false} TailsStep(ms: seq<Message>)
    requires ms != [] && forall m :: m in ms ==> |m| > 0
    ensures Stream(Tails(ms)) == Frame(ms[0][1..]) + Stream(Tails(ms[1..]))
  {
    assert Tails(ms)[1..] == Tails(ms[1..]);
  }

  /** What k stripped messages look like on the way out when the last one was cut after j parts. */
  function StripOut(ms: seq<Message>, k: nat, j: nat): seq<Part>
    requires k <= |ms| && (forall m :: m in ms ==> |m| > 0) && (k > 0 ==> j < |ms[k - 1]|)
  {
    if k == 0 then [] else Stream(Tails(ms[..k - 1])) + Frame(ms[k - 1][1..])[..j]
  }

  lemma StripOutFirst(ms: seq<Message>)
    requires ms != [] && forall m :: m in ms ==> |m| > 0
    ensures StripOut(ms, 1, |ms[0]| - 1) == Frame(ms[0][1..])
  {
  }

  lemma StripOutStep(ms: seq<Message>, k: nat, j: nat)
    requires ms != [] && k <= |ms[1..]| && (forall m :: m in ms ==> |m| > 0) && (k > 0 ==> j < |ms[1..][k - 1]|)
    ensures Frame(ms[0][1..]) + StripOut(ms[1..], k, j) == StripOut(ms, k + 1, if k == 0 then |ms[0]| - 1 else j)
  {
    if k == 0 {
      StripOutFirst(ms);
    } else {
      TailsStep(ms[..k]);
      assert ms[..k][1..] == ms[1..][..k - 1] && ms[1..][k - 1] == ms[k];
      Assoc(Frame(ms[0][1..]), Stream(Tails(ms[1..][..k - 1])), Frame(ms[k][1..])[..j]);
    }
  }

  /** k messages were consumed whole and their tails sent in order; only the
      last of them may be cut short, after j parts. */
  predicate Stripped(ms: seq<Message>, k: nat, j: nat, o: Out, after: (In, Out))
    requires forall m :: m in ms ==> |m| >= 2
  {
    && k <= |ms| && (k > 0 ==> j < |ms[k - 1]|)
    && after.0 == In(Stream(ms[k..]), false)
    && after.1.sent == o.sent + StripOut(ms, k, j)
  }

  lemma StrippedStep(ms: seq<Message>, k: nat, j: nat, o: Out, o': Out, after: (In, Out))
    requires ms != [] && (forall m :: m in ms ==> |m| >= 2) && Stripped(ms[1..], k, j, o', after)
    requires o'.sent == o.sent + Frame(ms[0][1..])
    ensures Stripped(ms, k + 1, if k == 0 then |ms[0]| - 1 else j, o, after)
  {
    var j' := if k == 0 then |ms[0]| - 1 else j;
    assert k > 0 ==> ms[1..][k - 1] == ms[k];
    assert after.0.queue == Stream(ms[k + 1..]) by { assert ms[1..][k..] == ms[k + 1..]; }
    assert after.1.sent == o.sent + StripOut(ms, k + 1, j') by {
      StripOutStep(ms, k, j);
      Assoc(o.sent, Frame(ms[0][1..]), StripOut(ms[1..], k, j));
    }
  }

  lemma StrippedCut(ms: seq<Message>, j: nat, o: Out, after: (In, Out))
    requires ms != [] && (forall m :: m in ms ==> |m| >= 2) && j < |ms[0]|
    requires after.0 == In(Stream(ms[1..]), false) && after.1.sent == o.sent + Frame(ms[0][1..])[..j]
    ensures Stripped(ms, 1, j, o, after)
  {
  }

  lemma StrippedNone(ms: seq<Message>, i: In, o: Out)
    requires i == In(Stream(ms), false) && forall m :: m in ms ==> |m| >= 2
    ensures Stripped(ms, 0, 0, o, (i, o))
  {
  }

  predicate StripsAll(ms: seq<Message>, k: nat, j: nat, n: nat)
  {
    k == (if n < |ms| then n else |ms|) && (k > 0 ==> k <= |ms| && j == |ms[k - 1]| - 1)
  }

  /** What a round of the relay makes of one message: its tail is sent up to
      part j, and the receiver stands behind it. */
  predicate StrippedFirst(m: Message, rest: seq<Part>, o: Out, j: nat, t: (bool, In, Out))
    requires |m| >= 2
  {
    && j <= |m| - 1 && t.2.sent == o.sent + Frame(m[1..])[..j]
    && (t.0 <==> j == |m| - 1) && t.1 == In(rest, false)
    && (Reliable(o) ==> t.0 && Reliable(t.2))
  }

  ghost predicate StripsOne(m: Message, rest: seq<Part>, o: Out, t: (bool, In, Out))
    requires |m| >= 2
  {
    exists j: nat :: StrippedFirst(m, rest, o, j, t)
  }

  lemma StripFirst(m: Message, rest: seq<Part>, i: In, o: Out)
    requires |m| >= 2 && i == In(Frame(m) + rest, false)
    ensures StripsOne(m, rest, o, StripRound(i, o))
  {
    assert m[0..] == m;
    NextPart(m, 0, rest, i);
    var j := RelayIsExact(m, 1, rest, Next(i), o, "");
    FrameTail(m);
    assert Frame(m)[1..1 + j] == Frame(m[1..])[..j];
    DrainReachesBoundary(m, if j == |m| - 1 then |m| else j + 2, rest);
    assert Frame(m[|m|..]) + rest == rest;
    if Reliable(o) { ReliableRelay(m, 1, rest, Next(i), o, ""); }
    assert StrippedFirst(m, rest, o, j, StripRound(i, o));
  }

  type StripStep = (In, Out) -> (bool, In, Out)

  /** Rounds of any step function, as in Relay.Strip. */
  function StripBy(step: StripStep, i: In, o: Out, n: nat): (In, Out)
    decreases n
  {
    if n == 0 then (i, o)
    else
      var t := step(i, o);
      if t.0 then StripBy(step, t.1, t.2, n - 1) else (t.1, t.2)
  }

  lemma {:induction false} StripByRounds(step: StripStep, i: In, o: Out, n: nat)
    requires forall a, b :: step(a, b) == StripRound(a, b)
    ensures Strip(i, o, n) == StripBy(step, i, o, n)
    decreases n
  {
    if n > 0 {
      var t := step(i, o);
      StripFrom(i, o, n, t);
      if t.0 { StripByRounds(step, t.1, t.2, n - 1); }
    }
  }

  lemma StripFrom(i: In, o: Out, n: nat, t: (bool, In, Out))
    requires n > 0 && t == StripRound(i, o)
    ensures Strip(i, o, n) == if t.0 then Strip(t.1, t.2, n - 1) else (t.1, t.2)
  {
  }

  /** The step takes one message, or stops when there is none. */
  ghost predicate TakesMessages(step: StripStep)
  {
    && (forall o :: step(In([], false), o) == (false, In([], false), o))
    && forall m: Message, rest, o :: |m| >= 2 ==> StripsOne(m, rest, o, step(In(Frame(m) + rest, false), o))
  }

  lemma {:induction false} StripEnds(step: StripStep, ms: seq<Message>, o: Out, n: nat) returns (k: nat, j: nat)
    requires TakesMessages(step) && forall m :: m in ms ==> |m| >= 2
    ensures Stripped(ms, k, j, o, StripBy(step, In(Stream(ms), false), o, n))
    ensures Reliable(o) ==> StripsAll(ms, k, j, n)
    decreases n
  {
    if n == 0 || ms == [] {
      k, j := 0, 0;
      StrippedNone(ms, In(Stream(ms), false), o);
    } else {
      var rest := ms[1..];
      FirstAndRest(ms);
      var t := step(In(Stream(ms), false), o);
      assert StripsOne(ms[0], Stream(rest), o, t);
      var sent: nat :| StrippedFirst(ms[0], Stream(rest), o, sent, t);
      if t.0 {
        var k', j' := StripEnds(step, rest, t.2, n - 1);
        k, j := StripOn(ms, rest, o, t, sent, k', j', n - 1, StripBy(step, t.1, t.2, n - 1));
      } else {
        k, j := 1, sent;
        StrippedCut(ms, sent, o, (t.1, t.2));
      }
    }
  }

  lemma FirstAndRest(ms: seq<Message>)
    requires ms != [] && forall m :: m in ms ==> |m| >= 2
    ensures |ms[0]| >= 2 && forall m :: m in ms[1..] ==> |m| >= 2
    ensures Stream(ms) == Frame(ms[0]) + Stream(ms[1..])
  {
  }

  /** A message stripped whole in front of others. */
  lemma StripOn(ms: seq<Message>, rest: seq<Message>, o: Out, t: (bool, In, Out), sent: nat, k': nat, j': nat, n: nat, after: (In, Out))
    returns (k: nat, j: nat)
    requires ms != [] && rest == ms[1..] && (forall m :: m in ms ==> |m| >= 2) && forall m :: m in rest ==> |m| >= 2
    requires |ms[0]| >= 2 && t.0 && StrippedFirst(ms[0], Stream(rest), o, sent, t)
    requires Stripped(rest, k', j', t.2, after)
    requires Reliable(t.2) ==> StripsAll(rest, k', j', n)
    ensures Stripped(ms, k, j, o, after)
    ensures Reliable(o) ==> StripsAll(ms, k, j, n + 1)
  {
    k, j := k' + 1, if k' == 0 then |ms[0]| - 1 else j';
    assert Frame(ms[0][1..])[..sent] == Frame(ms[0][1..]);
    StrippedStep(ms, k', j', o, t.2, after);
    StripsOneMore(ms, rest, k', j', n);
  }

  lemma StripsOneMore(ms: seq<Message>, rest: seq<Message>, k: nat, j: nat, n: nat)
    requires ms != [] && rest == ms[1..] && |ms[0]| >= 2
    ensures StripsAll(rest, k, j, n) ==> StripsAll(ms, k + 1, if k == 0 then |ms[0]| - 1 else j, n + 1)
  {
    assert 0 < k <= |rest| ==> rest[k - 1] == ms[k];
  }

  /** `mq_relay_callback_sub_to_pub` on whole messages, whatever the sends
      return.  If every send succeeds no message is cut, and the callback stops
      only when out of messages or rounds. */
  lemma StripIsExact(ms: seq<Message>, i: In, o: Out, n: nat) returns (k: nat, j: nat)
    requires i == In(Stream(ms), false) && forall m :: m in ms ==> |m| >= 2
    ensures Stripped(ms, k, j, o, Strip(i, o, n))
    ensures Reliable(o) ==> StripsAll(ms, k, j, n)
  {
    var step := (a, b) => StripRound(a, b);
    forall m: Message, rest, b | |m| >= 2 ensures StripsOne(m, rest, b, step(In(Frame(m) + rest, false), b)) {
      StripFirst(m, rest, In(Frame(m) + rest, false), b);
    }
    StripByRounds(step, i, o, n);
    k, j := StripEnds(step, ms, o, n);
  }

  /** With reliable sends a relay moves the whole rest of the message. */
  lemma {:induction false} ReliableRelay(m: Message, k: nat, ms: seq<Part>, i: In, o: Out, host: Bytes)
    requires k < |m| && i.queue == Frame(m[k..]) + ms && Reliable(o)
    ensures var r := RelaySndMore(i, o, host); r.ok && Reliable(r.out)
    decreases |m| - k
  {
    NextPart(m, k, ms, i);
    if k + 1 < |m| { ReliableRelay(m, k + 1, ms, Next(i), Put(o, m[k], true), host); }
  }
}

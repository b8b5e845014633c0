/** What a hub thread makes of whole queues: its type and topic buffers are reused
    from message to message. */
module HubQueues {
  import opened Names
  import opened Wire
  import opened Sockets
  import opened RelayTheory
  import opened RouterTheory
  import opened RouterEmission
  import opened Forest
  import opened Directory
  import opened HubThread
  import opened HubEmission

  // ----- The buffer of the loop in interhub_callback ------------------------

  /** A round, if there is anything to read. */
  function UpOn(brokers: seq<Node>, me: Bytes, s: Uplink): Uplink
    requires FitsId(me)
  {
    if s.inp.queue == [] then s else UpRound(brokers, me, s)
  }

  function HeadRead(s: Uplink): seq<Bytes>
  {
    if s.inp.queue == [] then [] else [s.inp.queue[0].data]
  }

  /** The state after k rounds, or after as many as there are. */
  function UpSteps(brokers: seq<Node>, me: Bytes, s: Uplink, k: nat): Uplink
    requires FitsId(me)
  {
    if k == 0 then s else UpOn(brokers, me, UpSteps(brokers, me, s, k - 1))
  }

  /** The parts these rounds have read as types. */
  function TypesRead(brokers: seq<Node>, me: Bytes, s: Uplink, k: nat): seq<Bytes>
    requires FitsId(me)
  {
    if k == 0 then [] else TypesRead(brokers, me, s, k - 1) + HeadRead(UpSteps(brokers, me, s, k - 1))
  }

  lemma OnBuffer(brokers: seq<Node>, me: Bytes, s: Uplink, read: seq<Bytes>)
    requires FitsId(me) && s.buf == BufferAfter(TYPE_SIZE, read)
    ensures UpOn(brokers, me, s).buf == BufferAfter(TYPE_SIZE, read + HeadRead(s))
  {
    if s.inp.queue == [] {
      assert read + [] == read;
    } else {
      NextRead(Zeros(TYPE_SIZE), read, s.inp.queue[0].data);
    }
  }

  /** Whatever is queued and whatever the sends return: in every round the
      buffer holds what the parts read as types so far have left in it. */
  lemma {:induction false} UpBuffer(brokers: seq<Node>, me: Bytes, s: Uplink, k: nat)
    requires FitsId(me) && s.buf == Zeros(TYPE_SIZE)
    ensures UpSteps(brokers, me, s, k).buf == BufferAfter(TYPE_SIZE, TypesRead(brokers, me, s, k))
    decreases k
  {
    if k > 0 {
      UpBuffer(brokers, me, s, k - 1);
      OnBuffer(brokers, me, UpSteps(brokers, me, s, k - 1), TypesRead(brokers, me, s, k - 1));
    }
  }

  lemma NextRead(buf: Bytes, read: seq<Bytes>, data: Bytes)
    ensures Refill(buf, read + [data]) == Fill(Refill(buf, read), data)
  {
    assert (read + [data])[..|read|] == read;
  }

  /** The callback is these rounds, continued. */
  lemma {:induction false} CallbackIsSteps(brokers: seq<Node>, me: Bytes, s: Uplink, k: nat)
    requires FitsId(me)
    ensures UpRounds(brokers, me, UpSteps(brokers, me, s, k)) == UpRounds(brokers, me, s)
    decreases k
  {
    if k > 0 {
      CallbackIsSteps(brokers, me, s, k - 1);
      RoundsOn(brokers, me, UpSteps(brokers, me, s, k - 1));
    }
  }

  lemma RoundsOn(brokers: seq<Node>, me: Bytes, s: Uplink)
    requires FitsId(me)
    ensures UpRounds(brokers, me, s) == UpRounds(brokers, me, UpOn(brokers, me, s))
  {
  }

  /** So a type is read right in round k exactly when the last longer part read
      before it in this call left a NUL at its end. */
  lemma RoundReadsRight(brokers: seq<Node>, me: Bytes, s: Uplink, k: nat, ty: Bytes)
    requires FitsId(me) && s.buf == Zeros(TYPE_SIZE) && NulFree(ty) && |ty| < TYPE_SIZE
    ensures CStr(Fill(UpSteps(brokers, me, s, k).buf, ty)) == ty <==> LeftAt(NUL, TypesRead(brokers, me, s, k), |ty|) == NUL
  {
    UpBuffer(brokers, me, s, k);
    ReadAsReceived(TYPE_SIZE, TypesRead(brokers, me, s, k), ty);
  }

  // ----- Queues of requests, responses and notices --------------------------

  /** A request names a service that another broker offers. */
  predicate Offered(brokers: seq<Node>, me: Bytes, m: Message)
    requires UpWellFormed(m)
  {
    m[0] == MQ_REQ ==> FindSvc(brokers, me, m[1]).Some?
  }

  predicate UpQueue(ms: seq<Message>)
  {
    forall k :: 0 <= k < |ms| ==> UpWellFormed(ms[k])
  }

  /** A callback standing in front of a queue, its sends about to succeed. */
  predicate UpFaces(s: Uplink, ms: seq<Message>)
  {
    |s.buf| == TYPE_SIZE && s.inp == In(Stream(ms), false) && Clear(s.pub) && s.pub.peers == None
  }

  lemma RightNext(brokers: seq<Node>, me: Bytes, s: Uplink, m: Message, ms: seq<Message>)
    requires FitsId(me) && UpWellFormed(m) && Offered(brokers, me, m) && UpFaces(s, [m] + ms) && CStr(Fill(s.buf, m[0])) == m[0]
    ensures UpOn(brokers, me, s) ==
            Uplink(Fill(s.buf, m[0]), In(Stream(ms), false), s.pub.(sent := s.pub.sent + Stream(Upward(brokers, me, m))))
  {
    assert ([m] + ms)[1..] == ms;
    UpHead(s.inp, m, Stream(ms));
    UpEmits(brokers, me, s, m, Stream(ms));
    AtEnd(m, Stream(ms));
  }

  /** No part behind the type is itself taken for a type. */
  predicate Typeless(m: Message)
  {
    forall k :: 1 <= k < |m| ==> NoType(m[k])
  }

  /** What is published for a queue, given the buffer: a message whose type is
      misread is lost, and so is a request nobody offers; both leave their parts
      in the buffer. */
  function Found(brokers: seq<Node>, me: Bytes, buf: Bytes, ms: seq<Message>): seq<Message>
    requires UpQueue(ms) && FitsId(me) && |buf| == TYPE_SIZE
    decreases |ms|
  {
    if ms == [] then []
    else
      var m, rest := ms[0], ms[1..];
      TypeSizes();
      if buf[|m[0]|] != NUL then Found(brokers, me, Refill(buf, m), rest)
      else if Offered(brokers, me, m) then Upward(brokers, me, m) + Found(brokers, me, Fill(buf, m[0]), rest)
      else Found(brokers, me, Refill(Fill(buf, m[0]), m[2..]), rest)
  }

  /** A type behind which no NUL stands is no type any more. */
  lemma Misread(buf: Bytes, ty: Bytes)
    requires |buf| == TYPE_SIZE && ty in UP_TYPES && |ty| < TYPE_SIZE
    ensures if buf[|ty|] == NUL then CStr(Fill(buf, ty)) == ty else CStr(Fill(buf, ty)) !in UP_TYPES
  {
    ReusedBuffer(buf, ty);
    ReadOver(buf, ty);
    TypeSizes();
    var c := CStr(buf[|ty|..]);
    if buf[|ty|] != NUL && ty + c in UP_TYPES {
      assert c != [];
      TypesStandAlone(ty, ty + c);
      assert false;
    }
  }

  lemma TypesStandAlone(a: Bytes, b: Bytes)
    requires a in UP_TYPES && b in UP_TYPES && a <= b
    ensures a == b
  {
    assert MQ_REQ[6] == 'q' && MQ_LOG[6] == 'g' && MQ_RES_INTERHUB[6] == 's';
  }

  lemma UnknownRound(brokers: seq<Node>, me: Bytes, s: Uplink)
    requires FitsId(me) && s.inp.queue != [] && CStr(Fill(s.buf, s.inp.queue[0].data)) !in UP_TYPES
    ensures UpOn(brokers, me, s) == Uplink(Fill(s.buf, s.inp.queue[0].data), Next(s.inp), s.pub)
  {
  }

  lemma MisreadRound(brokers: seq<Node>, me: Bytes, s: Uplink, m: Message, ms: seq<Part>)
    requires FitsId(me) && UpWellFormed(m) && |m[0]| < TYPE_SIZE == |s.buf| && s.buf[|m[0]|] != NUL
    requires s.inp == In(Frame(m) + ms, false)
    ensures UpRounds(brokers, me, s) == UpRounds(brokers, me, Uplink(Fill(s.buf, m[0]), Rest(m, 1, ms), s.pub))
  {
    UpHead(s.inp, m, ms);
    Misread(s.buf, m[0]);
    UnknownRound(brokers, me, s);
    RoundsOn(brokers, me, s);
  }

  lemma MisreadIsSkipped(brokers: seq<Node>, me: Bytes, s: Uplink, m: Message, ms: seq<Part>)
    requires FitsId(me) && UpWellFormed(m) && Typeless(m) && |m[0]| < TYPE_SIZE == |s.buf| && s.buf[|m[0]|] != NUL
    requires s.inp == In(Frame(m) + ms, false)
    ensures UpRounds(brokers, me, s) == UpRounds(brokers, me, Uplink(Refill(s.buf, m), In(ms, false), s.pub))
  {
    MisreadRound(brokers, me, s, m, ms);
    RestIsSkipped(brokers, me, s, m, ms);
  }

  lemma RestIsSkipped(brokers: seq<Node>, me: Bytes, s: Uplink, m: Message, ms: seq<Part>)
    requires FitsId(me) && m != [] && Typeless(m) && |s.buf| == TYPE_SIZE
    ensures UpRounds(brokers, me, Uplink(Fill(s.buf, m[0]), Rest(m, 1, ms), s.pub)) ==
            UpRounds(brokers, me, Uplink(Refill(s.buf, m), In(ms, false), s.pub))
  {
    UpSkipsLeftover(brokers, me, Uplink(Fill(s.buf, m[0]), Rest(m, 1, ms), s.pub), m, 1, ms);
    assert m == [m[0]] + m[1..];
    RefillFirst(s.buf, m[0], m[1..]);
  }

  lemma UnofferedIsSkipped(brokers: seq<Node>, me: Bytes, s: Uplink, m: Message, ms: seq<Part>)
    requires FitsId(me) && UpWellFormed(m) && Typeless(m) && |s.buf| == TYPE_SIZE && |m[0]| < TYPE_SIZE && s.buf[|m[0]|] == NUL
    requires !Offered(brokers, me, m) && s.inp == In(Frame(m) + ms, false) && Clear(s.pub) && s.pub.peers == None
    ensures UpRounds(brokers, me, s) ==
            UpRounds(brokers, me, Uplink(Refill(Fill(s.buf, m[0]), m[2..]), In(ms, false), s.pub))
  {
    Misread(s.buf, m[0]);
    UpEmits(brokers, me, s, m, ms);
    UpHead(s.inp, m, ms);
    assert s.pub.sent + Stream([]) == s.pub.sent;
    var s' := Uplink(Fill(s.buf, m[0]), Rest(m, 2, ms), s.pub);
    assert UpRound(brokers, me, s) == s';
    UpSkipsLeftover(brokers, me, s', m, 2, ms);
  }

  /** The state behind a message that was read right and published. */
  function Taken(brokers: seq<Node>, me: Bytes, s: Uplink, m: Message, ms: seq<Message>): Uplink
    requires UpWellFormed(m) && FitsId(me)
  {
    Uplink(Fill(s.buf, m[0]), In(Stream(ms), false), s.pub.(sent := s.pub.sent + Stream(Upward(brokers, me, m))))
  }

  lemma OfferedIsPublished(brokers: seq<Node>, me: Bytes, s: Uplink, m: Message, ms: seq<Message>)
    requires FitsId(me) && UpWellFormed(m) && |m[0]| < TYPE_SIZE == |s.buf| && s.buf[|m[0]|] == NUL
    requires Offered(brokers, me, m) && UpFaces(s, [m] + ms)
    ensures var s' := Taken(brokers, me, s, m, ms);
            UpFaces(s', ms) && UpOn(brokers, me, s) == s' && UpRounds(brokers, me, s) == UpRounds(brokers, me, s')
  {
    Misread(s.buf, m[0]);
    RightNext(brokers, me, s, m, ms);
    RoundsOn(brokers, me, s);
    StaysClear(s.pub, s.pub.(sent := s.pub.sent + Stream(Upward(brokers, me, m))), Upward(brokers, me, m));
  }

  /** What the callback is to come to on a queue. */
  ghost predicate Publishes(brokers: seq<Node>, me: Bytes, s: Uplink, out: seq<Message>)
    requires FitsId(me)
  {
    var after := UpRounds(brokers, me, s);
    after.inp == In([], false) && after.pub.sent == s.pub.sent + Stream(out)
  }

  lemma PublishesMore(brokers: seq<Node>, me: Bytes, s: Uplink, s': Uplink, a: seq<Message>, b: seq<Message>)
    requires FitsId(me) && UpRounds(brokers, me, s) == UpRounds(brokers, me, s')
    requires s'.pub.sent == s.pub.sent + Stream(a) && Publishes(brokers, me, s', b)
    ensures Publishes(brokers, me, s, a + b)
  {
    EmittedThen(s.pub.sent, a, b);
  }

  /** `interhub_callback` on any queue of requests, responses and notices,
      offered or not, in whatever order, when sends succeed. */
  lemma {:induction false} UpPublishes(brokers: seq<Node>, me: Bytes, s: Uplink, ms: seq<Message>)
    requires FitsId(me) && UpQueue(ms) && forall k :: 0 <= k < |ms| ==> Typeless(ms[k])
    requires UpFaces(s, ms)
    ensures Publishes(brokers, me, s, Found(brokers, me, s.buf, ms))
    decreases |ms|
  {
    if ms == [] {
      assert s.pub.sent + [] == s.pub.sent;
    } else {
      var m, rest := ms[0], ms[1..];
      assert ms == [m] + rest;
      TypeSizes();
      if s.buf[|m[0]|] != NUL {
        var s' := Uplink(Refill(s.buf, m), In(Stream(rest), false), s.pub);
        MisreadIsSkipped(brokers, me, s, m, Stream(rest));
        UpPublishes(brokers, me, s', rest);
      } else if Offered(brokers, me, m) {
        OfferedIsPublished(brokers, me, s, m, rest);
        var s' := Taken(brokers, me, s, m, rest);
        UpPublishes(brokers, me, s', rest);
        PublishesMore(brokers, me, s, s', Upward(brokers, me, m), Found(brokers, me, s'.buf, rest));
      } else {
        var s' := Uplink(Refill(Fill(s.buf, m[0]), m[2..]), In(Stream(rest), false), s.pub);
        UnofferedIsSkipped(brokers, me, s, m, Stream(rest));
        UpPublishes(brokers, me, s', rest);
      }
    }
  }

  /** Behind skipped parts a type is read right exactly when they left a NUL at its end. */
  lemma ReadAfterLeftover(buf: Bytes, left: seq<Bytes>, ty: Bytes)
    requires NulFree(ty) && |ty| < |buf|
    ensures CStr(Fill(Refill(buf, left), ty)) == ty <==> LeftAt(buf[|ty|], left, |ty|) == NUL
  {
    RefillLeaves(buf, left, |ty|);
    ReusedBuffer(Refill(buf, left), ty);
  }

  /** A request behind one that nobody offers is published exactly when the
      first one's tag and body left a NUL at the end of its type. */
  lemma RequestAfterUnoffered(brokers: seq<Node>, me: Bytes, s: Uplink, m: Message, m': Message)
    requires FitsId(me) && UpWellFormed(m) && UpWellFormed(m') && Typeless(m) && Typeless(m') && UpFaces(s, [m, m']) && s.buf == Zeros(TYPE_SIZE)
    requires m[0] == MQ_REQ && m'[0] == MQ_REQ && !Offered(brokers, me, m) && Offered(brokers, me, m')
    ensures Publishes(brokers, me, s, if LeftAt(NUL, m[2..], |MQ_REQ|) == NUL then Upward(brokers, me, m') else [])
  {
    UpPublishes(brokers, me, s, [m, m']);
    FoundAfterUnoffered(brokers, me, m, m');
  }

  /** A body of eight bytes or more spoils the type, unless its eighth byte is NUL. */
  lemma BodySpoilsType(m: Message)
    requires |m| >= 4 && |m[|m| - 1]| > |MQ_REQ|
    ensures LeftAt(NUL, m[2..], |MQ_REQ|) == m[|m| - 1][|MQ_REQ|]
  {
  }

  /** So behind a request that nobody offers an offered one is lost: nothing is published. */
  lemma OfferedRequestLost(brokers: seq<Node>, me: Bytes, s: Uplink, m: Message, m': Message)
    requires FitsId(me) && UpWellFormed(m) && UpWellFormed(m') && Typeless(m) && Typeless(m') && UpFaces(s, [m, m']) && s.buf == Zeros(TYPE_SIZE)
    requires m[0] == MQ_REQ && m'[0] == MQ_REQ && !Offered(brokers, me, m) && Offered(brokers, me, m')
    requires |m[|m| - 1]| > |MQ_REQ| && m[|m| - 1][|MQ_REQ|] != NUL
    ensures UpRounds(brokers, me, s).pub.sent == s.pub.sent
  {
    BodySpoilsType(m);
    RequestAfterUnoffered(brokers, me, s, m, m');
    assert s.pub.sent + Stream([]) == s.pub.sent;
  }

  lemma FoundAfterUnoffered(brokers: seq<Node>, me: Bytes, m: Message, m': Message)
    requires FitsId(me) && UpWellFormed(m) && UpWellFormed(m')
    requires m[0] == MQ_REQ && m'[0] == MQ_REQ && !Offered(brokers, me, m) && Offered(brokers, me, m')
    ensures Found(brokers, me, Zeros(TYPE_SIZE), [m, m']) == if LeftAt(NUL, m[2..], |MQ_REQ|) == NUL then Upward(brokers, me, m') else []
  {
    TypeSizes();
    var buf := Fill(Zeros(TYPE_SIZE), MQ_REQ);
    RefillLeaves(buf, m[2..], |MQ_REQ|);
    assert [m, m'][1..] == [m'];
    FoundLast(brokers, me, Refill(buf, m[2..]), m');
  }

  lemma FoundLast(brokers: seq<Node>, me: Bytes, buf: Bytes, m: Message)
    requires FitsId(me) && UpWellFormed(m) && Offered(brokers, me, m) && |buf| == TYPE_SIZE && |m[0]| < TYPE_SIZE
    ensures Found(brokers, me, buf, [m]) == if buf[|m[0]|] == NUL then Upward(brokers, me, m) else []
  {
    assert [m][1..] == [];
  }

  // ----- When all requests are offered --------------------------------------

  /** The rounds of `interhub_callback`. */
  function Rounding(brokers: seq<Node>, me: Bytes): Uplink -> Uplink
    requires FitsId(me)
  {
    s => UpOn(brokers, me, s)
  }

  /** Round by round, every message is met where it starts, and its type dispatched as received. */
  ghost predicate AllRight(round: Uplink -> Uplink, s: Uplink, ms: seq<Message>)
    requires UpQueue(ms)
    decreases |ms|
  {
    && s.inp == In(Stream(ms), false)
    && (ms == [] || (CStr(Fill(s.buf, ms[0][0])) == ms[0][0] && AllRight(round, round(s), ms[1..])))
  }

  predicate AllOffered(brokers: seq<Node>, me: Bytes, ms: seq<Message>)
    requires UpQueue(ms)
  {
    forall k :: 0 <= k < |ms| ==> Offered(brokers, me, ms[k])
  }

  /** What is to be published for the whole queue, in order. */
  function UpAll(brokers: seq<Node>, me: Bytes, ms: seq<Message>): seq<Message>
    requires UpQueue(ms) && FitsId(me)
  {
    if ms == [] then [] else Upward(brokers, me, ms[0]) + UpAll(brokers, me, ms[1..])
  }

  /** No request and no notice stands behind a response. */
  predicate ResponsesLast(ms: seq<Message>)
    requires UpQueue(ms)
  {
    forall i, j :: 0 <= i < j < |ms| && ms[i][0] == MQ_RES_INTERHUB ==> ms[j][0] == MQ_RES_INTERHUB
  }

  predicate OnlyResponses(ms: seq<Message>)
    requires UpQueue(ms)
  {
    forall j :: 0 <= j < |ms| ==> ms[j][0] == MQ_RES_INTERHUB
  }

  lemma ResponsesLastStep(ms: seq<Message>)
    requires ms != [] && UpQueue(ms)
    ensures ResponsesLast(ms) <==> if ms[0][0] == MQ_RES_INTERHUB then OnlyResponses(ms[1..]) else ResponsesLast(ms[1..])
    ensures OnlyResponses(ms) <==> ms[0][0] == MQ_RES_INTERHUB && OnlyResponses(ms[1..])
    ensures OnlyResponses(ms) ==> ResponsesLast(ms)
  {
    assert forall j :: 0 < j < |ms| ==> ms[j] == ms[1..][j - 1];
  }

  /** The buffer as types leave it: what can stand behind a short type only a response left there. */
  lemma TypeLeaves(buf: Bytes, ty: Bytes)
    requires |buf| == TYPE_SIZE && ty in UP_TYPES && buf[16] == NUL
    ensures var after := Fill(buf, ty);
            && after[16] == NUL
            && (ty == MQ_RES_INTERHUB ==> after[7] != NUL && buf[|ty|] == NUL)
            && (ty != MQ_RES_INTERHUB ==> after[7] == buf[7] && |ty| == 7)
  {
    TypeSizes();
    assert ty == MQ_RES_INTERHUB ==> Fill(buf, ty)[7] == MQ_RES_INTERHUB[7];
  }

  lemma OfferedRest(brokers: seq<Node>, me: Bytes, ms: seq<Message>)
    requires ms != [] && UpQueue(ms) && AllOffered(brokers, me, ms)
    ensures Offered(brokers, me, ms[0]) && AllOffered(brokers, me, ms[1..])
  {
  }

  /** The queue can be read right from this buffer on. */
  predicate Orderly(buf: Bytes, ms: seq<Message>)
    requires |buf| == TYPE_SIZE && UpQueue(ms)
  {
    if buf[7] == NUL then ResponsesLast(ms) else OnlyResponses(ms)
  }

  lemma OrderlyStep(buf: Bytes, ms: seq<Message>)
    requires |buf| == TYPE_SIZE && buf[16] == NUL && ms != [] && UpQueue(ms)
    ensures |ms[0][0]| < TYPE_SIZE && UpQueue(ms[1..]) && Fill(buf, ms[0][0])[16] == NUL
    ensures Orderly(buf, ms) <==> buf[|ms[0][0]|] == NUL && Orderly(Fill(buf, ms[0][0]), ms[1..])
  {
    TypeSizes();
    TypeLeaves(buf, ms[0][0]);
    ResponsesLastStep(ms);
  }

  /** What is published from an orderly queue. */
  lemma {:induction false} OrderlyIsPublished(brokers: seq<Node>, me: Bytes, s: Uplink, ms: seq<Message>)
    requires FitsId(me) && UpQueue(ms) && AllOffered(brokers, me, ms) && UpFaces(s, ms) && s.buf[16] == NUL && Orderly(s.buf, ms)
    ensures Publishes(brokers, me, s, UpAll(brokers, me, ms))
    decreases |ms|
  {
    if ms == [] {
      assert s.pub.sent + [] == s.pub.sent;
    } else {
      var s' := Taken(brokers, me, s, ms[0], ms[1..]);
      OfferedRest(brokers, me, ms);
      OrderlyStep(s.buf, ms);
      assert ms == [ms[0]] + ms[1..];
      OfferedIsPublished(brokers, me, s, ms[0], ms[1..]);
      OrderlyIsPublished(brokers, me, s', ms[1..]);
      PublishesMore(brokers, me, s, s', Upward(brokers, me, ms[0]), UpAll(brokers, me, ms[1..]));
    }
  }

  /** A round on an offered message whose type is read right takes it. */
  ghost predicate TakesRight(round: Uplink -> Uplink, brokers: seq<Node>, me: Bytes)
    requires FitsId(me)
  {
    forall s, m, ms {:trigger Taken(brokers, me, s, m, ms)} ::
      UpWellFormed(m) && Offered(brokers, me, m) && UpFaces(s, [m] + ms) && |m[0]| < TYPE_SIZE && s.buf[|m[0]|] == NUL ==>
      round(s) == Taken(brokers, me, s, m, ms) && UpFaces(Taken(brokers, me, s, m, ms), ms)
  }

  lemma {:induction false} RightIsOrderly(round: Uplink -> Uplink, brokers: seq<Node>, me: Bytes, s: Uplink, ms: seq<Message>)
    requires FitsId(me) && TakesRight(round, brokers, me)
    requires UpQueue(ms) && AllOffered(brokers, me, ms) && UpFaces(s, ms) && s.buf[16] == NUL
    ensures AllRight(round, s, ms) <==> Orderly(s.buf, ms)
    decreases |ms|
  {
    if ms != [] {
      var s' := Taken(brokers, me, s, ms[0], ms[1..]);
      OfferedRest(brokers, me, ms);
      OrderlyStep(s.buf, ms);
      ReadsOverType(s.buf, ms[0]);
      assert ms == [ms[0]] + ms[1..];
      if s.buf[|ms[0][0]|] == NUL { RightIsOrderly(round, brokers, me, s', ms[1..]); }
    }
  }

  lemma ReadsOverType(buf: Bytes, m: Message)
    requires |buf| == TYPE_SIZE && UpWellFormed(m)
    ensures |m[0]| < TYPE_SIZE && (CStr(Fill(buf, m[0])) == m[0] <==> buf[|m[0]|] == NUL)
  {
    TypeSizes();
    ReusedBuffer(buf, m[0]);
  }

  lemma RoundingTakesRight(brokers: seq<Node>, me: Bytes)
    requires FitsId(me)
    ensures TakesRight(Rounding(brokers, me), brokers, me)
  {
    forall s, m, ms | UpWellFormed(m) && Offered(brokers, me, m) && UpFaces(s, [m] + ms) && |m[0]| < TYPE_SIZE && s.buf[|m[0]|] == NUL
      ensures Rounding(brokers, me)(s) == Taken(brokers, me, s, m, ms) && UpFaces(Taken(brokers, me, s, m, ms), ms)
    {
      OfferedIsPublished(brokers, me, s, m, ms);
    }
  }

  /** When all requests are offered, `interhub_callback` dispatches every message
      of its queue as received if and only if no request and no notice stands
      behind a response; it then publishes all of them, in order. */
  lemma QueueIsReadRight(brokers: seq<Node>, me: Bytes, s: Uplink, ms: seq<Message>)
    requires FitsId(me) && UpQueue(ms) && AllOffered(brokers, me, ms) && UpFaces(s, ms) && s.buf == Zeros(TYPE_SIZE)
    ensures AllRight(Rounding(brokers, me), s, ms) <==> ResponsesLast(ms)
    ensures ResponsesLast(ms) ==> Publishes(brokers, me, s, UpAll(brokers, me, ms))
  {
    RoundingTakesRight(brokers, me);
    RightIsOrderly(Rounding(brokers, me), brokers, me, s, ms);
    if ResponsesLast(ms) { OrderlyIsPublished(brokers, me, s, ms); }
  }
}

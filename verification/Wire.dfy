/** Bytes on the wire: C strings, receive buffers, message tags and multipart messages. */
module Wire {
  import opened Names

  /** A byte string; each char stands for one byte. */
  type Bytes = string

  const NUL: char := '\0'

  const MQ_REG: Bytes := "svc_reg"
  const MQ_REQ: Bytes := "svc_req"
  const MQ_RES: Bytes := "svc_res"
  const MQ_REQ_INTERHUB: Bytes := "svc_req_interhub"
  const MQ_RES_INTERHUB: Bytes := "svc_res_interhub"
  const MQ_LOG: Bytes := "svc_log"
  const MQ_CONF: Bytes := "svc_conf"
  const INTERHUB_NAME: Bytes := "inter_hub"

  // ----- C strings and buffers ----------------------------------------------

  predicate NulFree(b: Bytes)
  {
    NUL !in b
  }

  /** What a C string function sees of a buffer. */
  function CStr(b: Bytes): (s: Bytes)
    ensures NulFree(s) && s <= b
    ensures |s| < |b| ==> b[|s|] == NUL
  {
    if b == [] || b[0] == NUL then [] else [b[0]] + CStr(b[1..])
  }

  function Zeros(n: nat): Bytes
  {
    seq(n, _ => NUL)
  }

  /** `zmq_recv` into a buffer: the head is overwritten, the rest stays; a
      longer part is cut off.  No terminator is written. */
  function Fill(buf: Bytes, data: Bytes): (r: Bytes)
    ensures |r| == |buf|
  {
    if |data| <= |buf| then data + buf[|data|..] else data[..|buf|]
  }

  /** A string that ends at a terminator or at the end of its buffer is read back whole. */
  lemma {:induction false} CStrOf(s: Bytes, rest: Bytes)
    requires NulFree(s) && (rest == [] || rest[0] == NUL)
    ensures CStr(s + rest) == s
    decreases s
  {
    if s == [] {
      assert s + rest == rest;
    } else {
      assert (s + rest)[1..] == s[1..] + rest;
      CStrOf(s[1..], rest);
    }
  }

  /** A received string is read back exactly when the buffer holds a terminator behind it. */
  lemma ReusedBuffer(buf: Bytes, data: Bytes)
    requires NulFree(data) && |data| < |buf|
    ensures CStr(Fill(buf, data)) == data <==> buf[|data|] == NUL
  {
  }

  /** `broker_id`: what a thread subscribes to and messages for it are published under. */
  function BrokerId(host: Bytes, name: Bytes): Bytes
  {
    host + "_" + name
  }

  // ----- Tags ---------------------------------------------------------------

  const BROKER_AT: nat := 1
  const SVC_AT: nat := 49
  const NAME_AT: nat := 73
  const TAG_SIZE: nat := 121

  /** `mq_tag_t`. */
  datatype Tag = Tag(via: bool, broker: Bytes, svc: Bytes, name: Bytes)

  /** Each string fits its field with its terminator. */
  predicate FitsTag(t: Tag)
  {
    && NulFree(t.broker) && |t.broker| < SVC_AT - BROKER_AT
    && NulFree(t.svc) && |t.svc| < NAME_AT - SVC_AT
    && NulFree(t.name) && |t.name| < TAG_SIZE - NAME_AT
  }

  function EncodeTag(t: Tag): (b: Bytes)
    requires FitsTag(t)
    ensures |b| == TAG_SIZE
  {
    [if t.via then '\U{1}' else NUL] + Fill(Zeros(SVC_AT - BROKER_AT), t.broker)
    + Fill(Zeros(NAME_AT - SVC_AT), t.svc) + Fill(Zeros(TAG_SIZE - NAME_AT), t.name)
  }

  function Via(b: Bytes): bool
    requires |b| == TAG_SIZE
  {
    b[0] != NUL
  }

  function DecodeTag(b: Bytes): Tag
    requires |b| == TAG_SIZE
  {
    Tag(Via(b), CStr(b[BROKER_AT..SVC_AT]), CStr(b[SVC_AT..NAME_AT]), CStr(b[NAME_AT..]))
  }

  /** `tag.via_interhub = true`. */
  function SetVia(b: Bytes): (r: Bytes)
    requires |b| == TAG_SIZE
    ensures |r| == TAG_SIZE
  {
    b[0 := '\U{1}']
  }

  /** `sprintf(tag.broker, "%s", id)`: the id and its terminator, nothing else. */
  function SetBroker(b: Bytes, id: Bytes): (r: Bytes)
    requires |b| == TAG_SIZE && |id| < SVC_AT - BROKER_AT
    ensures |r| == TAG_SIZE
  {
    b[..BROKER_AT] + Fill(b[BROKER_AT..SVC_AT], id + [NUL]) + b[SVC_AT..]
  }

  lemma TagRoundTrip(t: Tag)
    requires FitsTag(t)
    ensures DecodeTag(EncodeTag(t)) == t
  {
    var b := EncodeTag(t);
    assert b[BROKER_AT..SVC_AT] == Fill(Zeros(SVC_AT - BROKER_AT), t.broker);
    assert b[SVC_AT..NAME_AT] == Fill(Zeros(NAME_AT - SVC_AT), t.svc);
    assert b[NAME_AT..] == Fill(Zeros(TAG_SIZE - NAME_AT), t.name);
    ReusedBuffer(Zeros(SVC_AT - BROKER_AT), t.broker);
    ReusedBuffer(Zeros(NAME_AT - SVC_AT), t.svc);
    ReusedBuffer(Zeros(TAG_SIZE - NAME_AT), t.name);
  }

  /** The two stamps change their own field only. */
  lemma StampsDecode(b: Bytes, id: Bytes)
    requires |b| == TAG_SIZE && NulFree(id) && |id| < SVC_AT - BROKER_AT
    ensures DecodeTag(SetVia(b)) == DecodeTag(b).(via := true)
    ensures DecodeTag(SetBroker(b, id)) == DecodeTag(b).(broker := id)
  {
    var v, s := SetVia(b), SetBroker(b, id);
    assert v[BROKER_AT..SVC_AT] == b[BROKER_AT..SVC_AT] && v[SVC_AT..NAME_AT] == b[SVC_AT..NAME_AT] && v[NAME_AT..] == b[NAME_AT..];
    assert s[BROKER_AT..SVC_AT] == id + ([NUL] + b[BROKER_AT + |id| + 1..SVC_AT]);
    assert s[SVC_AT..NAME_AT] == b[SVC_AT..NAME_AT] && s[NAME_AT..] == b[NAME_AT..];
    CStrOf(id, [NUL] + b[BROKER_AT + |id| + 1..SVC_AT]);
  }

  /** A part read into a zeroed tag: longer parts are cut off, shorter ones padded. */
  function ReadTag(data: Bytes): (b: Bytes)
    ensures |b| == TAG_SIZE
  {
    Fill(Zeros(TAG_SIZE), data)
  }

  // ----- Multipart messages -------------------------------------------------

  /** One frame on a socket; `more` says that the message goes on. */
  datatype Part = Part(data: Bytes, more: bool)

  type Message = seq<Bytes>

  /** The frames of one message. */
  function Frame(m: Message): (ps: seq<Part>)
    ensures |ps| == |m|
  {
    seq(|m|, i requires 0 <= i < |m| => Part(m[i], i < |m| - 1))
  }

  /** A stream of whole messages. */
  function Stream(ms: seq<Message>): seq<Part>
  {
    if ms == [] then [] else Frame(ms[0]) + Stream(ms[1..])
  }

  lemma FrameTail(m: Message)
    requires m != []
    ensures Frame(m)[0] == Part(m[0], |m| > 1) && Frame(m)[1..] == Frame(m[1..])
  {
  }

  lemma {:induction false} StreamConcat(a: seq<Message>, b: seq<Message>)
    ensures Stream(a + b) == Stream(a) + Stream(b)
    decreases |a|
  {
    if a == [] {
      assert a + b == b;
    } else {
      StreamConcat(a[1..], b);
      StreamFirst(a, b);
      Assoc(Frame(a[0]), Stream(a[1..]), Stream(b));
    }
  }

  lemma StreamFirst(a: seq<Message>, b: seq<Message>)
    requires a != []
    ensures Stream(a + b) == Frame(a[0]) + Stream(a[1..] + b)
  {
    assert (a + b)[1..] == a[1..] + b;
  }

  /** How `regi_action` publishes a registration, in broker.c and in hub.c. */
  function RegiMessage(regi: Bytes): seq<Part>
  {
    [Part(MQ_REG, true), Part(regi, false)]
  }
}

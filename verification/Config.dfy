/** Configuration files: named by service, published in chunks, read back whole. */
module Config {
  import opened Names
  import opened Wire
  import opened Sockets
  import opened RelayTheory
  import opened Router
  import opened RouterEmission
  import opened RouterExits
  import opened EndToEnd

  // ----- publish_conf_from_file ---------------------------------------------

  /** What one `fgets(buff, 1024, fp)` can return. */
  const LINE_SIZE: nat := 1023

  /** Bytes taken by one `fgets`: through the first newline, at most LINE_SIZE. */
  function FgetsLength(file: Bytes, room: nat): (n: nat)
    ensures n <= |file| && n <= room
    ensures file != [] && room > 0 ==> n > 0
    ensures forall j :: 0 <= j < n - 1 ==> file[j] != '\n'
    ensures n < |file| && n < room ==> n > 0 && file[n - 1] == '\n'
  {
    if file == [] || room == 0 then 0
    else if file[0] == '\n' then 1
    else 1 + FgetsLength(file[1..], room - 1)
  }

  function Chunks(file: Bytes): seq<Bytes>
    decreases |file|
  {
    if file == [] then []
    else
      var n := FgetsLength(file, LINE_SIZE);
      [file[..n]] + Chunks(file[n..])
  }

  /** What `strlen` makes of each chunk: a chunk with a NUL byte is cut there. */
  function Lines(file: Bytes): (r: seq<Bytes>)
    ensures forall c :: c in r ==> NulFree(c)
    decreases |file|
  {
    if file == [] then []
    else
      var n := FgetsLength(file, LINE_SIZE);
      [CStr(file[..n])] + Lines(file[n..])
  }

  function Joined(chunks: seq<Bytes>): Bytes
  {
    if chunks == [] then [] else chunks[0] + Joined(chunks[1..])
  }

  function ConfHead(svc: Bytes, conf: Bytes): seq<Part>
  {
    [Part(svc, true), Part(MQ_CONF, true), Part(conf, true)]
  }

  /** The `while (fgets(..))` loop: it ends with the file or at the first failing send. */
  function SendFile(o: Out, file: Bytes): (r: Out)
    decreases |file|
  {
    if file == [] then o
    else
      var n := FgetsLength(file, LINE_SIZE);
      var o' := Put(o, CStr(file[..n]), true);
      if Verdict(o, CStr(file[..n])) == Sent then SendFile(o', file[n..]) else o'
  }

  /** `publish_conf_from_file`: head, chunks, and an empty last part in any case. */
  function PublishConf(o: Out, file: Bytes, svc: Bytes, conf: Bytes): Out
  {
    var (o', ok) := SendChain(o, ConfHead(svc, conf), 0);
    if ok then Put(SendFile(o', file), "", false) else o'
  }

  method PublishConfFromFile(zmqPub: Socket, file: Bytes, svc: Bytes, conf: Bytes)
    modifies zmqPub`sent, zmqPub`script
    ensures zmqPub.OutState() == PublishConf(old(zmqPub.OutState()), file, svc, conf)
  {
    var ok := SendAll(zmqPub, ConfHead(svc, conf), 0);
    if ok {
      ghost var all := SendFile(zmqPub.OutState(), file);
      var fp := file;
      while fp != []
        invariant SendFile(zmqPub.OutState(), fp) == all
        decreases |fp|
      {
        var n := FgetsLength(fp, LINE_SIZE);
        var res := zmqPub.Send(CStr(fp[..n]), true);
        if res != Sent {
          break;
        }
        fp := fp[n..];
      }
      assert zmqPub.OutState() == all;
      var _ := zmqPub.Send("", false);
    }
  }

  // ----- mq_recv_conf_name, mq_recv_conf_body -------------------------------

  function Received(i: In): In
  {
    if i.queue == [] then i else Next(i)
  }

  /** `mq_recv_conf_name`: None stands for -1. */
  function RecvConfName(i: In): (In, Option<Bytes>)
  {
    var tagged := Received(i);
    if !tagged.more || tagged.queue == [] then (tagged, None)
    else (Next(tagged), if Next(tagged).more then Some(CStr(tagged.queue[0].data)) else None)
  }

  /** `mq_recv_conf_body`: the last part is read, too, but reported as the end. */
  function RecvConfBody(i: In): (In, Option<Bytes>)
  {
    if i.queue == [] then (i, None)
    else (Next(i), if Next(i).more then Some(CStr(i.queue[0].data)) else None)
  }

  /** A client that calls `mq_recv_conf_body` until it fails, as in ahif.c:66. */
  function ReadBodies(i: In): (In, seq<Bytes>)
    decreases |i.queue|
  {
    var (i', body) := RecvConfBody(i);
    if body == None then (i', []) else var (end, rest) := ReadBodies(i'); (end, [body.value] + rest)
  }

  method MqRecvConfName(zmqConf: Socket) returns (name: Option<Bytes>)
    requires Whole(zmqConf.InState())
    modifies zmqConf`queue, zmqConf`more
    ensures (zmqConf.InState(), name) == RecvConfName(old(zmqConf.InState()))
  {
    var _, _ := zmqConf.Recv();
    if !zmqConf.more {
      return None;
    }
    var _, data := zmqConf.Recv();
    name := if zmqConf.more then Some(CStr(data)) else None;
  }

  /** Called between messages or inside one; the empty queue is only met between. */
  method MqRecvConfBody(zmqConf: Socket) returns (body: Option<Bytes>)
    requires Whole(zmqConf.InState())
    modifies zmqConf`queue, zmqConf`more
    ensures (zmqConf.InState(), body) == RecvConfBody(old(zmqConf.InState()))
  {
    var _, data := zmqConf.Recv();
    body := if zmqConf.more then Some(CStr(data)) else None;
  }

  /** A name is read exactly when two parts are there and both announce another
      one; a socket that is idle or whose message ends early gives none. */
  lemma RecvConfNameIsExact(i: In)
    requires Whole(i)
    ensures var (i', name), q := RecvConfName(i), i.queue;
            && (name.Some? <==> |q| >= 2 && q[0].more && q[1].more)
            && (name.Some? ==> name.value == CStr(q[1].data))
            && i' == (if q == [] then i else if !q[0].more then In(q[1..], q[0].more) else In(q[2..], q[1].more))
  {
  }

  /** A chunk is read exactly when a part is there that announces another one. */
  lemma RecvConfBodyIsExact(i: In)
    requires Whole(i)
    ensures var (i', body), q := RecvConfBody(i), i.queue;
            && (body.Some? <==> q != [] && q[0].more)
            && (body.Some? ==> body.value == CStr(q[0].data))
            && i' == (if q == [] then i else In(q[1..], q[0].more))
  {
  }

  // ----- The round trip -----------------------------------------------------

  lemma {:induction false} ChunksAreTheFile(file: Bytes)
    ensures Joined(Chunks(file)) == file
    ensures forall c :: c in Chunks(file) ==> 0 < |c| <= LINE_SIZE
    ensures |Lines(file)| == |Chunks(file)| && forall k :: 0 <= k < |Chunks(file)| ==> Lines(file)[k] == CStr(Chunks(file)[k])
    decreases |file|
  {
    if file != [] {
      var n := FgetsLength(file, LINE_SIZE);
      ChunksAreTheFile(file[n..]);
      assert file == file[..n] + file[n..];
    }
  }

  /** Chunks follow the lines: no newline inside a chunk, and a chunk that neither
      fills the buffer nor ends the file ends with one. */
  lemma {:induction false} ChunksAreLines(file: Bytes, k: nat)
    requires k < |Chunks(file)|
    ensures var c := Chunks(file)[k];
            && (forall j :: 0 <= j < |c| - 1 ==> c[j] != '\n')
            && (k < |Chunks(file)| - 1 && |c| < 1023 ==> |c| > 0 && c[|c| - 1] == '\n')
    decreases k
  {
    var n := FgetsLength(file, LINE_SIZE);
    if k > 0 {
      ChunksAreLines(file[n..], k - 1);
    } else if n == |file| {
      assert file[n..] == [];
    }
  }

  /** What is sent is the file if and only if the file has no NUL byte. */
  lemma {:induction false} LinesAreTheFile(file: Bytes)
    ensures Joined(Lines(file)) == file <==> NulFree(file)
    ensures NulFree(Joined(Lines(file)))
    ensures forall c :: c in Lines(file) ==> |c| <= LINE_SIZE
    decreases |file|
  {
    if file != [] {
      var n := FgetsLength(file, LINE_SIZE);
      LinesAreTheFile(file[n..]);
      assert file == file[..n] + file[n..];
      if NulFree(file) { CStrOfName(file[..n]); }
      assert NUL in file ==> Joined(Lines(file)) != file by { assert NulFree(CStr(file[..n]) + Joined(Lines(file[n..]))); }
    }
  }

  /** The message behind its topic. */
  function ConfBody(conf: Bytes, file: Bytes): Message
  {
    [MQ_CONF, conf] + Lines(file) + [""]
  }

  function ConfMessage(svc: Bytes, conf: Bytes, file: Bytes): Message
  {
    [svc] + ConfBody(conf, file)
  }

  /** Parts that all announce another one. */
  function Open(lines: seq<Bytes>): seq<Part>
  {
    seq(|lines|, k requires 0 <= k < |lines| => Part(lines[k], true))
  }

  lemma {:induction false} ClearSendFile(o: Out, file: Bytes)
    requires o.script == [] && o.peers == None
    ensures SendFile(o, file) == o.(sent := o.sent + Open(Lines(file)))
    decreases |file|
  {
    if file != [] {
      var n := FgetsLength(file, LINE_SIZE);
      var o' := Put(o, CStr(file[..n]), true);
      ClearSendFile(o', file[n..]);
      OpenStep(CStr(file[..n]), Lines(file[n..]));
      Assoc(o.sent, [Part(CStr(file[..n]), true)], Open(Lines(file[n..])));
    }
  }

  lemma OpenStep(line: Bytes, lines: seq<Bytes>)
    ensures Open([line] + lines) == [Part(line, true)] + Open(lines)
  {
  }

  /** The lines are sent one behind the other until a send fails, without a retry. */
  lemma {:induction false} SendFileChain(o: Out, file: Bytes)
    ensures SendFile(o, file) == SendChain(o, Open(Lines(file)), 0).0
    decreases |file|
  {
    if file != [] {
      var n := FgetsLength(file, LINE_SIZE);
      OpenStep(CStr(file[..n]), Lines(file[n..]));
      SendFileChain(Put(o, CStr(file[..n]), true), file[n..]);
      ChainFirst(o, Part(CStr(file[..n]), true), Open(Lines(file[n..])));
    }
  }

  lemma ChainFirst(o: Out, part: Part, parts: seq<Part>)
    ensures SendChain(o, [part] + parts, 0).0 ==
            if Verdict(o, part.data) == Sent then SendChain(Put(o, part.data, part.more), parts, 0).0 else Put(o, part.data, part.more)
  {
    assert ([part] + parts)[1..] == parts;
  }

  lemma LinesSent(o: Out, file: Bytes)
    requires o.peers == None
    ensures var o', lines := SendFile(o, file), Open(Lines(file));
            && o'.sent == o.sent + lines[..AcceptedFirst(o.script, |lines|)] && o'.script == AfterChain(o.script, |lines|)
            && o'.peers == None
  {
    SendFileChain(o, file);
    if Lines(file) == [] {
      assert o.sent + [] == o.sent;
    } else {
      ChainIsExact(o, Open(Lines(file)), 0);
      ChainSends(o, Open(Lines(file)), 0);
    }
  }

  /** `publish_conf_from_file` for every script of send results: when a send of
      the head fails nothing follows it; otherwise the lines go out up to the
      first that is not accepted, and in any case the empty last part is tried. */
  lemma PublishIsExact(o: Out, file: Bytes, svc: Bytes, conf: Bytes)
    requires o.peers == None
    ensures var head, lines := ConfHead(svc, conf), Open(Lines(file));
            var left := AfterChain(o.script, 3);
            var last := AfterChain(left, |lines|);
            PublishConf(o, file, svc, conf).sent ==
            if AcceptedFirst(o.script, 3) < 3 then o.sent + head[..AcceptedFirst(o.script, 3)]
            else o.sent + head + lines[..AcceptedFirst(left, |lines|)]
                 + if last == [] || last[0] == Sent then [Part("", false)] else []
  {
    var head := ConfHead(svc, conf);
    ChainIsExact(o, head, 0);
    ChainSends(o, head, 0);
    StopsBefore(o.script, 3);
    var (o', ok) := SendChain(o, head, 0);
    LinesSent(o', file);
    if ok {
      var o2 := SendFile(o', file);
      assert Put(o2, "", false).sent == if o2.script == [] || o2.script[0] == Sent then o2.sent + [Part("", false)] else o2.sent;
      assert o2.sent + [] == o2.sent;
    }
  }

  lemma ConfFrames(file: Bytes, svc: Bytes, conf: Bytes)
    ensures Frame(ConfMessage(svc, conf, file)) == ConfHead(svc, conf) + Open(Lines(file)) + [Part("", false)]
  {
  }

  lemma PublishesMessage(o: Out, file: Bytes, svc: Bytes, conf: Bytes)
    requires o.script == [] && o.peers == None
    ensures PublishConf(o, file, svc, conf) == o.(sent := o.sent + Stream([ConfMessage(svc, conf, file)]))
  {
    assert Flowing(ConfHead(svc, conf), 0);
    ClearChain(o, ConfHead(svc, conf), 0);
    var o' := o.(sent := o.sent + ConfHead(svc, conf));
    ClearSendFile(o', file);
    var body := Open(Lines(file));
    ConfFrames(file, svc, conf);
    StreamOne(ConfMessage(svc, conf, file));
    Assoc(o.sent, ConfHead(svc, conf), body);
    Assoc(o.sent, ConfHead(svc, conf) + body, [Part("", false)]);
  }

  lemma {:induction false} ReadsChunks(m: Message, k: nat, ms: seq<Part>)
    requires k < |m| && forall j :: k <= j < |m| ==> NulFree(m[j])
    ensures ReadBodies(Rest(m, k, ms)) == (In(ms, false), m[k..|m| - 1])
    decreases |m| - k
  {
    var i := Rest(m, k, ms);
    NextPart(m, k, ms, i);
    CStrOfName(m[k]);
    if k + 1 < |m| {
      ReadsChunks(m, k + 1, ms);
      assert m[k..|m| - 1] == [m[k]] + m[k + 1..|m| - 1];
    } else {
      assert Frame(m[|m|..]) + ms == ms && m[k..|m| - 1] == [];
    }
  }

  lemma BodyParts(conf: Bytes, file: Bytes)
    requires NulFree(conf)
    ensures var m := ConfBody(conf, file);
            && |m| >= 3 && m[0] == MQ_CONF && m[1] == conf && m[2..|m| - 1] == Lines(file)
            && forall j :: 1 <= j < |m| ==> NulFree(m[j])
  {
  }

  /** The reader gets the name, then exactly the chunks, and stops on the message boundary. */
  lemma ReaderIsExact(conf: Bytes, file: Bytes, ms: seq<Part>)
    requires NulFree(conf)
    ensures var (i, name) := RecvConfName(In(Frame(ConfBody(conf, file)) + ms, false));
            name == Some(conf) && ReadBodies(i) == (In(ms, false), Lines(file))
  {
    var m := ConfBody(conf, file);
    BodyParts(conf, file);
    assert m[0..] == m;
    NextPart(m, 0, ms, In(Frame(m) + ms, false));
    NextPart(m, 1, ms, Rest(m, 1, ms));
    CStrOfName(conf);
    ReadsChunks(m, 2, ms);
  }

  /** What a client whose slot is subscribed to sub takes from its configuration socket. */
  function ConfDelivered(file: Bytes, svc: Bytes, conf: Bytes, sub: Bytes): seq<Message>
  {
    Delivered(Messages(PublishConf(Fresh(None), file, svc, conf).sent, []), sub, MQ_CONF)
  }

  lemma ConfArrives(file: Bytes, svc: Bytes, conf: Bytes, sub: Bytes)
    requires sub <= svc
    ensures ConfDelivered(file, svc, conf, sub) == [ConfBody(conf, file)]
  {
    var m := ConfMessage(svc, conf, file);
    PublishesMessage(Fresh(None), file, svc, conf);
    assert [] + Stream([m]) == Stream([m]);
    MessagesOfStream([m]);
    DeliveredOnce(m, sub, MQ_CONF);
    assert m[1..] == ConfBody(conf, file);
  }

  /** From file to client: every client of the service reads the configuration's
      name and texts, each fitting a 1024-byte buffer with its terminator; joined
      they are the file if and only if it has no NUL byte. */
  lemma ConfigRoundTrip(file: Bytes, svc: Bytes, conf: Bytes, sub: Bytes)
    requires NulFree(conf) && sub <= svc
    ensures var got := ConfDelivered(file, svc, conf, sub);
            && |got| == 1
            && var (i, name) := RecvConfName(In(Frame(got[0]), false));
               var (end, chunks) := ReadBodies(i);
               && name == Some(conf) && (Joined(chunks) == file <==> NulFree(file)) && end == In([], false)
               && forall c :: c in chunks ==> |c| + 1 <= 1024
  {
    ConfArrives(file, svc, conf, sub);
    var m := ConfBody(conf, file);
    assert Frame(m) + [] == Frame(m);
    ReaderIsExact(conf, file, []);
    LinesAreTheFile(file);
  }

  // ----- check_inotify_event ------------------------------------------------

  /** `strchr(s, '.')`: the position of the first dot, or |s|. */
  function FirstDot(s: Bytes): (n: nat)
    ensures n <= |s| && '.' !in s[..n] && (n < |s| ==> s[n] == '.')
  {
    if s == [] || s[0] == '.' then 0
    else
      var n := FirstDot(s[1..]);
      assert s[..n + 1] == [s[0]] + s[1..][..n];
      n + 1
  }

  /** `strrchr(s, '_')`: the position of the last underscore. */
  function LastUnderscore(s: Bytes): (n: Option<nat>)
    ensures n == None ==> '_' !in s
    ensures n.Some? ==> n.value < |s| && s[n.value] == '_' && '_' !in s[n.value + 1..]
  {
    if s == [] then None
    else if s[|s| - 1] == '_' then Some(|s| - 1)
    else
      var n := LastUnderscore(s[..|s| - 1]);
      assert s == s[..|s| - 1] + [s[|s| - 1]];
      assert n.Some? ==> s[n.value + 1..] == s[..|s| - 1][n.value + 1..] + [s[|s| - 1]];
      n
  }

  /** What becomes of a file name; without any dot the code writes through a null pointer. */
  datatype Reading = Rejected | NullPointer | Accepted(svc: Bytes, conf: Bytes)

  /** `check_inotify_event`. */
  function ReadFileName(name: Bytes): Reading
  {
    var dot := FirstDot(name);
    if dot == |name| then NullPointer
    else if name[dot + 1..] != "conf" then Rejected
    else
      var at := LastUnderscore(name[..dot]);
      if at.Some? then Accepted(name[..at.value], name[at.value + 1..dot]) else Rejected
  }

  lemma {:induction false} DotSplits(base: Bytes, ext: Bytes)
    requires '.' !in base
    ensures FirstDot(base + "." + ext) == |base|
    ensures (base + "." + ext)[..|base|] == base && (base + "." + ext)[|base| + 1..] == ext
    decreases base
  {
    if base != [] {
      DotSplits(base[1..], ext);
      assert (base + "." + ext)[1..] == base[1..] + "." + ext;
    }
  }

  lemma {:induction false} UnderscoreSplits(svc: Bytes, conf: Bytes)
    requires '_' !in conf
    ensures LastUnderscore(svc + "_" + conf) == Some(|svc|)
    ensures (svc + "_" + conf)[..|svc|] == svc && (svc + "_" + conf)[|svc| + 1..] == conf
    decreases |conf|
  {
    var base := svc + "_" + conf;
    if conf != [] {
      var short := conf[..|conf| - 1];
      UnderscoreSplits(svc, short);
      assert base[..|base| - 1] == svc + "_" + short && base[|base| - 1] == conf[|conf| - 1];
    }
  }

  lemma AcceptedParts(name: Bytes)
    requires ReadFileName(name).Accepted?
    ensures var r := ReadFileName(name);
            name == r.svc + "_" + r.conf + ".conf" && '.' !in r.svc && '.' !in r.conf && '_' !in r.conf
  {
    var dot := FirstDot(name);
    var at := LastUnderscore(name[..dot]).value;
    assert name[..dot][at + 1..] == name[at + 1..dot] && name[..dot][..at] == name[..at];
    PartsRejoin(name, at, dot);
  }

  lemma PartsRejoin(name: Bytes, at: nat, dot: nat)
    requires at < dot < |name| && name[at] == '_' && name[dot] == '.' && name[dot + 1..] == "conf"
    ensures name == name[..at] + "_" + name[at + 1..dot] + ".conf"
  {
    assert name[at..dot] == "_" + name[at + 1..dot] && name[dot..] == ".conf";
  }

  lemma AcceptsBase(base: Bytes)
    requires '.' !in base && '_' in base
    ensures ReadFileName(base + ".conf").Accepted?
  {
    assert base + ".conf" == base + "." + "conf";
    DotSplits(base, "conf");
  }

  /** The name is a dot-free base with an underscore, followed by ".conf". */
  ghost predicate WellNamed(name: Bytes)
  {
    exists base: Bytes :: name == base + ".conf" && '.' !in base && '_' in base
  }

  /** Exactly the well-named files are accepted, with parts that rejoin to the
      name; only a name without any dot is fatal. */
  lemma FileNamesAccepted(name: Bytes)
    ensures ReadFileName(name).NullPointer? <==> '.' !in name
    ensures ReadFileName(name).Accepted? <==> WellNamed(name)
    ensures ReadFileName(name).Accepted? ==>
              var r := ReadFileName(name);
              name == r.svc + "_" + r.conf + ".conf" && '.' !in r.svc && '.' !in r.conf && '_' !in r.conf
  {
    assert name[..|name|] == name;
    if ReadFileName(name).Accepted? {
      AcceptedParts(name);
      var r := ReadFileName(name);
      var base := r.svc + "_" + r.conf;
      assert base[|r.svc|] == '_' && name == base + ".conf";
    }
    if WellNamed(name) {
      var base :| name == base + ".conf" && '.' !in base && '_' in base;
      AcceptsBase(base);
    }
  }

  /** Splitting undoes joining. */
  lemma FileNameRoundTrip(svc: Bytes, conf: Bytes)
    requires '.' !in svc && '.' !in conf && '_' !in conf
    ensures ReadFileName(svc + "_" + conf + ".conf") == Accepted(svc, conf)
  {
    var base := svc + "_" + conf;
    assert base + ".conf" == base + "." + "conf";
    DotSplits(base, "conf");
    UnderscoreSplits(svc, conf);
    assert (base + ".conf")[|svc| + 1..|base|] == base[|svc| + 1..] && (base + ".conf")[..|svc|] == base[..|svc|];
  }
}

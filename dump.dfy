/** The dump session of `tcp_diag`: send the request, then receive one
    message per `recvmsg` call and classify it by its header's type until
    the kernel reports an error or the end of the dump, or a receive fails.

    The socket is replaced by its inputs: the sequence of results that the
    successive `recvmsg` calls would return. A session that uses up all of
    them without stopping is one that would go on waiting in `recvmsg`. */
module Dump {
  import opened Ints
  import opened Codec
  import opened Request

  /** Capacity of the payload buffer of each receive, `[0u8; 8192]`. */
  const RECV_BUFFER_SIZE: nat := 8192

  /** What one `recvmsg` call yields: an error number, or one datagram. */
  datatype RecvResult = RecvError(errno: int) | Datagram(bytes: seq<u8>)

  /** What `recv` returns: the receive error, or the received header. */
  datatype Reply = Failed(errno: int) | Header(hdr: NlMsgHdr)

  function Min(a: nat, b: nat): nat {
    if a < b then a else b
  }

  /** The header `recv` returns for datagram `d`: `recvmsg` scatters the
      first 16 bytes of `d` over the zeroed header; bytes that a shorter
      datagram does not reach keep their zero. The received byte count is
      never checked. */
  function ReceivedHeader(order: ByteOrder, d: seq<u8>): (h: NlMsgHdr)
    ensures |d| >= NLMSGHDR_SIZE ==> h == DecodeHeader(order, d[..NLMSGHDR_SIZE])
  {
    var k := Min(|d|, NLMSGHDR_SIZE);
    assert k == NLMSGHDR_SIZE ==> d[..k] + EncodeHeader(order, DEFAULT_HEADER)[k..] == d[..NLMSGHDR_SIZE];
    DecodeHeader(order, d[..k] + EncodeHeader(order, DEFAULT_HEADER)[k..])
  }

  /** The reply `recv` gives for one receive result. */
  function Receive(order: ByteOrder, r: RecvResult): (reply: Reply)
    ensures reply.Failed? <==> r.RecvError?
    ensures r.RecvError? ==> reply.errno == r.errno
  {
    match r
    case RecvError(e) => Failed(e)
    case Datagram(d) => Header(ReceivedHeader(order, d))
  }

  /** A datagram that starts with a header's image yields that header,
      whatever follows it. */
  lemma ReceivedEncodedHeader(order: ByteOrder, h: NlMsgHdr, payload: seq<u8>)
    ensures ReceivedHeader(order, EncodeHeader(order, h) + payload) == h
  {
    var d := EncodeHeader(order, h) + payload;
    assert d[..NLMSGHDR_SIZE] == EncodeHeader(order, h);
    assert d[..NLMSGHDR_SIZE] + EncodeHeader(order, DEFAULT_HEADER)[NLMSGHDR_SIZE..] == d[..NLMSGHDR_SIZE];
    HeaderRoundTrip(order, h);
  }

  /** A datagram shorter than a header is not rejected: it is read as if
      zero bytes followed it. */
  lemma ReceivedShortHeader(order: ByteOrder, d: seq<u8>)
    requires |d| < NLMSGHDR_SIZE
    ensures ReceivedHeader(order, d) == DecodeHeader(order, d + seq(NLMSGHDR_SIZE - |d|, _ => 0))
  {
    DefaultHeaderIsZero(order);
    assert Min(|d|, NLMSGHDR_SIZE) == |d| && d[..|d|] == d;
    assert EncodeHeader(order, DEFAULT_HEADER)[|d|..] == seq(NLMSGHDR_SIZE - |d|, _ => 0);
  }

  /** `recv(&mut bytes)`: scatter one datagram over a fresh default header
      and the payload buffer, and return the header. Payload bytes beyond
      the buffer's capacity are dropped. */
  method Recv(order: ByteOrder, r: RecvResult, bytes: array<u8>) returns (reply: Reply)
    modifies bytes
    ensures reply == Receive(order, r)
    ensures r.RecvError? ==> bytes[..] == old(bytes[..])
    ensures r.Datagram? ==> forall i :: 0 <= i < bytes.Length ==>
      bytes[i] == if NLMSGHDR_SIZE + i < |r.bytes| then r.bytes[NLMSGHDR_SIZE + i] else old(bytes[i])
  {
    var nlhdr := EncodeHeader(order, DEFAULT_HEADER);
    match r
    case RecvError(e) =>
      reply := Failed(e);
    case Datagram(d) =>
      var k := Min(|d|, NLMSGHDR_SIZE);
      nlhdr := d[..k] + nlhdr[k..];
      var n := Min(|d| - k, bytes.Length);
      forall i | 0 <= i < n {
        bytes[i] := d[NLMSGHDR_SIZE + i];
      }
      reply := Header(DecodeHeader(order, nlhdr));
  }

  /** The classes of message the loop tells apart. */
  datatype MsgClass = Noop | Error | Done | Overrun | Data

  function Classify(msgType: u16): (c: MsgClass)
    ensures c == Data <==> msgType !in {NLMSG_NOOP, NLMSG_ERROR, NLMSG_DONE, NLMSG_OVERRUN}
    ensures c == Noop <==> msgType == NLMSG_NOOP
    ensures c == Error <==> msgType == NLMSG_ERROR
    ensures c == Done <==> msgType == NLMSG_DONE
    ensures c == Overrun <==> msgType == NLMSG_OVERRUN
  {
    if msgType == NLMSG_NOOP then Noop
    else if msgType == NLMSG_ERROR then Error
    else if msgType == NLMSG_DONE then Done
    else if msgType == NLMSG_OVERRUN then Overrun
    else Data
  }

  /** Why the loop stops: a receive error (`return`), or an NLMSG_ERROR or
      an NLMSG_DONE message (`break`). */
  datatype StopReason = RecvFailed(errno: int) | KernelError | DumpDone

  /** How a session ends: stopped for a reason, or, when the inputs run out
      first, still waiting for the next message. */
  datatype Outcome = Ended(reason: StopReason) | Waiting

  /** What the loop does after one receive. */
  datatype Action = Continue | Stop(reason: StopReason)

  function ReplyAction(reply: Reply): (a: Action)
    ensures a.Stop? <==> reply.Failed? || reply.hdr.msgType == NLMSG_ERROR || reply.hdr.msgType == NLMSG_DONE
    ensures reply.Failed? ==> a == Stop(RecvFailed(reply.errno))
  {
    match reply
    case Failed(e) => Stop(RecvFailed(e))
    case Header(h) =>
      match Classify(h.msgType)
      case Error => Stop(KernelError)
      case Done => Stop(DumpDone)
      case _ => Continue
  }

  function StepAction(order: ByteOrder, r: RecvResult): Action {
    ReplyAction(Receive(order, r))
  }

  /** Only NLMSG_ERROR and NLMSG_DONE stop the loop; NLMSG_NOOP,
      NLMSG_OVERRUN and every other type let it go on. */
  lemma HeaderStopsIff(h: NlMsgHdr)
    ensures ReplyAction(Header(h)).Stop? <==> h.msgType == NLMSG_ERROR || h.msgType == NLMSG_DONE
    ensures h.msgType == NLMSG_ERROR ==> ReplyAction(Header(h)) == Stop(KernelError)
    ensures h.msgType == NLMSG_DONE ==> ReplyAction(Header(h)) == Stop(DumpDone)
  {
  }

  /** `nlmsg_flags & NLM_F_MULTI != 0`: the "is multipart" report. */
  function IsMultipart(h: NlMsgHdr): (b: bool)
    ensures b <==> (h.flags / 2) % 2 == 1
  {
    BitAndTwo(h.flags);
    BitAnd(h.flags, NLM_F_MULTI) != 0
  }

  /** How many receives a session made and how it ended. */
  datatype Session = Session(outcome: Outcome, receives: nat)

  /** The loop over a sequence of per-receive actions: it stops at the first
      `Stop`, and waits once the actions run out. */
  function RunActions(acts: seq<Action>): Session
    decreases |acts|
  {
    if acts == [] then Session(Waiting, 0)
    else match acts[0]
      case Stop(why) => Session(Ended(why), 1)
      case Continue => After(1, RunActions(acts[1..]))
  }

  /** `s` after `n` more receives that all continued. */
  function After(n: nat, s: Session): Session {
    Session(s.outcome, s.receives + n)
  }

  /** The action the loop takes after each of the receive results. */
  function Actions(order: ByteOrder, inputs: seq<RecvResult>): (acts: seq<Action>)
    ensures |acts| == |inputs|
  {
    seq(|inputs|, j requires 0 <= j < |inputs| => StepAction(order, inputs[j]))
  }

  /** The session over the given receive results. */
  function Run(order: ByteOrder, inputs: seq<RecvResult>): (s: Session)
    ensures s.receives <= |inputs|
    ensures s.outcome == Waiting ==> s.receives == |inputs|
    ensures s.outcome.Ended? ==> s.receives >= 1
  {
    RunShape(Actions(order, inputs));
    RunActions(Actions(order, inputs))
  }

  /** Run on a first receive result followed by the rest. */
  lemma RunCons(order: ByteOrder, r: RecvResult, rest: seq<RecvResult>)
    ensures Run(order, [r] + rest) ==
      match StepAction(order, r)
      case Stop(why) => Session(Ended(why), 1)
      case Continue => After(1, Run(order, rest))
  {
    var acts := Actions(order, [r] + rest);
    assert acts[0] == StepAction(order, r);
    assert acts[1..] == Actions(order, rest);
  }

  /** The first half of `tcp_diag`: build the request and gather it into
      one datagram for `sendmsg` (whose result is ignored). */
  method SendTcpDiagRequest(order: ByteOrder) returns (sent: seq<u8>)
    ensures IsTcpDumpRequest(order, sent)
  {
    var hdr, diags := BuildTcpDiagRequest();
    sent := RequestDatagram(order, hdr, diags);
  }

  /** `tcp_diag`: send the request, then run the receive loop. */
  method TcpDiag(order: ByteOrder, inputs: seq<RecvResult>) returns (sent: seq<u8>, session: Session)
    ensures IsTcpDumpRequest(order, sent)
    ensures session == Run(order, inputs)
  {
    sent := SendTcpDiagRequest(order);
    session := ReceiveDump(order, inputs);
  }

  /** One iteration's receive: `recv` into a fresh zeroed 8 KiB buffer,
      which the loop then drops unread. */
  method RecvIntoFreshBuffer(order: ByteOrder, r: RecvResult) returns (reply: Reply)
    ensures reply == Receive(order, r)
  {
    var bytes := new u8[RECV_BUFFER_SIZE](_ => 0);
    reply := Recv(order, r, bytes);
  }

  /** The receive loop of `tcp_diag`: receive and classify messages until
      one stops the loop. Each iteration receives into a fresh zeroed 8 KiB
      buffer. */
  method ReceiveDump(order: ByteOrder, inputs: seq<RecvResult>) returns (session: Session)
    ensures session == Run(order, inputs)
  {
    ghost var acts := Actions(order, inputs);
    var i := 0;
    while true
      invariant 0 <= i <= |inputs|
      invariant forall j :: 0 <= j < i ==> acts[j] == Continue
      decreases |inputs| - i
    {
      if i == |inputs| {
        RunWaitsWhenNothingStops(acts);
        session := Session(Waiting, i);
        return;
      }
      var reply := RecvIntoFreshBuffer(order, inputs[i]);
      assert acts[i] == StepAction(order, inputs[i]);
      assert acts[i] == ReplyAction(reply);
      match reply
      case Failed(e) =>
        RunStopsAtFirstStop(acts, i);
        session := Session(Ended(RecvFailed(e)), i + 1);
        return;
      case Header(nlhdr) =>
        if nlhdr.msgType == NLMSG_ERROR {
          RunStopsAtFirstStop(acts, i);
          session := Session(Ended(KernelError), i + 1);
          break;
        } else if nlhdr.msgType == NLMSG_NOOP {
        } else if nlhdr.msgType == NLMSG_DONE {
          RunStopsAtFirstStop(acts, i);
          session := Session(Ended(DumpDone), i + 1);
          break;
        } else if nlhdr.msgType == NLMSG_OVERRUN {
        } else {
        }
      i := i + 1;
    }
  }

  /** The session stops at the first action that stops the loop, having
      made exactly that many receives. */
  lemma {:induction false} RunStopsAtFirstStop(acts: seq<Action>, k: nat)
    requires k < |acts| && acts[k].Stop?
    requires forall j :: 0 <= j < k ==> acts[j] == Continue
    ensures RunActions(acts) == Session(Ended(acts[k].reason), k + 1)
  {
    if k > 0 {
      assert acts[0] == Continue;
      assert forall j :: 0 <= j < k - 1 ==> acts[1..][j] == acts[j + 1];
      RunStopsAtFirstStop(acts[1..], k - 1);
    }
  }

  /** When nothing stops the loop, it consumes every input and waits. */
  lemma {:induction false} RunWaitsWhenNothingStops(acts: seq<Action>)
    requires forall j :: 0 <= j < |acts| ==> acts[j] == Continue
    ensures RunActions(acts) == Session(Waiting, |acts|)
  {
    if acts != [] {
      assert acts[0] == Continue;
      assert forall j :: 0 <= j < |acts| - 1 ==> acts[1..][j] == acts[j + 1];
      RunWaitsWhenNothingStops(acts[1..]);
    }
  }

  /** Conversely, every session looks like that: all actions before the
      last one continued, and the last one is the one that stopped the loop
      (or the actions ran out). */
  lemma {:induction false} RunShape(acts: seq<Action>)
    ensures RunActions(acts).receives <= |acts|
    ensures RunActions(acts).outcome == Waiting ==>
      RunActions(acts).receives == |acts| && forall j :: 0 <= j < |acts| ==> acts[j] == Continue
    ensures RunActions(acts).outcome.Ended? ==>
      var n := RunActions(acts).receives;
      n >= 1 && acts[n - 1] == Stop(RunActions(acts).outcome.reason) &&
      forall j :: 0 <= j < n - 1 ==> acts[j] == Continue
  {
    if acts != [] && acts[0] == Continue {
      RunShape(acts[1..]);
      assert forall j :: 0 < j < |acts| ==> acts[j] == acts[1..][j - 1];
    }
  }

  /** The shape of a session over receive results: the receives before the
      last one all continued, and the last one stopped the loop unless the
      inputs ran out. */
  lemma SessionShape(order: ByteOrder, inputs: seq<RecvResult>)
    ensures Run(order, inputs).receives <= |inputs|
    ensures Run(order, inputs).outcome == Waiting ==>
      Run(order, inputs).receives == |inputs| &&
      forall j :: 0 <= j < |inputs| ==> StepAction(order, inputs[j]) == Continue
    ensures Run(order, inputs).outcome.Ended? ==>
      var n := Run(order, inputs).receives;
      n >= 1 && StepAction(order, inputs[n - 1]) == Stop(Run(order, inputs).outcome.reason) &&
      forall j :: 0 <= j < n - 1 ==> StepAction(order, inputs[j]) == Continue
  {
    var acts := Actions(order, inputs);
    RunShape(acts);
    var n := RunActions(acts).receives;
    forall j | 0 <= j < n
      ensures StepAction(order, inputs[j]) == acts[j]
    {
    }
    if RunActions(acts).outcome == Waiting {
      forall j | 0 <= j < |inputs|
        ensures StepAction(order, inputs[j]) == Continue
      {
        assert acts[j] == Continue;
      }
    }
  }

  /** Receive results that agree on what stops the loop: the same receive
      error, or datagrams whose headers have the same type. */
  ghost predicate SameTypes(order: ByteOrder, a: RecvResult, b: RecvResult) {
    match a
    case RecvError(_) => b == a
    case Datagram(d) => b.Datagram? && ReceivedHeader(order, d).msgType == ReceivedHeader(order, b.bytes).msgType
  }

  /** The session depends on the headers' types alone: not on their
      lengths, flags (NLM_F_MULTI included), sequence numbers or port ids,
      nor on the payloads. */
  lemma RunDependsOnlyOnTypes(order: ByteOrder, a: seq<RecvResult>, b: seq<RecvResult>)
    requires |a| == |b|
    requires forall j :: 0 <= j < |a| ==> SameTypes(order, a[j], b[j])
    ensures Run(order, a) == Run(order, b)
  {
    forall j | 0 <= j < |a|
      ensures Actions(order, a)[j] == Actions(order, b)[j]
    {
      assert SameTypes(order, a[j], b[j]);
    }
    assert Actions(order, a) == Actions(order, b);
  }

  /** Setting or clearing NLM_F_MULTI (or any other flag) in a received
      header changes nothing about the session. */
  lemma MultipartFlagIgnored(order: ByteOrder, h: NlMsgHdr, flags: u16, payload: seq<u8>, rest: seq<RecvResult>)
    ensures Run(order, [Datagram(EncodeHeader(order, h) + payload)] + rest)
         == Run(order, [Datagram(EncodeHeader(order, h.(flags := flags)) + payload)] + rest)
  {
    var first := Datagram(EncodeHeader(order, h) + payload);
    var reflagged := Datagram(EncodeHeader(order, h.(flags := flags)) + payload);
    EncodedStep(order, h, payload);
    EncodedStep(order, h.(flags := flags), payload);
    SameFirstStep(order, first, reflagged, rest);
  }

  /** Two first receive results on which the loop acts alike lead to the
      same session. */
  lemma SameFirstStep(order: ByteOrder, x: RecvResult, y: RecvResult, rest: seq<RecvResult>)
    requires StepAction(order, x) == StepAction(order, y)
    ensures Run(order, [x] + rest) == Run(order, [y] + rest)
  {
    RunCons(order, x, rest);
    RunCons(order, y, rest);
  }

  /** A datagram of at most four bytes leaves the type field at its default
      zero, an ordinary message type: the loop goes on to the next receive
      instead of failing. */
  lemma TruncatedDatagramContinues(order: ByteOrder, d: seq<u8>, rest: seq<RecvResult>)
    requires |d| <= 4
    ensures ReceivedHeader(order, d).msgType == 0
    ensures StepAction(order, Datagram(d)) == Continue
    ensures Run(order, [Datagram(d)] + rest) == Session(Run(order, rest).outcome, Run(order, rest).receives + 1)
  {
    var padded := d + seq(NLMSGHDR_SIZE - |d|, _ => 0);
    ReceivedShortHeader(order, d);
    assert padded[4..][..2] == [0, 0];
    assert DecodeUint(order, [0, 0]) == 0;
    assert ReceivedHeader(order, d).msgType == 0;
    RunCons(order, Datagram(d), rest);
  }

  /** A reply whose first message is NLMSG_DONE ends the session cleanly
      after one receive. */
  lemma DoneFirst(order: ByteOrder, h: NlMsgHdr, payload: seq<u8>, rest: seq<RecvResult>)
    requires h.msgType == NLMSG_DONE
    ensures Run(order, [Datagram(EncodeHeader(order, h) + payload)] + rest) == Session(Ended(DumpDone), 1)
  {
    EncodedStep(order, h, payload);
    RunCons(order, Datagram(EncodeHeader(order, h) + payload), rest);
  }

  /** The loop's action on a datagram that starts with a header's image is
      the action for that header. */
  lemma EncodedStep(order: ByteOrder, h: NlMsgHdr, payload: seq<u8>)
    ensures StepAction(order, Datagram(EncodeHeader(order, h) + payload)) == ReplyAction(Header(h))
  {
    ReceivedEncodedHeader(order, h, payload);
  }

  /** One netlink message as the kernel sends it: a header and its payload. */
  datatype Message = Message(hdr: NlMsgHdr, payload: seq<u8>)

  /** One datagram per message, each the header's image then the payload. */
  function Datagrams(order: ByteOrder, msgs: seq<Message>): (rs: seq<RecvResult>)
    ensures |rs| == |msgs|
  {
    if msgs == [] then []
    else [Datagram(EncodeHeader(order, msgs[0].hdr) + msgs[0].payload)] + Datagrams(order, msgs[1..])
  }

  /** A dump of messages that neither are NLMSG_ERROR nor NLMSG_DONE (data,
      NLMSG_NOOP, NLMSG_OVERRUN, whatever their flags), followed by
      NLMSG_DONE, ends cleanly after one receive per message; nothing after
      the NLMSG_DONE is received. */
  lemma {:induction false} DumpThenDone(order: ByteOrder, msgs: seq<Message>, done: Message, rest: seq<RecvResult>)
    requires forall j :: 0 <= j < |msgs| ==> msgs[j].hdr.msgType != NLMSG_ERROR && msgs[j].hdr.msgType != NLMSG_DONE
    requires done.hdr.msgType == NLMSG_DONE
    ensures Run(order, Datagrams(order, msgs + [done]) + rest) == Session(Ended(DumpDone), |msgs| + 1)
  {
    var all := msgs + [done];
    var tail := Datagrams(order, all[1..]) + rest;
    assert Datagrams(order, all) + rest == [Datagrams(order, all)[0]] + tail;
    if msgs == [] {
      DoneFirst(order, done.hdr, done.payload, tail);
    } else {
      assert all[1..] == msgs[1..] + [done];
      DumpThenDone(order, msgs[1..], done, rest);
      OtherFirst(order, msgs[0].hdr, msgs[0].payload, tail);
    }
  }

  /** A first message that is neither NLMSG_ERROR nor NLMSG_DONE costs one
      receive and leaves the rest of the session as it was. */
  lemma OtherFirst(order: ByteOrder, h: NlMsgHdr, payload: seq<u8>, rest: seq<RecvResult>)
    requires h.msgType != NLMSG_ERROR && h.msgType != NLMSG_DONE
    ensures Run(order, [Datagram(EncodeHeader(order, h) + payload)] + rest) == After(1, Run(order, rest))
  {
    EncodedStep(order, h, payload);
    RunCons(order, Datagram(EncodeHeader(order, h) + payload), rest);
  }

  /** An NLMSG_ERROR first message ends the session after one receive. */
  lemma ErrorFirst(order: ByteOrder, h: NlMsgHdr, payload: seq<u8>, rest: seq<RecvResult>)
    requires h.msgType == NLMSG_ERROR
    ensures Run(order, [Datagram(EncodeHeader(order, h) + payload)] + rest) == Session(Ended(KernelError), 1)
  {
    EncodedStep(order, h, payload);
    RunCons(order, Datagram(EncodeHeader(order, h) + payload), rest);
  }

  /** A receive error ends the session at once, carrying the error. */
  lemma RecvErrorFirst(order: ByteOrder, e: int, rest: seq<RecvResult>)
    ensures Run(order, [RecvError(e)] + rest) == Session(Ended(RecvFailed(e)), 1)
  {
    RunCons(order, RecvError(e), rest);
  }
}

/** The socket-diagnostics dump request that `tcp_diag` sends: a netlink
    header followed by an `inet_diag_req_v2` asking for every IPv4 TCP
    socket in every state. */
module Request {
  import opened Ints
  import opened Codec
  import opened Lengths

  /** The datagram `sendmsg` gathers from the two iovecs: the header's
      memory image, then the request body's. */
  function RequestDatagram(order: ByteOrder, hdr: NlMsgHdr, body: InetDiagReqV2): (d: seq<u8>)
    ensures |d| == NLMSGHDR_SIZE + INET_DIAG_REQ_V2_SIZE
  {
    EncodeHeader(order, hdr) + EncodeRequest(order, body)
  }

  /** The receiver of the gathered datagram gets both structures back. */
  lemma RequestDatagramDecodes(order: ByteOrder, hdr: NlMsgHdr, body: InetDiagReqV2)
    ensures DecodeHeader(order, RequestDatagram(order, hdr, body)[..NLMSGHDR_SIZE]) == hdr
    ensures DecodeRequest(order, RequestDatagram(order, hdr, body)[NLMSGHDR_SIZE..]) == body
  {
    var d := RequestDatagram(order, hdr, body);
    assert d[..NLMSGHDR_SIZE] == EncodeHeader(order, hdr);
    assert d[NLMSGHDR_SIZE..] == EncodeRequest(order, body);
    HeaderRoundTrip(order, hdr);
    RequestRoundTrip(order, body);
  }

  /** The request body that asks for all IPv4 TCP sockets, whatever their
      state, with no extensions and no socket selected. */
  const TCP_DUMP_BODY: InetDiagReqV2 :=
    DEFAULT_REQUEST.(family := AF_INET, protocol := IPPROTO_TCP, states := 0xffff_ffff)

  /** What the kernel reads out of a TCP dump request datagram: a header
      that declares the datagram's own length, has type
      SOCK_DIAG_BY_FAMILY, the flags NLM_F_REQUEST | NLM_F_DUMP and zero
      sequence number and port id, followed by TCP_DUMP_BODY. */
  ghost predicate IsTcpDumpRequest(order: ByteOrder, d: seq<u8>) {
    |d| == NLMSGHDR_SIZE + INET_DIAG_REQ_V2_SIZE &&
    var h := DecodeHeader(order, d[..NLMSGHDR_SIZE]);
    h.len == |d| && h.msgType == SOCK_DIAG_BY_FAMILY && h.flags == BitOr(NLM_F_REQUEST, NlmFDump()) &&
    h.seqNo == 0 && h.pid == 0 &&
    DecodeRequest(order, d[NLMSGHDR_SIZE..]) == TCP_DUMP_BODY
  }

  /** The request construction of `tcp_diag`: start from the two defaults
      and set the header's type, length and flags and the body's family,
      protocol and state mask, one field at a time. */
  method BuildTcpDiagRequest() returns (hdr: NlMsgHdr, diags: InetDiagReqV2)
    ensures hdr == NlMsgHdr(len := 72, msgType := SOCK_DIAG_BY_FAMILY, flags := 0x301, seqNo := 0, pid := 0)
    ensures hdr.len == NlmsgLength(INET_DIAG_REQ_V2_SIZE)
    ensures diags == TCP_DUMP_BODY && diags.id == DEFAULT_SOCKID
    ensures forall order: ByteOrder :: IsTcpDumpRequest(order, RequestDatagram(order, hdr, diags))
  {
    hdr := DEFAULT_HEADER;
    diags := DEFAULT_REQUEST;

    hdr := hdr.(msgType := SOCK_DIAG_BY_FAMILY);
    RequestLength();
    hdr := hdr.(len := TruncateToU32(NlmsgLength(INET_DIAG_REQ_V2_SIZE)));
    BitOrDumpFlags();
    hdr := hdr.(flags := BitOr(NLM_F_REQUEST, NlmFDump()));

    diags := diags.(family := AF_INET);
    diags := diags.(protocol := IPPROTO_TCP);
    diags := diags.(states := 0xffff_ffff);

    forall order: ByteOrder
      ensures IsTcpDumpRequest(order, RequestDatagram(order, hdr, diags))
    {
      RequestDatagramDecodes(order, hdr, diags);
    }
  }
}

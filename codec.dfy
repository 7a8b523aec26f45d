/** The byte images of the netlink structures.

    The client hands `nlmsghdr` and `inet_diag_req_v2` to the socket as raw
    memory and reads the reply header back the same way. Both structures are
    `#[repr(C)]` with every field at a multiple of its own alignment, so
    their memory image is their fields back to back, each field's integer
    in the host's byte order (netlink is host-order, not network-order).
    This module makes that image explicit as an encoder and a decoder per
    structure: each decoder returns the value whose image is the given
    bytes, and decoding an image gives back the value it was made from. */
module Codec {
  import opened Ints

  /** The host's byte order, which netlink headers use. */
  datatype ByteOrder = LittleEndian | BigEndian

  function Pow256(n: nat): (r: nat)
    ensures r >= 1
  {
    if n == 0 then 1 else 256 * Pow256(n - 1)
  }

  lemma Pow256Values()
    ensures Pow256(1) == 0x100 && Pow256(2) == 0x1_0000 && Pow256(4) == 0x1_0000_0000
  {
    assert Pow256(2) == 256 * Pow256(1);
    assert Pow256(3) == 256 * Pow256(2);
    assert Pow256(4) == 256 * Pow256(3);
  }

  /** The n low-order bytes of `x`, in the given byte order. */
  function EncodeUint(order: ByteOrder, x: nat, n: nat): (bs: seq<u8>)
    ensures |bs| == n
  {
    if n == 0 then []
    else match order
      case LittleEndian => [x % 256] + EncodeUint(order, x / 256, n - 1)
      case BigEndian => EncodeUint(order, x / 256, n - 1) + [x % 256]
  }

  /** The unsigned integer whose bytes, in the given order, are `bs`. */
  function DecodeUint(order: ByteOrder, bs: seq<u8>): (x: nat)
    ensures x < Pow256(|bs|)
  {
    if bs == [] then 0
    else match order
      case LittleEndian => bs[0] + 256 * DecodeUint(order, bs[1..])
      case BigEndian => 256 * DecodeUint(order, bs[..|bs| - 1]) + bs[|bs| - 1]
  }

  lemma {:induction false} DecodeEncodeUint(order: ByteOrder, x: nat, n: nat)
    requires x < Pow256(n)
    ensures DecodeUint(order, EncodeUint(order, x, n)) == x
  {
    if n > 0 {
      var bs := EncodeUint(order, x, n);
      DecodeEncodeUint(order, x / 256, n - 1);
      match order
      case LittleEndian =>
        assert bs[0] == x % 256 && bs[1..] == EncodeUint(order, x / 256, n - 1);
      case BigEndian =>
        assert bs[n - 1] == x % 256 && bs[..n - 1] == EncodeUint(order, x / 256, n - 1);
    }
  }

  /** Splitting `lo + 256 * hi` back into its low byte and the rest. */
  lemma ByteDivMod(lo: u8, hi: nat)
    ensures (lo + 256 * hi) % 256 == lo && (lo + 256 * hi) / 256 == hi
  {
  }

  lemma EncodeDecodeUint(order: ByteOrder, bs: seq<u8>)
    ensures EncodeUint(order, DecodeUint(order, bs), |bs|) == bs
  {
    match order
    case LittleEndian => EncodeDecodeLittle(bs);
    case BigEndian => EncodeDecodeBig(bs);
  }

  lemma {:induction false} EncodeDecodeLittle(bs: seq<u8>)
    ensures EncodeUint(LittleEndian, DecodeUint(LittleEndian, bs), |bs|) == bs
  {
    if bs != [] {
      ByteDivMod(bs[0], DecodeUint(LittleEndian, bs[1..]));
      EncodeDecodeLittle(bs[1..]);
      assert bs == [bs[0]] + bs[1..];
    }
  }

  lemma {:induction false} EncodeDecodeBig(bs: seq<u8>)
    ensures EncodeUint(BigEndian, DecodeUint(BigEndian, bs), |bs|) == bs
  {
    if bs != [] {
      var init := bs[..|bs| - 1];
      ByteDivMod(bs[|bs| - 1], DecodeUint(BigEndian, init));
      EncodeDecodeBig(init);
      assert bs == init + [bs[|bs| - 1]];
    }
  }

  /** Zero is all zero bytes in either byte order. */
  lemma {:induction false} EncodeZero(order: ByteOrder, n: nat)
    ensures EncodeUint(order, 0, n) == seq(n, _ => 0)
  {
    if n > 0 {
      EncodeZero(order, n - 1);
    }
  }

  // Message types and flags of the netlink header (from <linux/netlink.h>
  // and <linux/sock_diag.h>).
  const NLM_F_REQUEST: u16 := 0x1
  const NLM_F_MULTI: u16 := 0x2
  const NLM_F_ROOT: u16 := 0x100
  const NLM_F_MATCH: u16 := 0x200
  const NLMSG_NOOP: u16 := 0x1
  const NLMSG_ERROR: u16 := 0x2
  const NLMSG_DONE: u16 := 0x3
  const NLMSG_OVERRUN: u16 := 0x4
  const SOCK_DIAG_BY_FAMILY: u16 := 20

  /** `NLM_F_ROOT | NLM_F_MATCH`. */
  function NlmFDump(): (f: u16)
    ensures f == 0x300
  {
    BitOrDumpFlags();
    BitOr(NLM_F_ROOT, NLM_F_MATCH)
  }

  // Address family and transport protocol numbers (from Linux libc).
  const AF_INET: u8 := 2
  const IPPROTO_TCP: u8 := 6

  /** `struct nlmsghdr`. */
  datatype NlMsgHdr = NlMsgHdr(len: u32, msgType: u16, flags: u16, seqNo: u32, pid: u32)

  /** `nlmsghdr::default()`: every field zero. */
  const DEFAULT_HEADER: NlMsgHdr := NlMsgHdr(0, 0, 0, 0, 0)

  /** `size_of::<nlmsghdr>()`: 4 + 2 + 2 + 4 + 4 bytes, no padding. */
  const NLMSGHDR_SIZE: nat := 16

  /** `bytes_of(&h)` for a header: its fields back to back. */
  function EncodeHeader(order: ByteOrder, h: NlMsgHdr): (bs: seq<u8>)
    ensures |bs| == NLMSGHDR_SIZE
  {
    EncodeUint(order, h.len, 4) + (EncodeUint(order, h.msgType, 2) + (EncodeUint(order, h.flags, 2)
    + (EncodeUint(order, h.seqNo, 4) + EncodeUint(order, h.pid, 4))))
  }

  /** The header whose memory image is `bs` (any 16 bytes are one): each
      field is read from what the fields before it leave over. */
  function DecodeHeader(order: ByteOrder, bs: seq<u8>): NlMsgHdr
    requires |bs| == NLMSGHDR_SIZE
  {
    Pow256Values();
    var afterLen := bs[4..];
    var afterType := afterLen[2..];
    var afterFlags := afterType[2..];
    var afterSeq := afterFlags[4..];
    NlMsgHdr(DecodeUint(order, bs[..4]), DecodeUint(order, afterLen[..2]), DecodeUint(order, afterType[..2]),
             DecodeUint(order, afterFlags[..4]), DecodeUint(order, afterSeq))
  }

  /** Reading back the image of a header gives that header. */
  lemma HeaderRoundTrip(order: ByteOrder, h: NlMsgHdr)
    ensures DecodeHeader(order, EncodeHeader(order, h)) == h
  {
    Pow256Values();
    DecodeEncodeUint(order, h.len, 4);
    DecodeEncodeUint(order, h.msgType, 2);
    DecodeEncodeUint(order, h.flags, 2);
    DecodeEncodeUint(order, h.seqNo, 4);
    DecodeEncodeUint(order, h.pid, 4);
  }

  /** Every 16-byte buffer is the image of the header decoded from it. */
  lemma HeaderBytesRoundTrip(order: ByteOrder, bs: seq<u8>)
    requires |bs| == NLMSGHDR_SIZE
    ensures EncodeHeader(order, DecodeHeader(order, bs)) == bs
  {
    var afterLen := bs[4..];
    var afterType := afterLen[2..];
    var afterFlags := afterType[2..];
    var afterSeq := afterFlags[4..];
    EncodeDecodeUint(order, bs[..4]);
    EncodeDecodeUint(order, afterLen[..2]);
    EncodeDecodeUint(order, afterType[..2]);
    EncodeDecodeUint(order, afterFlags[..4]);
    EncodeDecodeUint(order, afterSeq);
    assert afterFlags == afterFlags[..4] + afterSeq;
    assert afterType == afterType[..2] + afterFlags;
    assert afterLen == afterLen[..2] + afterType;
    assert bs == bs[..4] + afterLen;
  }

  /** The default header's image is sixteen zero bytes: `nlmsghdr::default()`
      is zero-initialised memory. */
  lemma DefaultHeaderIsZero(order: ByteOrder)
    ensures EncodeHeader(order, DEFAULT_HEADER) == seq(NLMSGHDR_SIZE, _ => 0)
  {
    EncodeZero(order, 4);
    EncodeZero(order, 2);
  }

  /** A fixed-length `[u32; n]` array field. */
  type Words4 = s: seq<u32> | |s| == 4 witness [0, 0, 0, 0]
  type Words2 = s: seq<u32> | |s| == 2 witness [0, 0]

  function EncodeWords(order: ByteOrder, ws: seq<u32>): (bs: seq<u8>)
    ensures |bs| == 4 * |ws|
  {
    if ws == [] then [] else EncodeUint(order, ws[0], 4) + EncodeWords(order, ws[1..])
  }

  /** The words whose image is `bs`. */
  function DecodeWords(order: ByteOrder, bs: seq<u8>): (ws: seq<u32>)
    requires |bs| % 4 == 0
    ensures 4 * |ws| == |bs|
    ensures EncodeWords(order, ws) == bs
  {
    Pow256Values();
    if bs == [] then []
    else
      EncodeDecodeUint(order, bs[..4]);
      assert bs == bs[..4] + bs[4..];
      [DecodeUint(order, bs[..4]) as u32] + DecodeWords(order, bs[4..])
  }

  lemma {:induction false} WordsRoundTrip(order: ByteOrder, ws: seq<u32>)
    ensures DecodeWords(order, EncodeWords(order, ws)) == ws
  {
    if ws != [] {
      var bs := EncodeWords(order, ws);
      Pow256Values();
      assert bs[..4] == EncodeUint(order, ws[0], 4);
      assert bs[4..] == EncodeWords(order, ws[1..]);
      DecodeEncodeUint(order, ws[0], 4);
      WordsRoundTrip(order, ws[1..]);
    }
  }

  /** `struct inet_diag_sockid`: which sockets a request selects. */
  datatype InetDiagSockId = InetDiagSockId(
    sport: u16, dport: u16, src: Words4, dst: Words4, ifIndex: u32, cookie: Words2)

  /** `inet_diag_sockid::default()`: zero-filled, meaning "any socket". */
  const DEFAULT_SOCKID: InetDiagSockId := InetDiagSockId(0, 0, [0, 0, 0, 0], [0, 0, 0, 0], 0, [0, 0])

  /** `size_of::<inet_diag_sockid>()`: 2 + 2 + 16 + 16 + 4 + 8 bytes, no padding. */
  const INET_DIAG_SOCKID_SIZE: nat := 48

  function EncodeSockId(order: ByteOrder, id: InetDiagSockId): (bs: seq<u8>)
    ensures |bs| == INET_DIAG_SOCKID_SIZE
  {
    EncodeUint(order, id.sport, 2) + (EncodeUint(order, id.dport, 2) + (EncodeWords(order, id.src)
    + (EncodeWords(order, id.dst) + (EncodeUint(order, id.ifIndex, 4) + EncodeWords(order, id.cookie)))))
  }

  /** The socket identity whose memory image is `bs`. */
  function DecodeSockId(order: ByteOrder, bs: seq<u8>): (id: InetDiagSockId)
    requires |bs| == INET_DIAG_SOCKID_SIZE
    ensures EncodeSockId(order, id) == bs
  {
    Pow256Values();
    var afterSport := bs[2..];
    var afterDport := afterSport[2..];
    var afterSrc := afterDport[16..];
    var afterDst := afterSrc[16..];
    var afterIf := afterDst[4..];
    EncodeDecodeUint(order, bs[..2]);
    EncodeDecodeUint(order, afterSport[..2]);
    EncodeDecodeUint(order, afterDst[..4]);
    assert afterDst == afterDst[..4] + afterIf;
    assert afterSrc == afterSrc[..16] + afterDst;
    assert afterDport == afterDport[..16] + afterSrc;
    assert afterSport == afterSport[..2] + afterDport;
    assert bs == bs[..2] + afterSport;
    InetDiagSockId(DecodeUint(order, bs[..2]), DecodeUint(order, afterSport[..2]),
                   DecodeWords(order, afterDport[..16]), DecodeWords(order, afterSrc[..16]),
                   DecodeUint(order, afterDst[..4]), DecodeWords(order, afterIf))
  }

  lemma SockIdRoundTrip(order: ByteOrder, id: InetDiagSockId)
    ensures DecodeSockId(order, EncodeSockId(order, id)) == id
  {
    Pow256Values();
    DecodeEncodeUint(order, id.sport, 2);
    DecodeEncodeUint(order, id.dport, 2);
    WordsRoundTrip(order, id.src);
    WordsRoundTrip(order, id.dst);
    DecodeEncodeUint(order, id.ifIndex, 4);
    WordsRoundTrip(order, id.cookie);
  }

  /** `struct inet_diag_req_v2`: a socket-diagnostics dump request body. */
  datatype InetDiagReqV2 = InetDiagReqV2(
    family: u8, protocol: u8, ext: u8, pad: u8, states: u32, id: InetDiagSockId)

  /** `inet_diag_req_v2::default()`: every field zero. */
  const DEFAULT_REQUEST: InetDiagReqV2 := InetDiagReqV2(0, 0, 0, 0, 0, DEFAULT_SOCKID)

  /** `size_of::<inet_diag_req_v2>()`: four bytes, one word and the identity. */
  const INET_DIAG_REQ_V2_SIZE: nat := 56

  /** `bytes_of(&req)` for a request body. */
  function EncodeRequest(order: ByteOrder, r: InetDiagReqV2): (bs: seq<u8>)
    ensures |bs| == INET_DIAG_REQ_V2_SIZE
  {
    [r.family, r.protocol, r.ext, r.pad] + (EncodeUint(order, r.states, 4) + EncodeSockId(order, r.id))
  }

  /** How the kernel reads a request body back. */
  function DecodeRequest(order: ByteOrder, bs: seq<u8>): (r: InetDiagReqV2)
    requires |bs| == INET_DIAG_REQ_V2_SIZE
    ensures EncodeRequest(order, r) == bs
  {
    Pow256Values();
    var afterBytes := bs[4..];
    EncodeDecodeUint(order, afterBytes[..4]);
    assert afterBytes == afterBytes[..4] + afterBytes[4..];
    assert bs == [bs[0], bs[1], bs[2], bs[3]] + afterBytes;
    InetDiagReqV2(bs[0], bs[1], bs[2], bs[3], DecodeUint(order, afterBytes[..4]), DecodeSockId(order, afterBytes[4..]))
  }

  lemma RequestRoundTrip(order: ByteOrder, r: InetDiagReqV2)
    ensures DecodeRequest(order, EncodeRequest(order, r)) == r
  {
    Pow256Values();
    DecodeEncodeUint(order, r.states, 4);
    SockIdRoundTrip(order, r.id);
  }

  /** Zero words have an all-zero image. */
  lemma {:induction false} EncodeZeroWords(order: ByteOrder, ws: seq<u32>)
    requires forall i :: 0 <= i < |ws| ==> ws[i] == 0
    ensures EncodeWords(order, ws) == seq(4 * |ws|, _ => 0)
  {
    if ws != [] {
      EncodeZero(order, 4);
      EncodeZeroWords(order, ws[1..]);
    }
  }

  /** The default socket identity's image is 48 zero bytes. */
  lemma DefaultSockIdIsZero(order: ByteOrder)
    ensures EncodeSockId(order, DEFAULT_SOCKID) == seq(INET_DIAG_SOCKID_SIZE, _ => 0)
  {
    EncodeZero(order, 2);
    EncodeZero(order, 4);
    EncodeZeroWords(order, DEFAULT_SOCKID.src);
    EncodeZeroWords(order, DEFAULT_SOCKID.cookie);
  }

  /** The default request body's image is 56 zero bytes. */
  lemma DefaultRequestIsZero(order: ByteOrder)
    ensures EncodeRequest(order, DEFAULT_REQUEST) == seq(INET_DIAG_REQ_V2_SIZE, _ => 0)
  {
    EncodeZero(order, 4);
    DefaultSockIdIsZero(order);
  }
}

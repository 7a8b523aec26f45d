# Netlink socket-diagnostics client of `ss`, in Dafny

This project models the netlink half of the `ss` socket-statistics tool,
`src/netlink.rs`. That module does three jobs:

- **Length arithmetic.** It has its own versions of the netlink length
  macros: `nlmsg_align`, `nlmsg_hdrlen` and `nlmsg_length`.
- **Request building.** It builds a `SOCK_DIAG_BY_FAMILY` dump request for
  every IPv4 TCP socket. The request is an `nlmsghdr` followed by an
  `inet_diag_req_v2` that holds an `inet_diag_sockid`. It sends both
  structures to the kernel as raw memory.
- **Dump loop.** It receives the reply one message per `recvmsg` call. It
  reads each header's type and stops on `NLMSG_ERROR` or `NLMSG_DONE`, or
  when a receive fails.

The modules are:

- **`Ints`**: the fixed-width integer types and the Rust operators the
  source uses. These are `&`, `|` and `!` on unsigned values, and wrapping
  `usize` addition and subtraction.
- **`Codec`**: the memory image of the three `#[repr(C)]` structures, as an
  explicit encoder and decoder in the host's byte order. For each
  structure it proves both directions: decoding an image gives back the
  value, and every byte string of the right length is the image of what
  it decodes to.
- **`Lengths`**: `nlmsg_align`, `nlmsg_hdrlen` and `nlmsg_length` on 64-bit
  `usize`.
- **`Request`**: the request construction in `tcp_diag`, and the datagram
  that `sendmsg` gathers from it.
- **`Dump`**: `recv` and the receive loop of `tcp_diag`.
  - `recv` is a method that scatters a datagram over a zeroed header and
    the 8 KiB payload buffer.
  - The loop is a method (`ReceiveDump`) proved equal to a specification
    function (`Run`).
  - Lemmas about `Run` cover: where the session stops, what it depends on,
    and how it treats short datagrams and `NLM_F_MULTI`.

The socket is replaced by its inputs: the sequence of results that the
successive `recvmsg` calls would return. Each result is an error number or
one datagram. A session that uses up its inputs without stopping ends in
the outcome `Waiting`, which stands for the real program blocking in
`recvmsg`.

Three behaviours of the code shape the model:

- **Short datagrams.** `recv` never checks the received byte count.
  Header bytes that a short datagram does not reach keep their default
  zero. A datagram of four bytes or fewer therefore reads as message
  type 0, and the loop goes on to the next receive
  (`Dump.TruncatedDatagramContinues`).
- **`NLMSG_OVERRUN`.** It is ignored like `NLMSG_NOOP` and data messages:
  the loop continues and nothing records it (`Dump.HeaderStopsIff`).
- **`NLMSG_ERROR`.** It leaves the loop exactly as `NLMSG_DONE` does. The
  model keeps the two stop reasons apart (`KernelError` and `DumpDone`),
  but neither carries more information.

## Model

| member | source | states |
|---|---|---|
| Ints.NotUsize | src/netlink.rs:165 | `!m` on a 64-bit `usize` shares no bit with `m`, and the two together have all 64 bits |
| Ints.ComplementBits | src/netlink.rs:165 | two values that add up to n one-bits have no bit in common and together have all n |
| Ints.WrappingAdd | src/netlink.rs:165 | `a + b` on `usize` in a release build is the sum modulo 2^64 |
| Ints.WrappingSub | src/netlink.rs:165 | `a - b` on `usize` in a release build is the difference modulo 2^64 |
| Ints.BitAndClearsLowTwoBits | src/netlink.rs:165 | `x & !3` on a 64-bit `usize` is `x` rounded down to a multiple of 4 |
| Ints.BitOrDumpFlags | src/netlink.rs:39-59 | `NLM_F_ROOT \| NLM_F_MATCH` is 0x300 and `NLM_F_REQUEST \| NLM_F_DUMP` is 0x301 |
| Codec.NlmFDump | src/netlink.rs:59 | `NLM_F_DUMP` is 0x300 |
| Codec.DecodeEncodeUint | src/netlink.rs:188-200 | decoding the n-byte image of an integer below 256^n gives back the integer, in either byte order |
| Codec.EncodeDecodeUint | src/netlink.rs:188-200 | encoding a decoded byte string gives back the bytes, in either byte order |
| Codec.EncodeHeader | src/netlink.rs:188-193 | the memory image of a header is 16 bytes, its fields back to back |
| Codec.HeaderRoundTrip | src/netlink.rs:79-86 | decoding the 16-byte image of any `nlmsghdr` gives back the header, in either byte order |
| Codec.HeaderBytesRoundTrip | src/netlink.rs:195-200 | every 16-byte string is the image of the header decoded from it |
| Codec.DefaultHeaderIsZero | src/netlink.rs:88-98 | `DEFAULT_HEADER`, the default header, has an image of sixteen zero bytes |
| Codec.DecodeWords | src/netlink.rs:117-120 | the words decoded from a byte string have that string as their image |
| Codec.EncodeZeroWords | src/netlink.rs:129-132 | zero-filled `u32` arrays have an all-zero image |
| Codec.WordsRoundTrip | src/netlink.rs:117-120 | the `u32` arrays of the socket id decode back from their image |
| Codec.EncodeSockId | src/netlink.rs:113-121 | the memory image of a socket id is 48 bytes |
| Codec.DecodeSockId | src/netlink.rs:113-121 | the socket id decoded from 48 bytes has those bytes as its image |
| Codec.SockIdRoundTrip | src/netlink.rs:113-121 | decoding the 48-byte image of any `inet_diag_sockid` gives back the id |
| Codec.DefaultSockIdIsZero | src/netlink.rs:124-135 | `DEFAULT_SOCKID`, the default socket id, has an image of 48 zero bytes |
| Codec.EncodeRequest | src/netlink.rs:138-146 | the memory image of a request body is 56 bytes |
| Codec.DecodeRequest | src/netlink.rs:138-146 | the request body decoded from 56 bytes has those bytes as its image |
| Codec.RequestRoundTrip | src/netlink.rs:138-146 | decoding the 56-byte image of any `inet_diag_req_v2` gives back the request |
| Codec.DefaultRequestIsZero | src/netlink.rs:148-159 | `DEFAULT_REQUEST`, the default request body, has an image of 56 zero bytes |
| Lengths.NlmsgAlign | src/netlink.rs:161-166 | the result is a multiple of 4 and lies in `[value, value + 4)`; for the three values where `value + 3` wraps, it is 0 |
| Lengths.AlignNearTop | src/netlink.rs:163-166 | among the four largest `usize` values, where `value + 4` wraps, the largest multiple of 4 aligns to itself and the other three align to 0 |
| Lengths.AlignMask | src/netlink.rs:165 | the mask expression equals `4 * ((value + 3) / 4)` without overflow and 0 with it |
| Lengths.AlignIsRoundUp | src/netlink.rs:163-166 | without overflow, `nlmsg_align(v)` is the arithmetic round-up `((v + 3) / 4) * 4` |
| Lengths.AlignFixesAligned | src/netlink.rs:163-166 | a multiple of 4 is left unchanged |
| Lengths.AlignIdempotent | src/netlink.rs:163-166 | aligning twice is the same as aligning once |
| Lengths.NlmsgHdrlen | src/netlink.rs:168-171 | the aligned header length is 16 |
| Lengths.NlmsgLength | src/netlink.rs:173-176 | without overflow, the length is a multiple of 4 within 4 bytes above header plus payload size |
| Lengths.EmptyPayloadLength | src/netlink.rs:173-176 | a message with an empty payload is as long as its header |
| Lengths.RequestLength | src/netlink.rs:173-176 | the length of a header plus an `inet_diag_req_v2` is 16 + 56 = 72 |
| Request.RequestDatagram | src/netlink.rs:254-255 | the gathered datagram is 72 bytes long |
| Request.RequestDatagramDecodes | src/netlink.rs:254-255 | the kernel decodes the header from the first 16 bytes and the request body from the rest |
| Request.BuildTcpDiagRequest | src/netlink.rs:243-252 | the header is type 20, length 72 (= `nlmsg_length` of the body), flags 0x301, sequence and port 0; the body is `AF_INET`, `IPPROTO_TCP`, all states, every other field zero; in both byte orders the gathered datagram is a TCP dump request whose declared length is its own length |
| Dump.ReceivedHeader | src/netlink.rs:292-309 | a datagram of at least 16 bytes yields the header decoded from its first 16 bytes |
| Dump.Receive | src/netlink.rs:299-309 | `recv` fails exactly when the receive fails, and passes its error on unchanged |
| Dump.ReceivedEncodedHeader | src/netlink.rs:292-309 | a datagram that starts with a header's image yields that header, whatever follows |
| Dump.ReceivedShortHeader | src/netlink.rs:292-309 | a datagram shorter than 16 bytes is not rejected; it is read as if padded with zero bytes |
| Dump.Recv | src/netlink.rs:292-309 | returns the receive error or the received header; on a datagram, the payload buffer holds the bytes after the header up to its capacity and keeps its old contents beyond them; on an error, the buffer is unchanged |
| Dump.RecvIntoFreshBuffer | src/netlink.rs:258-260 | a receive into a fresh zeroed 8 KiB buffer yields the reply `Receive` gives |
| Dump.Classify | src/netlink.rs:273-284 | types 1, 2, 3 and 4 are exactly the noop, error, done and overrun classes, and every other type is data |
| Dump.ReplyAction | src/netlink.rs:260-284 | the loop stops exactly on a receive error, `NLMSG_ERROR` or `NLMSG_DONE`; a receive error stops it with that error |
| Dump.HeaderStopsIff | src/netlink.rs:273-284 | a header stops the loop if and only if its type is `NLMSG_ERROR` or `NLMSG_DONE`, with those two outcomes |
| Dump.IsMultipart | src/netlink.rs:267-272 | the multipart report is true exactly when bit 1 (`NLM_F_MULTI`) of the flags is set |
| Dump.SendTcpDiagRequest | src/netlink.rs:243-255 | the datagram sent is a TCP dump request |
| Dump.ReceiveDump | src/netlink.rs:257-289 | the loop's session (outcome and number of receives) equals `Run` of its inputs |
| Dump.TcpDiag | src/netlink.rs:240-290 | sends a TCP dump request, then runs the receive loop to the session `Run` gives |
| Dump.Run | src/netlink.rs:257-289 | a session makes at most one receive per input; a waiting session has used every input, and an ended one made at least one receive |
| Dump.RunCons | src/netlink.rs:257-289 | a session is one receive followed by the session over the rest, unless that receive stops the loop |
| Dump.RunStopsAtFirstStop | src/netlink.rs:257-289 | if the first k actions continue and action k stops, the session ends with that outcome after k + 1 receives |
| Dump.RunWaitsWhenNothingStops | src/netlink.rs:257-289 | if no action stops the loop, the session consumes them all and waits |
| Dump.RunShape | src/netlink.rs:257-289 | conversely, every session has at most as many receives as actions; all receives before the last continued; the last one stopped the loop, or the actions ran out |
| Dump.SessionShape | src/netlink.rs:257-289 | the same shape, stated for receive results |
| Dump.RunDependsOnlyOnTypes | src/netlink.rs:257-289 | the session depends only on the receive errors and the headers' types, not on lengths, flags, sequence numbers, port ids or payloads |
| Dump.SameFirstStep | src/netlink.rs:257-289 | two first receives on which the loop acts alike lead to the same session |
| Dump.MultipartFlagIgnored | src/netlink.rs:267-284 | changing a header's flags, `NLM_F_MULTI` included, does not change the session |
| Dump.TruncatedDatagramContinues | src/netlink.rs:292-309 | a datagram of at most 4 bytes reads as message type 0 and costs one receive; the loop continues |
| Dump.EncodedStep | src/netlink.rs:260-284 | the action on a datagram that starts with a header's image is the action for that header |
| Dump.DoneFirst | src/netlink.rs:278-281 | an `NLMSG_DONE` first message ends the session cleanly after one receive |
| Dump.ErrorFirst | src/netlink.rs:274-276 | an `NLMSG_ERROR` first message ends the session after one receive |
| Dump.RecvErrorFirst | src/netlink.rs:261-264 | a receive error ends the session at once and carries the error |
| Dump.OtherFirst | src/netlink.rs:277-283 | a first message of any other type costs one receive and leaves the rest of the session as it was |
| Dump.DumpThenDone | src/netlink.rs:257-289 | any number of messages that are neither `NLMSG_ERROR` nor `NLMSG_DONE`, then `NLMSG_DONE`, end cleanly after one receive per message; nothing after `NLMSG_DONE` is received |

## Left out

- Socket I/O is left out: `Netlink::new`, `bind`, the destination address and `Drop`'s `close`. Opening, binding and closing the socket are not modelled. The results of `recvmsg` are the loop's inputs.
- The result of `sendmsg` is ignored by the source. The model only produces the datagram that would be sent.
- `bytes_of`, `mut_bytes_of`, `as_iovec` and `as_mut_iovec` reinterpret memory with `unsafe` code. They are replaced by the explicit byte codec in `Codec`, with the host byte order as a parameter.
- The `#[repr(C)]` layout is taken as having no padding. Every field of the three structures sits at a multiple of its own alignment. The sizes 16, 48 and 56 are constants that the codec's length proofs confirm.
- `usize` is fixed at 64 bits.
- Lengths.NlmsgAlign: a debug build panics when `value + 4` overflows, which happens for the four largest values. The model gives the release build's result instead: 0 for the three values where `value + 3` wraps, and the value itself for the largest multiple of 4.
- `fmt::Display` for `nlmsghdr` and all `println!` output are not modelled. That includes the multipart report, which only prints (`Dump.IsMultipart` states its value).
- The `NETLINK_*` protocol constants and the unused flags and message types (`NLM_F_ACK`, `NLM_F_ECHO`, `NLM_F_DUMP_INTR`, `NLM_F_DUMP_FILTERED`, `NLM_F_ATOMIC`, `TCPDIAG_GETSOCK`, `SOCK_DESTROY`) are not modelled, since nothing in the core uses them.
- The `discard!` macro is not modelled. It serves only `Drop`.
- `src/main.rs` and the rest of the tool are not part of this model.
- A datagram holding several netlink messages is read as one header and a payload, as the code does. The later messages, the `NLMSG_ERROR` payload and the `inet_diag_msg` records are never parsed.
- Dump.Recv: a datagram longer than 16 + 8192 bytes loses its excess bytes, as with a real `recvmsg`. The truncation flag is not modelled.
- Dump.Recv: after a failed receive, the buffers are taken to be unchanged.
- Blocking forever in `recvmsg` is modelled as the outcome `Waiting` when the inputs run out.

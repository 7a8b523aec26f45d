/** Netlink length arithmetic: `nlmsg_align`, `nlmsg_hdrlen` and
    `nlmsg_length`, the client's versions of the `NLMSG_ALIGN()`,
    `NLMSG_HDRLEN` and `NLMSG_LENGTH()` macros of netlink(7).

    Arithmetic is on 64-bit `usize` as a release build computes it: the
    additions wrap around. */
module Lengths {
  import opened Ints
  import opened Codec

  const NLMSG_ALIGNTO: usize := 4

  /** `nlmsg_align`: `(value + NLMSG_ALIGNTO - 1) & !(NLMSG_ALIGNTO - 1)`.
      Rounds up to the next multiple of 4. The additions wrap as in a
      release build: `value + 4` wraps for the four largest `usize` values
      and the `- 1` wraps back, so the result is that value for the largest
      multiple of 4 and 0 for the three values above it. */
  function NlmsgAlign(value: usize): (r: usize)
    ensures r % NLMSG_ALIGNTO == 0
    ensures value + NLMSG_ALIGNTO - 1 < USIZE_MODULUS ==> value <= r < value + NLMSG_ALIGNTO
    ensures value + NLMSG_ALIGNTO - 1 >= USIZE_MODULUS ==> r == 0
  {
    AlignMask(value);
    RoundUpBounds(value);
    BitAnd(WrappingSub(WrappingAdd(value, NLMSG_ALIGNTO), 1), NotUsize(NLMSG_ALIGNTO - 1))
  }

  /** What the mask expression of `nlmsg_align` evaluates to: the round-up
      of `value + 3` down to a multiple of 4, or 0 once the addition wraps. */
  lemma AlignMask(value: usize)
    ensures BitAnd(WrappingSub(WrappingAdd(value, NLMSG_ALIGNTO), 1), NotUsize(NLMSG_ALIGNTO - 1)) ==
      if value + 3 < USIZE_MODULUS then 4 * ((value + 3) / 4) else 0
  {
    var sum := WrappingSub(WrappingAdd(value, NLMSG_ALIGNTO), 1);
    AlignSum(value);
    BitAndClearsLowTwoBits(sum);
    if value + 3 < USIZE_MODULUS {
      assert sum == value + 3;
    } else {
      assert sum < 3;
      assert sum / 4 == 0;
    }
  }

  /** Rounding `v + 3` down to a multiple of 4 rounds `v` up. */
  lemma RoundUpBounds(v: nat)
    ensures (4 * ((v + 3) / 4)) % 4 == 0
    ensures v <= 4 * ((v + 3) / 4) < v + 4
  {
  }

  /** `value + NLMSG_ALIGNTO - 1` in wrapping `usize` arithmetic. */
  lemma AlignSum(value: usize)
    ensures value + 3 < USIZE_MODULUS ==> WrappingSub(WrappingAdd(value, NLMSG_ALIGNTO), 1) == value + 3
    ensures value + 3 >= USIZE_MODULUS ==> WrappingSub(WrappingAdd(value, NLMSG_ALIGNTO), 1) == value + 3 - USIZE_MODULUS
  {
  }

  /** The mask expression is the arithmetic round-up `((v + 3) / 4) * 4`
      whenever `v + 3` does not overflow. */
  lemma AlignIsRoundUp(v: usize)
    requires v + 3 < USIZE_MODULUS
    ensures NlmsgAlign(v) == ((v + 3) / 4) * 4
  {
    AlignMask(v);
  }

  /** A length that is already a multiple of 4 is left as it is. */
  lemma AlignFixesAligned(v: usize)
    requires v % NLMSG_ALIGNTO == 0
    ensures NlmsgAlign(v) == v
  {
  }

  /** Aligning twice is aligning once. */
  lemma AlignIdempotent(v: usize)
    ensures NlmsgAlign(NlmsgAlign(v)) == NlmsgAlign(v)
  {
    AlignFixesAligned(NlmsgAlign(v));
  }

  /** At the top of `usize`: the largest multiple of 4 is its own alignment,
      and the three values above it align to 0. */
  lemma AlignNearTop(v: usize)
    requires v >= 0xFFFF_FFFF_FFFF_FFFC
    ensures NlmsgAlign(v) == if v == 0xFFFF_FFFF_FFFF_FFFC then v else 0
  {
  }

  /** `nlmsg_hdrlen`: the aligned size of `nlmsghdr`, 16 bytes. */
  function NlmsgHdrlen(): (n: usize)
    ensures n == NLMSGHDR_SIZE
  {
    AlignFixesAligned(NLMSGHDR_SIZE);
    NlmsgAlign(NLMSGHDR_SIZE)
  }

  /** `nlmsg_length::<T>()` for a payload type of `payloadSize` bytes: the
      header length plus the payload size rounded up to a multiple of 4. */
  function NlmsgLength(payloadSize: usize): (n: usize)
    ensures payloadSize + NlmsgHdrlen() + 3 < USIZE_MODULUS ==>
      n % NLMSG_ALIGNTO == 0 && NlmsgHdrlen() + payloadSize <= n < NlmsgHdrlen() + payloadSize + NLMSG_ALIGNTO
  {
    var aligned := NlmsgAlign(payloadSize);
    assert aligned == 4 * (aligned / 4);
    WrappingAdd(NlmsgHdrlen(), aligned)
  }

  /** A message with no payload is just its header. */
  lemma EmptyPayloadLength()
    ensures NlmsgLength(0) == NlmsgHdrlen()
  {
  }

  /** The length of a header followed by an `inet_diag_req_v2`: 16 + 56. */
  lemma RequestLength()
    ensures NlmsgLength(INET_DIAG_REQ_V2_SIZE) == NLMSGHDR_SIZE + INET_DIAG_REQ_V2_SIZE == 72
  {
  }
}

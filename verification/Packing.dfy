// The header of a packet: a length that counts itself.

module Packing {
  import opened Bytes
  import opened VarInt

  const MAX_PACKET: nat := 8 * 1024 * 1024 - 1024

  /** Bytes kept free in front of a body for the header. */
  const RESERVED: nat := 4

  /** The length Packer::Pack stores for a body of n bytes. */
  function PackedLength(n: nat): nat {
    if RESERVED + n >= 0x8002 then RESERVED + n - 1 else RESERVED + n - 2
  }

  function Frame(body: seq<uint8>): seq<uint8> {
    EncodeVar(PackedLength(|body|)) + body
  }

  /** What BodySize and Body make of the stored length. */
  function BodySizeOf(length: nat): int {
    if length >= 0x8000 then length - 3 else length - 2
  }

  /** What Pack accepts and stores, in figures: bodies up to 8387579 bytes, a header of two bytes up to
      a body of 0x7FFD, and of three from there on. */
  lemma PackedLengthIs(n: nat)
    ensures RESERVED + n < MAX_PACKET <==> n <= 8_387_579
    ensures PackedLength(n) == if n <= 0x7FFD then n + 2 else n + 3
  {
  }

  /** The stored length is the size of its own code plus the size of the body; it fits the code,
      is never 0x8000, and gives the body size back. */
  lemma PackedLengthSolves(n: nat)
    requires RESERVED + n < MAX_PACKET
    ensures var L := PackedLength(n);
            && L == VarLen(L) + n
            && L != 0x8000 && L < VAR_LIMIT
            && (VarLen(L) == 3 <==> RESERVED + n >= 0x8002)
            && BodySizeOf(L) == n
  {
  }

  /** It is the least solution of that equation, and the only one except for bodies of 0x7FFD bytes,
      which would also allow 0x8000. */
  lemma PackedLengthLeast(n: nat, other: nat)
    requires other == VarLen(other) + n
    ensures PackedLength(n) <= other
    ensures other != PackedLength(n) <==> n == 0x7FFD && other == 0x8000
  {
  }

  /** In front of anything, a frame announces its own size and its body starts right behind the
      announcement. */
  lemma FrameAnnouncesItself(s: seq<uint8>, p: nat, q: nat, body: seq<uint8>)
    requires RESERVED + |body| < MAX_PACKET && Spans(s, p, q, Frame(body))
    ensures |Frame(body)| == PackedLength(|body|)
    ensures DecodeVar(s, p) == Some((PackedLength(|body|), p + VarLen(PackedLength(|body|))))
    ensures Spans(s, p + VarLen(PackedLength(|body|)), q, body)
  {
    var L := PackedLength(|body|);
    PackedLengthSolves(|body|);
    var m := p + VarLen(L);
    SpansConcat(s, p, m, q, EncodeVar(L), body);
    VarRead(s, p, m, L);
  }
}

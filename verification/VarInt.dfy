// The 15-bit / 23-bit variable-length integer that heads strings, containers and packets.

module VarInt {
  import opened Bytes

  const VAR_LIMIT: nat := 0x80_0000  // 2^23

  function VarLen(value: nat): (n: nat) {
    if value < 0x8000 then 2 else 3
  }

  /** The bytes Packer::PushVariableUint32 stores. */
  function EncodeVar(value: nat): (s: seq<uint8>)
    ensures |s| == VarLen(value)
  {
    if value < 0x8000 then ToLE(value, 2)
    else LongCode(value % 0x8000, value / 0x8000 % 256)
  }

  /** Fifteen low bits under a set flag, then the eight upper bits. */
  function LongCode(low: nat, top: uint8): (s: seq<uint8>)
    ensures |s| == 3
  {
    ToLE(low + 0x8000, 2) + [top]
  }

  /** What Unpacker::PopVariableUint32 reads at pos and where it leaves the cursor; None when it
      would read outside the buffer. */
  function DecodeVar(s: seq<uint8>, pos: nat): (r: Option<(nat, nat)>)
    ensures r.Some? ==> r.value.0 < VAR_LIMIT && pos + 2 <= r.value.1 <= |s|
  {
    if |s| < pos + 2 then None
    else
      var word := Word(s[pos], s[pos + 1]);
      if word < 0x8000 then Some((word, pos + 2))
      else if |s| < pos + 3 then None
      else Some((s[pos + 2] * 0x8000 + word % 0x8000, pos + 3))
  }

  lemma VarCode(value: nat)
    ensures value < 0x8000 ==> EncodeVar(value) == ToLE(value, 2)
    ensures value >= 0x8000 ==> EncodeVar(value) == ToLE(value % 0x8000 + 0x8000, 2) + [value / 0x8000 % 256]
  {
  }

  lemma CodeWord(value: nat)
    ensures var code := EncodeVar(value);
            && (Word(code[0], code[1]) < 0x8000 <==> value < 0x8000)
            && Word(code[0], code[1]) % 0x8000 == value % 0x8000
            && (value >= 0x8000 ==> code[2] == value / 0x8000 % 256)
  {
    var word := if value < 0x8000 then value else value % 0x8000 + 0x8000;
    ToLE2(word);
    assert EncodeVar(value)[..2] == ToLE(word, 2);
    assert word / 256 % 256 == word / 256;
    assert Word(EncodeVar(value)[0], EncodeVar(value)[1]) == word;
  }

  lemma ShiftBack(value: nat)
    ensures value / 0x8000 % 256 * 0x8000 + value % 0x8000 == value % VAR_LIMIT
  {
    var q, r := value / 0x8000, value % 0x8000;
    var hi, lo := q / 256, q % 256;
    assert value == hi * VAR_LIMIT + (lo * 0x8000 + r);
    assert 0 <= lo * 0x8000 + r < VAR_LIMIT;
  }

  /** Every integer is encoded, but only its 23 low bits come back, with the cursor right behind
      the code: the integer survives exactly when it is below 2^23. */
  lemma VarRoundTrip(s: seq<uint8>, pos: nat, next: nat, value: nat)
    requires Spans(s, pos, next, EncodeVar(value))
    ensures DecodeVar(s, pos) == Some((value % VAR_LIMIT, next))
    ensures value % VAR_LIMIT == value <==> value < VAR_LIMIT
  {
    CodeWord(value);
    ShiftBack(value);
    DecodeCopied(s, pos, next, EncodeVar(value));
  }

  lemma DecodeCopied(s: seq<uint8>, pos: nat, next: nat, code: seq<uint8>)
    requires 2 <= |code| <= 3 && Spans(s, pos, next, code)
    requires |code| == 2 <==> Word(code[0], code[1]) < 0x8000
    ensures DecodeVar(s, pos) ==
            Some((if |code| == 2 then Word(code[0], code[1]) % 0x8000
                  else code[2] * 0x8000 + Word(code[0], code[1]) % 0x8000, next))
  {
    SpansIndex(s, pos, next, code, 0);
    SpansIndex(s, pos, next, code, 1);
    if |code| == 3 {
      SpansIndex(s, pos, next, code, 2);
    }
  }

  lemma VarRead(s: seq<uint8>, pos: nat, next: nat, n: nat)
    requires n < VAR_LIMIT && Spans(s, pos, next, EncodeVar(n))
    ensures DecodeVar(s, pos) == Some((n, next))
  {
    VarRoundTrip(s, pos, next, n);
  }

  /** No code is a proper prefix of another one: from the same bytes two codes give one integer. */
  lemma VarPrefixFree(a: nat, b: nat, x: seq<uint8>, y: seq<uint8>)
    requires a < VAR_LIMIT && b < VAR_LIMIT
    requires EncodeVar(a) + x == EncodeVar(b) + y
    ensures a == b && x == y
  {
    var s := EncodeVar(a) + x;
    assert s[..|EncodeVar(a)|] == EncodeVar(a) && s[..|EncodeVar(b)|] == EncodeVar(b);
    VarRead(s, 0, |EncodeVar(a)|, a);
    VarRead(s, 0, |EncodeVar(b)|, b);
    assert x == s[|EncodeVar(a)|..] && y == s[|EncodeVar(b)|..];
  }

  /** Two stored bytes are the little-endian form of the word they hold. */
  lemma WordIsLE(lo: uint8, hi: uint8)
    ensures ToLE(Word(lo, hi), 2) == [lo, hi]
  {
    ToLE2(Word(lo, hi));
    assert Word(lo, hi) / 256 == hi;
  }

  lemma ShortCode(lo: uint8, hi: uint8)
    requires Word(lo, hi) < 0x8000
    ensures EncodeVar(Word(lo, hi)) == [lo, hi]
  {
    VarCode(Word(lo, hi));
    WordIsLE(lo, hi);
  }

  lemma LongCodeBytes(lo: uint8, hi: uint8, top: uint8)
    requires Word(lo, hi) >= 0x8000
    ensures LongCode(Word(lo, hi) % 0x8000, top) == [lo, hi, top]
  {
    assert Word(lo, hi) % 0x8000 + 0x8000 == Word(lo, hi);
    WordIsLE(lo, hi);
  }

  lemma Quotient(top: nat, low: nat)
    requires low < 0x8000
    ensures (top * 0x8000 + low) / 0x8000 == top && (top * 0x8000 + low) % 0x8000 == low
  {
  }

  lemma EncodeJoined(low: nat, top: uint8)
    requires low < 0x8000
    ensures EncodeVar(top * 0x8000 + low) == LongCode(low, top) <==> top != 0
  {
    Quotient(top, low);
    if top != 0 {
      assert top % 256 == top;
    } else {
      assert |EncodeVar(low)| == 2;
    }
  }

  /** The stored bytes: two with the integer below 2^15; else three, of which the second has its top
      bit set, and the fifteen low bits come before the eight upper ones. */
  lemma VarCodeBytes(value: nat)
    ensures value < 0x8000 ==> EncodeVar(value) == [value % 256, value / 256]
    ensures value >= 0x8000 ==>
            EncodeVar(value) == [value % 256, value / 256 % 128 + 128, value / 0x8000 % 256]
  {
    hide ToLE;
    LowWord(value);
    ToLE2(value);
    ToLE2(value % 0x8000 + 0x8000);
  }

  lemma LowWord(value: nat)
    ensures value < 0x8000 ==> value / 256 % 256 == value / 256
    ensures (value % 0x8000 + 0x8000) % 256 == value % 256
    ensures (value % 0x8000 + 0x8000) / 256 % 256 == value / 256 % 128 + 128
  {
    var q, r := value / 0x8000, value % 0x8000;
    var hi, lo := r / 256, r % 256;
    assert value == 256 * (128 * q + hi) + lo;
    assert value / 256 == 128 * q + hi && value % 256 == lo;
  }

  lemma WordMeans(lo: uint8, hi: uint8)
    ensures Word(lo, hi) == lo as nat + 256 * hi as nat
    ensures Word(lo, hi) < 0x8000 <==> hi < 128
    ensures hi >= 128 ==> Word(lo, hi) % 0x8000 == lo as nat + 256 * (hi as nat - 128)
  {
    var low: nat := Word(lo, hi);
    assert hi >= 128 ==> low == 0x8000 + (lo + 256 * (hi - 128));
  }

  /** The integer that is read, byte by byte. */
  lemma DecodeVarMeans(s: seq<uint8>, pos: nat)
    requires pos + 3 <= |s|
    ensures var lo: nat := s[pos]; var hi: nat := s[pos + 1]; var top: nat := s[pos + 2];
            DecodeVar(s, pos) == if hi < 128 then Some((lo + 256 * hi, pos + 2))
                                 else Some((lo + 256 * (hi - 128) + 0x8000 * top, pos + 3))
  {
    hide Word;
    WordMeans(s[pos], s[pos + 1]);
  }

  /** The decoder is laxer than the encoder: what it reads is what the encoder would have
      written, unless a three-byte code holds an integer that fits in two bytes. */
  lemma VarCanonical(s: seq<uint8>, pos: nat)
    requires DecodeVar(s, pos).Some?
    ensures var (v, next) := DecodeVar(s, pos).value;
            EncodeVar(v) == s[pos..next] <==> !(next == pos + 3 && s[pos + 2] == 0)
  {
    hide EncodeVar, ToLE, LongCode;
    var (v, next) := DecodeVar(s, pos).value;
    if next == pos + 2 {
      ShortCode(s[pos], s[pos + 1]);
      assert s[pos..next] == [s[pos], s[pos + 1]];
    } else {
      LongCodeBytes(s[pos], s[pos + 1], s[pos + 2]);
      EncodeJoined(Word(s[pos], s[pos + 1]) % 0x8000, s[pos + 2]);
      assert s[pos..next] == [s[pos], s[pos + 1], s[pos + 2]];
    }
  }

  /** The smallest length that does not come back. */
  lemma TwoTo23IsLost()
    ensures DecodeVar(EncodeVar(0x80_0000), 0) == Some((0, 3))
  {
    var code := EncodeVar(0x80_0000);
    assert Spans(code, 0, |code|, code) by {
      assert code[0..|code|] == code;
    }
    VarRoundTrip(code, 0, |code|, 0x80_0000);
    assert |code| == 3;
  }
}

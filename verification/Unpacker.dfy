// base::Unpacker: reads values back, moving a cursor through a received packet.

module Unpackers {
  import opened Bytes
  import opened VarInt
  import opened Values
  import opened Wire

  class Unpacker {
    const buffer: seq<uint8>
    var position: nat

    /** The constructor and Initialize: the length in front is consumed. */
    constructor (data: seq<uint8>)
      requires DecodeVar(data, 0).Some?
      ensures buffer == data && position == DecodeVar(data, 0).value.1
    {
      buffer := data;
      position := 0;
      new;
      var length := PopVariableUint32();
    }

    /** Back to the first value behind the length. */
    method Rewind()
      requires DecodeVar(buffer, 0).Some?
      modifies this
      ensures position == DecodeVar(buffer, 0).value.1
    {
      position := 0;
      var length := PopVariableUint32();
    }

    method PopVariableUint32() returns (v: nat)
      requires DecodeVar(buffer, position).Some?
      modifies this
      ensures Some((v, position)) == DecodeVar(buffer, old(position))
    {
      var word := Word(buffer[position], buffer[position + 1]);
      if word < 0x8000 {
        v := word;
        position := position + 2;
      } else {
        var upper: nat := buffer[position + 2];
        v := upper * 0x8000 + word % 0x8000;
        position := position + 3;
      }
    }

    /** PopUint8 .. PopUint64, PopDouble; signed integers are cast from the unsigned ones. */
    method PopFixed(w: nat, signed: bool) returns (n: int)
      requires position + w <= |buffer|
      modifies this
      ensures Some((VInt(n), position)) == Decode(buffer, old(position), TInt(w, signed))
      ensures position == old(position) + w
      ensures if signed then -(Pow256(w) as int) <= 2 * n < Pow256(w) else 0 <= n < Pow256(w)
      ensures w > 0 ==>
        forall k | 0 <= k < w :: (if n < 0 then n + Pow256(w) else n) / Pow256(k) % 256 == buffer[old(position)..][k]
    {
      ghost var bytes := buffer[position..position + w];
      ReadBytes(bytes);
      FromLEBound(bytes);
      assert forall k | 0 <= k < w :: bytes[k] == buffer[position..][k];
      n := FromTwos(FromLE(buffer[position..position + w]), Pow256(w), signed);
      position := position + w;
    }

    /** PopString and PopBuffer. */
    method PopBytes() returns (r: seq<uint8>)
      requires Decode(buffer, position, TBytes).Some?
      modifies this
      ensures Some((VBytes(r), position)) == Decode(buffer, old(position), TBytes)
    {
      var len := PopVariableUint32();
      r := buffer[position..position + len];
      position := position + len;
    }

    /** operator>> into an empty target. Where the specification decodes, no read leaves the buffer. */
    method PopValue(t: Type) returns (v: Value)
      requires Decode(buffer, position, t).Some?
      modifies this
      ensures Some((v, position)) == Decode(buffer, old(position), t)
      decreases t, 2
    {
      match t
      case TBool =>
        v := VBool(buffer[position] == 1);
        position := position + 1;
      case TInt(w, signed) =>
        var n := PopFixed(w, signed);
        v := VInt(n);
      case TBytes =>
        var bs := PopBytes();
        v := VBytes(bs);
      case TSeq(kind, e) =>
        var es := PopContainer(kind, e);
        v := VSeq(es);
      case TRec(fs) =>
        var es := PopFields(fs);
        v := VSeq(es);
    }

    /** Reads a count, then that many elements, each appended or inserted as it arrives. */
    method PopContainer(kind: Kind, e: Type) returns (es: seq<Value>)
      requires DecodeVar(buffer, position).Some?
      requires DecodeAll(buffer, DecodeVar(buffer, position).value.1, e, DecodeVar(buffer, position).value.0).Some?
      modifies this
      ensures var (count, start) := DecodeVar(buffer, old(position)).value;
              var (raw, next) := DecodeAll(buffer, start, e, count).value;
              es == Build(kind, raw) && Collects(kind, es, raw) && position == next
      decreases e, 3
    {
      hide Decode, DecodeVar, Add, Collects;
      var count := PopVariableUint32();
      ghost var start, raw := position, [];
      es := [];
      for i := 0 to count
        invariant DecodeAll(buffer, start, e, i) == Some((raw, position)) && es == Build(kind, raw)
      {
        DecodeAllPrefix(buffer, start, e, i, count);
        var x := PopValue(e);
        es := Add(kind, es, x);
        BuildNext(kind, raw, x);
        raw := raw + [x];
      }
      BuildCollects(kind, raw);
    }

    /** Reads the members of a pair or a packable struct, first to last. */
    method PopFields(fs: seq<Type>) returns (es: seq<Value>)
      requires DecodeFields(buffer, position, fs).Some?
      modifies this
      ensures Some((es, position)) == DecodeFields(buffer, old(position), fs)
      decreases fs, 0
    {
      es := [];
      ghost var start := position;
      assert fs[..0] == [];
      for i := 0 to |fs|
        invariant DecodeFields(buffer, start, fs[..i]) == Some((es, position))
      {
        DecodeFieldsPrefix(buffer, start, fs, i);
        var x := PopValue(fs[i]);
        es := es + [x];
      }
      assert fs[..|fs|] == fs;
    }
  }

  lemma ReadBytes(s: seq<uint8>)
    ensures forall k | 0 <= k < |s| :: FromLE(s) / Pow256(k) % 256 == s[k]
  {
    forall k | 0 <= k < |s|
      ensures FromLE(s) / Pow256(k) % 256 == s[k]
    {
      FromLEByte(s, k);
    }
  }

  lemma BuildNext(kind: Kind, raw: seq<Value>, x: Value)
    ensures Build(kind, raw + [x]) == Add(kind, Build(kind, raw), x)
  {
    assert (raw + [x])[..|raw|] == raw;
  }

  /** If n elements can be read, so can any i of them, and the next one after those. */
  lemma {:induction false} DecodeAllPrefix(s: seq<uint8>, pos: nat, e: Type, i: nat, n: nat)
    requires i < n && DecodeAll(s, pos, e, n).Some?
    ensures DecodeAll(s, pos, e, i).Some?
    ensures Decode(s, DecodeAll(s, pos, e, i).value.1, e).Some?
    decreases n
  {
    if i < n - 1 {
      DecodeAllPrefix(s, pos, e, i, n - 1);
    }
  }

  lemma {:induction false} DecodeFieldsPrefix(s: seq<uint8>, pos: nat, fs: seq<Type>, i: nat)
    requires i < |fs| && DecodeFields(s, pos, fs).Some?
    ensures DecodeFields(s, pos, fs[..i]).Some?
    ensures Decode(s, DecodeFields(s, pos, fs[..i]).value.1, fs[i]).Some?
    ensures fs[..i + 1][..i] == fs[..i]
  {
    if i < |fs| - 1 {
      DecodeFieldsPrefix(s, pos, fs[..|fs| - 1], i);
      assert fs[..|fs| - 1][..i] == fs[..i];
    }
  }
}

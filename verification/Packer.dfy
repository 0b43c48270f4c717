// base::Packer: appends values to a growing buffer and puts the packet header in front of them.

module Packers {
  import opened Bytes
  import opened VarInt
  import opened Values
  import opened Wire
  import opened Packing
  import opened Memory
  import opened SliceOps
  import opened Slices

  function Max(a: int, b: int): int {
    if a < b then b else a
  }

  /** The bytes w with b laid over them from index i on, which may reach past either end. */
  function Overlay(w: seq<uint8>, i: int, b: seq<uint8>): (r: seq<uint8>)
    ensures |r| == |w|
  {
    seq(|w|, k requires 0 <= k < |w| => if i <= k < i + |b| then b[k - i] else w[k])
  }

  class Packer {
    var mem: array?<uint8>   // the block behind mem_; null once it is taken
    var length: uint32
    var position: uint32

    // How the buffer grew: its first capacity, the bytes all reallocations have copied and the
    // largest size that was ever asked for.
    ghost var initial: nat
    ghost var copied: nat
    ghost var peak: nat

    ghost predicate Valid()
      reads this
    {
      && mem != null && 64 <= mem.Length < 0x1_0000_0000 && position <= mem.Length
      && 64 <= initial && initial + copied <= mem.Length <= Max(initial, 2 * peak)
    }

    /** Values are being pushed. */
    ghost predicate Building()
      reads this
    {
      Valid() && position >= RESERVED
    }

    /** Everything pushed since the last Reset. */
    ghost function Written(): seq<uint8>
      requires Building()
      reads this, mem
    {
      mem[RESERVED..position]
    }

    /** Pack was called on that body: the header abuts it. */
    ghost predicate Packed(body: seq<uint8>)
      reads this, mem
    {
      && Valid() && RESERVED + |body| <= mem.Length
      && mem[RESERVED..RESERVED + |body|] == body
      && length == PackedLength(|body|)
      && position == RESERVED - VarLen(length)
      && mem[position..RESERVED] == EncodeVar(length)
    }

    constructor (bufferSize: uint32 := 1024)
      ensures Building() && Written() == [] && fresh(mem)
    {
      mem := new uint8[Max(64, bufferSize)];
      length, position := 0, RESERVED;
      initial, copied, peak := Max(64, bufferSize), 0, 0;
    }

    /** Makes room for `more` bytes at `at`: at least doubles the buffer, keeping all its bytes. */
    method CheckSize(more: nat, at: nat)
      requires Valid() && at + more < 0x8000_0000
      modifies this
      ensures Valid() && at + more <= mem.Length
      ensures length == old(length) && position == old(position)
      ensures if old(mem.Length) >= at + more then mem == old(mem) else fresh(mem)
      ensures old(mem.Length) <= mem.Length && mem[..old(mem.Length)] == old(mem[..])
      ensures peak == Max(old(peak), at + more) && initial == old(initial) && copied >= old(copied)
    {
      var newSize := at + more;
      peak := Max(peak, newSize);
      var oldCap := mem.Length;
      if oldCap < newSize {
        var size := Max(newSize, U32(2 * oldCap));
        var bigger := new uint8[size];
        MemCopy(bigger, 0, mem[..]);
        assert bigger[..oldCap] == mem[..];
        mem := bigger;
        copied := copied + oldCap;
      }
    }

    method Reset()
      requires Valid()
      modifies this
      ensures Building() && Written() == [] && mem == old(mem)
    {
      length, position := 0, RESERVED;
    }

    /** PushBinary, and the memcpy that every push ends with. */
    method PushBinary(src: seq<uint8>)
      requires Building() && position + |src| < 0x8000_0000
      modifies this, mem
      ensures Building() && Written() == old(Written()) + src && (mem == old(mem) || fresh(mem))
      ensures length == old(length) && position == old(position) + |src|
    {
      CheckSize(|src|, position);
      ghost var was := mem[..];
      ghost var at: nat := position;
      KeptFront(old(mem[..]), was, at);
      MemCopy(mem, position, src);
      position := position + |src|;
      Extended(was, mem[..], at, src);
      assert Written() == mem[..][RESERVED..at + |src|];
    }

    /** What PushVariableUint32 stores: one word, or one word and one byte. */
    method StoredCode(value: uint32) returns (code: seq<uint8>)
      ensures code == EncodeVar(value)
    {
      VarCode(value);
      if value < 0x8000 {
        code := ToLE(value, 2);
      } else {
        var lower, upper := value % 0x8000 + 0x8000, value / 0x8000 % 256;
        code := ToLE(lower, 2) + [upper];
      }
    }

    /** The stores of PushVariableUint32, wherever the position stands. */
    method StoreVar(value: uint32) returns (n: nat)
      requires Valid() && position + 3 < 0x8000_0000
      modifies this, mem
      ensures Valid() && (mem == old(mem) || fresh(mem)) && length == old(length)
      ensures n == VarLen(value) && position == old(position) + n
      ensures old(mem.Length) <= mem.Length
      ensures mem[..] == mem[..old(position)] + EncodeVar(value) + mem[position..]
      ensures mem[..old(position)] == old(mem[..position])
      ensures old(mem.Length) >= old(position) + 3 ==>
              mem == old(mem) && mem[position..] == old(mem[position + VarLen(value)..])
    {
      hide ToLE, EncodeVar;
      CheckSize(3, position);
      ghost var was, at := mem[..], position;
      assert was[..at] == old(mem[..position]) by {
        TakePrefix(old(mem[..]), was, at);
      }
      var code := StoredCode(value);
      MemCopy(mem, position, code);
      n := |code|;
      position := position + n;
      ghost var now := mem[..];
      Spliced(was, now, at, code);
      assert mem[..at] == now[..at] && mem[position..] == now[at + n..];
    }

    method PushVariableUint32(value: uint32) returns (n: nat)
      requires Building() && position + 3 < 0x8000_0000
      modifies this, mem
      ensures Building() && (mem == old(mem) || fresh(mem)) && length == old(length)
      ensures n == VarLen(value) && Written() == old(Written()) + EncodeVar(value)
    {
      hide ToLE, EncodeVar;
      ghost var front := mem[..position];
      n := StoreVar(value);
      ghost var now := mem[..];
      Spliced(now, now, old(position), EncodeVar(value));
      assert Written() == now[RESERVED..position] == front[RESERVED..] + EncodeVar(value);
      assert old(Written()) == front[RESERVED..];
    }

    /** WriteUint16 and WriteUint32: lays an integer over what is already there. */
    method WriteFixed(val: int, w: nat, at: nat)
      requires Building() && at + w < 0x8000_0000
      modifies this, mem
      ensures Building() && (mem == old(mem) || fresh(mem)) && length == old(length) && position == old(position)
      ensures |Written()| == |old(Written())|
      ensures forall k | 0 <= k < |Written()| ::
                Written()[k] == if at <= RESERVED + k < at + w then val / Pow256(RESERVED + k - at) % 256
                                else old(Written())[k]
    {
      hide ToLE, Pow256;
      CheckSize(w, at);
      ghost var was := mem[..];
      KeptFront(old(mem[..]), was, position);
      MemCopy(mem, at, ToLE(val, w));
      Overlaid(was, mem[..], at, ToLE(val, w), position);
      assert Written() == mem[..][RESERVED..position];
      OverlaidBytes(old(Written()), at - RESERVED, val, w);
    }

    // ---- operator<< ----

    /** PushUint8 .. PushUint64, PushDouble, PushBoolean: the w bytes of an integer. */
    method PushFixed(val: int, w: nat)
      requires Building() && position + w < 0x8000_0000
      modifies this, mem
      ensures Building() && Written() == old(Written()) + ToLE(val, w) && (mem == old(mem) || fresh(mem))
      ensures |Written()| == |old(Written())| + w && Written()[..|old(Written())|] == old(Written())
      ensures forall k | |old(Written())| <= k < |Written()| ::
                Written()[k] == val / Pow256(k - |old(Written())|) % 256
    {
      PushBinary(ToLE(val, w));
      PushedBytes(old(Written()), val, w);
    }

    /** PushString and PushBuffer. */
    method PushBytes(val: seq<uint8>)
      requires Building() && position + VarLen(|val|) + |val| + 3 < 0x8000_0000
      modifies this, mem
      ensures Building() && Written() == old(Written()) + EncodeVar(|val|) + val && (mem == old(mem) || fresh(mem))
    {
      var n := PushVariableUint32(|val|);
      PushBinary(val);
    }

    /** operator<< for a value of any supported type: exactly its encoding is appended. The room
        that PushVariableUint32 asks for in advance may exceed what it stores by one byte. */
    method PushValue(v: Value, t: Type)
      requires Building() && TypeOk(t) && HasType(v, t) && position + |Encode(v, t)| + 3 < 0x8000_0000
      modifies this, mem
      ensures Building() && Written() == old(Written()) + Encode(v, t) && (mem == old(mem) || fresh(mem))
      decreases v, 1
    {
      hide AllTyped, FieldsTyped, AllCountable, Sorted, EncodeAll, EncodeFields, EncodeVar;
      match t
      case TBool => PushFixed(if v.b then 1 else 0, 1);
      case TInt(w, _) => PushFixed(v.n, w);
      case TBytes => PushBytes(v.bytes);
      case TSeq(kind, e) =>
        EncodeAllSize(v.elems, e);
        var n := PushVariableUint32(|v.elems|);
        PushAll(v.elems, e);
      case TRec(fs) => PushFields(v.elems, fs);
    }

    /** Pushes the elements of a container, first to last. */
    method PushAll(es: seq<Value>, e: Type)
      requires Building() && TypeOk(e) && AllTyped(es, e) && position + |EncodeAll(es, e)| + 3 < 0x8000_0000
      modifies this, mem
      ensures Building() && Written() == old(Written()) + EncodeAll(es, e) && (mem == old(mem) || fresh(mem))
      decreases es, 0
    {
      hide Encode, EncodeAll, HasType, AllTyped, TypeOk;
      NoneEncoded(es, e, []);
      for i := 0 to |es|
        invariant Building() && Written() == old(Written()) + EncodeAll(es[..i], e)
        invariant mem == old(mem) || fresh(mem)
      {
        AllAt(es, e, i);
        PushValue(es[i], e);
      }
      assert es[..|es|] == es;
    }

    /** p << x.first << x.second; and the operators of packable structs. */
    method PushFields(es: seq<Value>, fs: seq<Type>)
      requires Building() && FieldsOk(fs) && FieldsTyped(es, fs) && position + |EncodeFields(es, fs)| + 3 < 0x8000_0000
      modifies this, mem
      ensures Building() && Written() == old(Written()) + EncodeFields(es, fs) && (mem == old(mem) || fresh(mem))
      decreases es, 0
    {
      hide Encode, EncodeFields, HasType, FieldsTyped, TypeOk, FieldsOk;
      NoneEncoded(es, TBool, fs);
      for i := 0 to |es|
        invariant Building() && Written() == old(Written()) + EncodeFields(es[..i], fs[..i])
        invariant mem == old(mem) || fresh(mem)
      {
        FieldsAt(es, fs, i);
        PushValue(es[i], fs[i]);
      }
      assert es[..|es|] == es && fs[..|es|] == fs;
    }

    // ---- the header ----

    /** Puts the length in front of the body and rewinds to it. */
    method Pack()
      requires Building() && position < MAX_PACKET
      modifies this, mem
      ensures Packed(old(Written())) && mem == old(mem)
    {
      hide EncodeVar;
      ghost var body := Written();
      PackedLengthSolves(|body|);
      var start := 0;
      if position >= 0x8002 {
        length := position - 1;
        position := 1;
        start := 1;
      } else {
        length := position - 2;
        position := 2;
        start := 2;
      }
      ghost var was := mem[..];
      var size := StoreVar(length);
      PackedInPlace(was, mem[..], start, body, length);
      position := start;
    }

    method Data(ghost body: seq<uint8>) returns (r: seq<uint8>)
      requires Packed(body) && RESERVED + |body| < MAX_PACKET
      ensures r == Frame(body)
    {
      PackedLengthSolves(|body|);
      PackedBytes(mem[..], position, body, length);
      r := mem[position..position + length];
    }

    /** Body, Body2 and BodySize. */
    method Body(ghost body: seq<uint8>) returns (r: seq<uint8>, size: nat)
      requires Packed(body) && RESERVED + |body| < MAX_PACKET
      ensures r == body && size == |body|
    {
      PackedLengthSolves(|body|);
      if length >= 0x8000 {
        r, size := mem[4..4 + (length - 3)], length - 3;
      } else {
        r, size := mem[4..4 + (length - 2)], length - 2;
      }
    }

    /** TakeBuffer: the block goes over to a slice that shows the packed bytes, also when they reach
        behind the 64 KiB a new slice is cut at. */
    method TakeBuffer(sp: Space, ghost body: seq<uint8>) returns (i: nat)
      requires Packed(body) && RESERVED + |body| < MAX_PACKET && sp.Ok()
      modifies this, sp
      ensures sp.Kept() && i == |old(sp.w)| && i < |sp.w| && SliceOk(sp.m, sp.w[i])
      ensures BytesOf(sp.m, sp.w[i]) == Frame(body)
      ensures sp.w[i].buffer.To? && sp.m.bufs[sp.w[i].buffer.id].refCnt == 1
      ensures forall k | 0 <= k < |old(sp.w)| :: sp.w[k] == old(sp.w)[k]
      ensures mem == null
    {
      hide Idle, WF, Step, EncodeVar;
      PackedLengthSolves(|body|);
      ghost var all, p, q := mem[..], position, position + length;
      PackedBytes(all, p, body, length);
      // The block changes hands; in the address space it is one more block with the same bytes.
      var id := sp.CreateCopy(mem[..], mem.Length);
      mem := null;
      assert sp.m.bufs[id].data == all;
      i := sp.Construct(To(id));
      sp.SetBegin(i, position);
      sp.SetEnd(i, position + length);
      assert sp.w[i] == Slice(To(id), p, q);
    }
  }

  lemma NoneEncoded(es: seq<Value>, e: Type, fs: seq<Type>)
    ensures EncodeAll(es[..0], e) == [] && EncodeFields(es[..0], fs[..0]) == []
    ensures FieldsTyped(es, fs) ==> |es| == |fs|
  {
  }

  /** The encoding of a sequence grows element by element and never past its end. */
  lemma {:induction false} AllAt(es: seq<Value>, e: Type, i: nat)
    requires i < |es| && AllTyped(es, e)
    ensures HasType(es[i], e)
    ensures EncodeAll(es[..i + 1], e) == EncodeAll(es[..i], e) + Encode(es[i], e)
    ensures |EncodeAll(es[..i + 1], e)| <= |EncodeAll(es, e)|
  {
    assert es[..i + 1][..i] == es[..i];
    if i + 1 == |es| {
      assert es[..i + 1] == es;
    } else {
      var front := es[..|es| - 1];
      AllAt(front, e, i);
      assert front[..i + 1] == es[..i + 1] && front[..i] == es[..i];
    }
  }

  lemma {:induction false} FieldsAt(es: seq<Value>, fs: seq<Type>, i: nat)
    requires i < |es| && FieldsTyped(es, fs) && FieldsOk(fs)
    ensures i < |fs| && TypeOk(fs[i]) && HasType(es[i], fs[i]) && |es| == |fs|
    ensures EncodeFields(es[..i + 1], fs[..i + 1]) == EncodeFields(es[..i], fs[..i]) + Encode(es[i], fs[i])
    ensures |EncodeFields(es[..i + 1], fs[..i + 1])| <= |EncodeFields(es, fs)|
  {
    assert es[..i + 1][..i] == es[..i] && fs[..i + 1][..i] == fs[..i];
    if i + 1 == |es| {
      assert es[..i + 1] == es && fs[..i + 1] == fs;
    } else {
      var front, types := es[..|es| - 1], fs[..|es| - 1];
      FieldsAt(front, types, i);
      assert front[..i + 1] == es[..i + 1] && front[..i] == es[..i];
      assert types[..i + 1] == fs[..i + 1] && types[..i] == fs[..i];
    }
  }

  lemma PackedInPlace(was: seq<uint8>, now: seq<uint8>, start: nat, body: seq<uint8>, length: nat)
    requires RESERVED + |body| <= |was| && was[RESERVED..RESERVED + |body|] == body
    requires start + VarLen(length) == RESERVED && |now| == |was|
    requires now == now[..start] + EncodeVar(length) + now[RESERVED..] && now[RESERVED..] == was[RESERVED..]
    ensures now[start..RESERVED] == EncodeVar(length) && now[RESERVED..RESERVED + |body|] == body
  {
    assert now[RESERVED..][..|body|] == was[RESERVED..][..|body|];
  }

  lemma PackedBytes(all: seq<uint8>, p: nat, body: seq<uint8>, length: nat)
    requires RESERVED + |body| < MAX_PACKET && RESERVED + |body| <= |all|
    requires length == PackedLength(|body|) && p == RESERVED - VarLen(length)
    requires all[p..RESERVED] == EncodeVar(length) && all[RESERVED..RESERVED + |body|] == body
    ensures p + length <= |all| && all[p..p + length] == Frame(body)
  {
    PackedLengthSolves(|body|);
    assert all[p..p + length] == all[p..RESERVED] + all[RESERVED..RESERVED + |body|];
  }

  lemma Spliced(was: seq<uint8>, now: seq<uint8>, at: nat, b: seq<uint8>)
    requires at + |b| <= |was| && now == was[..at] + b + was[at + |b|..]
    ensures now[..at] == was[..at] && now[at..at + |b|] == b && now[at + |b|..] == was[at + |b|..]
  {
  }

  lemma TakePrefix(was: seq<uint8>, now: seq<uint8>, at: nat)
    requires at <= |was| <= |now| && now[..|was|] == was
    ensures now[..at] == was[..at]
  {
    forall k | 0 <= k < at
      ensures now[k] == was[k]
    {
      assert now[..|was|][k] == now[k];
    }
  }

  lemma KeptFront(was: seq<uint8>, now: seq<uint8>, at: nat)
    requires RESERVED <= at <= |was| <= |now| && now[..|was|] == was
    ensures now[RESERVED..at] == was[RESERVED..at]
  {
    forall k | RESERVED <= k < at
      ensures now[k] == was[k]
    {
      assert now[..|was|][k] == now[k];
    }
  }

  lemma Extended(was: seq<uint8>, now: seq<uint8>, at: nat, b: seq<uint8>)
    requires RESERVED <= at && at + |b| <= |was| && now == was[..at] + b + was[at + |b|..]
    ensures now[RESERVED..at + |b|] == was[RESERVED..at] + b
  {
    forall k | RESERVED <= k < at + |b|
      ensures now[k] == if k < at then was[k] else b[k - at]
    {
    }
  }

  lemma Overlaid(was: seq<uint8>, now: seq<uint8>, at: nat, b: seq<uint8>, end: nat)
    requires RESERVED <= end <= |was| && at + |b| <= |was| && now == was[..at] + b + was[at + |b|..]
    ensures now[RESERVED..end] == Overlay(was[RESERVED..end], at - RESERVED, b)
  {
    var w := was[RESERVED..end];
    forall k | 0 <= k < |w|
      ensures now[RESERVED..end][k] == Overlay(w, at - RESERVED, b)[k]
    {
      var j := RESERVED + k;
      assert w[k] == was[j] && now[RESERVED..end][k] == now[j];
      assert now[j] == if j < at then was[j] else if j < at + |b| then b[j - at] else was[j];
    }
  }

  lemma OverlaidBytes(w: seq<uint8>, i: int, val: int, n: nat)
    ensures forall k | 0 <= k < |w| ::
              Overlay(w, i, ToLE(val, n))[k] == if i <= k < i + n then val / Pow256(k - i) % 256 else w[k]
  {
    hide ToLE, Pow256;
    forall k | 0 <= k < |w|
      ensures Overlay(w, i, ToLE(val, n))[k] == if i <= k < i + n then val / Pow256(k - i) % 256 else w[k]
    {
      if i <= k < i + n {
        ToLEByte(val, n, k - i);
      }
    }
  }

  lemma PushedBytes(before: seq<uint8>, val: int, w: nat)
    ensures var after := before + ToLE(val, w);
            && |after| == |before| + w && after[..|before|] == before
            && forall k | |before| <= k < |after| :: after[k] == val / Pow256(k - |before|) % 256
  {
    hide ToLE, Pow256;
    forall k | |before| <= k < |before| + w
      ensures (before + ToLE(val, w))[k] == val / Pow256(k - |before|) % 256
    {
      ToLEByte(val, w, k - |before|);
    }
  }
}

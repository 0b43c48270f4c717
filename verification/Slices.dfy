// MemBuf and MemSlice as they work in place: an address space whose blocks and slice objects are
// updated by the methods of the two classes.

module Slices {
  import opened Bytes
  import opened Memory
  import opened SliceOps

  /** The memory of one program: the malloc'ed blocks and, by their addresses, the MemSlice objects.
      A method of MemSlice takes the address of the object it is called on. */
  class Space {
    var m: Mem
    var w: seq<Slice>

    ghost function Now(): World
      reads this
    {
      World(m, w)
    }

    ghost predicate Ok()
      reads this
    {
      WF(m, w)
    }

    /** What holds after any operation: the books are kept, allocated bytes stayed as they were, and
        no object has gone. */
    twostate predicate Booked()
      reads this
    {
      WF(m, w) && Later(old(m), m) && |old(w)| <= |w|
    }

    /** And what holds after an operation that neither hands out a raw block nor takes one: the idle
        blocks are the same, so a block whose last slice let go is freed, and no other. */
    twostate predicate Kept()
      reads this
    {
      Booked() && Idle(m) == old(Idle(m))
    }

    constructor ()
      ensures Ok() && w == []
    {
      m, w := Mem(map[], 0), [];
    }

    // ---- MemBuf ----

    /** MemBuf::Create(size): a new block with nobody holding it, its bytes unset. */
    method CreateRaw(capacity: uint32) returns (id: nat)
      requires Ok()
      modifies this
      ensures Booked() && w == old(w) && Idle(m) == old(Idle(m)) + {id} && id !in old(Idle(m))
      ensures id !in old(m.bufs) && id in m.bufs && |m.bufs[id].data| == capacity && m.bufs[id].refCnt == 0
    {
      var raw := new uint8[capacity];
      Mallocs(m, w, raw[..]);
      CreateIdle(m, w, raw[..]);
      id := m.next;
      m := Create(m, raw[..]);
    }

    /** MemBuf::Create(buf, size, capacity): copies the first min(size, capacity) bytes. */
    method CreateCopy(src: seq<uint8>, capacity: uint32) returns (id: nat)
      requires Ok()
      modifies this
      ensures Booked() && w == old(w) && Idle(m) == old(Idle(m)) + {id} && id !in old(Idle(m))
      ensures id !in old(m.bufs) && id in m.bufs && |m.bufs[id].data| == capacity && m.bufs[id].refCnt == 0
      ensures m.bufs[id].data[..Min(|src|, capacity)] == src[..Min(|src|, capacity)]
    {
      var raw := new uint8[capacity];
      MemCopy(raw, 0, src[..Min(|src|, capacity)]);
      Mallocs(m, w, raw[..]);
      CreateIdle(m, w, raw[..]);
      id := m.next;
      m := Create(m, raw[..]);
    }

    /** memcpy into a block that nobody holds yet. */
    method Fill(id: nat, at: nat, src: seq<uint8>)
      requires Ok() && id in m.bufs && m.bufs[id].refCnt == 0 && at + |src| <= |m.bufs[id].data|
      modifies this`m
      ensures Ok() && m.next == old(m.next) && m.bufs.Keys == old(m.bufs.Keys)
      ensures m.bufs == old(m.bufs)[id := Buf(0, m.bufs[id].data)] && Idle(m) == old(Idle(m))
      ensures forall m0: Mem :: Later(m0, old(m)) && id >= m0.next ==> Later(m0, m)
      ensures m.bufs[id].data == old(m.bufs[id].data[..at]) + src + old(m.bufs[id].data[at + |src|..])
    {
      var d := m.bufs[id].data;
      m := m.(bufs := m.bufs[id := Buf(0, d[..at] + src + d[at + |src|..])]);
      forall i | 0 <= i < |w|
        ensures SliceOk(m, w[i])
      {
      }
    }

    method AddRef(id: nat)
      requires id in m.bufs
      modifies this`m
      ensures Some(m) == Take(old(m), To(id))
      ensures m == old(m).(bufs := old(m.bufs)[id := old(m.bufs[id]).(refCnt := old(m.bufs[id].refCnt) + 1)])
    {
      m := m.(bufs := m.bufs[id := m.bufs[id].(refCnt := m.bufs[id].refCnt + 1)]);
    }

    method Release(id: nat)
      requires id in m.bufs
      modifies this`m
      ensures Some(m) == Drop(old(m), To(id))
      ensures m.next == old(m.next)
      ensures old(m.bufs[id].refCnt) <= 1 ==> m.bufs == old(m.bufs) - {id}
      ensures old(m.bufs[id].refCnt) > 1 ==>
        m.bufs == old(m.bufs)[id := old(m.bufs[id]).(refCnt := old(m.bufs[id].refCnt) - 1)]
    {
      var left := m.bufs[id].refCnt - 1;
      m := m.(bufs := if left < 1 then m.bufs - {id} else m.bufs[id := m.bufs[id].(refCnt := left)]);
    }

    // ---- MemSlice ----

    /** MemSlice(buffer, size) with its default size of 64 KiB. */
    method Construct(buf: Ref, size: uint32 := 65536) returns (i: nat)
      requires Ok() && (buf.To? ==> buf.id in m.bufs)
      modifies this
      ensures Some(Now()) == Step(old(Now()), SliceOps.Construct(buf, size))
      ensures w == old(w) + [Whole(old(m), buf, size)]
      ensures w == old(w) + [if buf.Null? then NOTHING else Slice(buf, 0, Min(size, |old(m.bufs[buf.id].data)|))]
      ensures buf.To? ==>
        buf.id in m.bufs && m.bufs[buf.id] == old(m.bufs[buf.id]).(refCnt := old(m.bufs[buf.id].refCnt) + 1)
      ensures Booked() && Idle(m) == Without(old(Idle(m)), buf) && i == |old(w)|
    {
      StepKeeps(Now(), SliceOps.Construct(buf, size));
      i := |w|;
      w := w + [Slice(buf, 0, 0)];
      if buf.To? {
        AddRef(buf.id);
        w := w[i := w[i].(end := Min(size, |m.bufs[buf.id].data|))];
      }
      assert w == old(w) + [Whole(old(m), buf, size)];
    }

    /** The four default-constructed members of a new span. */
    method ConstructFour() returns (base: nat)
      requires Ok()
      modifies this
      ensures Kept() && base == |old(w)| && m == old(m)
      ensures |w| == |old(w)| + 4 && (forall k | |old(w)| <= k < |w| :: w[k] == NOTHING)
      ensures forall k | 0 <= k < |old(w)| :: w[k] == old(w)[k]
    {
      base := Construct(Null);
      var i := Construct(Null);
      i := Construct(Null);
      i := Construct(Null);
    }

    /** The copy constructor: a second window on the same block. */
    method CopyConstruct(j: nat) returns (i: nat)
      requires Ok() && j < |w|
      modifies this
      ensures Some(Now()) == Step(old(Now()), SliceOps.CopyConstruct(j))
      ensures w == old(w) + [old(w)[j]]
      ensures Kept() && i == |old(w)|
    {
      StepKeeps(Now(), SliceOps.CopyConstruct(j));
      i := |w|;
      w := w + [w[j]];
      if w[j].buffer.To? {
        AddRef(w[j].buffer.id);
      }
    }

    /** MemSlice(MemSlice &&): takes a reference of its own, then gives the source's back. */
    method MoveConstruct(j: nat) returns (i: nat)
      requires Ok() && j < |w|
      modifies this
      ensures Some(Now()) == Step(old(Now()), SliceOps.MoveConstruct(j))
      ensures w == old(w)[j := NOTHING] + [old(w)[j]]
      ensures SliceOk(old(m), old(w)[j]) && SliceOk(m, w[|old(w)|])
      ensures BytesOf(m, w[|old(w)|]) == BytesOf(old(m), old(w)[j])
      ensures Kept() && i == |old(w)|
    {
      StepKeeps(Now(), SliceOps.MoveConstruct(j));
      i := |w|;
      w := w + [w[j]];
      if w[j].buffer.To? {
        AddRef(w[j].buffer.id);
        Release(w[j].buffer.id);
      }
      w := w[j := NOTHING];
      assert w == old(w)[j := NOTHING] + [old(w[j])];
      WindowStays(old(m), old(w), m, w, j, i);
    }

    /** ~MemSlice. */
    method Destroy(i: nat)
      requires Ok() && i < |w|
      modifies this
      ensures Some(Now()) == Step(old(Now()), SliceOps.Destroy(i))
      ensures w == old(w)[i := NOTHING]
      ensures Kept()
    {
      StepKeeps(Now(), SliceOps.Destroy(i));
      if w[i].buffer.To? {
        Release(w[i].buffer.id);
      }
      w := w[i := NOTHING];
    }

    /** Copy assignment: lets go of its own block first, then takes the other's. */
    method Assign(i: nat, j: nat)
      requires Ok() && i < |w| && j < |w|
      modifies this
      ensures Some(Now()) == Step(old(Now()), SliceOps.Assign(i, j))
      ensures w == old(w)[i := old(w)[j]]
      ensures Kept()
    {
      StepKeeps(Now(), SliceOps.Assign(i, j));
      if i == j {
        return;
      }
      if w[i].buffer.To? {
        Release(w[i].buffer.id);
      }
      w := w[i := w[i].(buffer := w[j].buffer)];
      if w[i].buffer.To? {
        AddRef(w[i].buffer.id);
      }
      w := w[i := w[i].(begin := w[j].begin, end := w[j].end)];
      assert w == old(w)[i := old(w[j])];
    }

    /** operator=(MemSlice &&): three exchanges. */
    method MoveAssign(i: nat, j: nat)
      requires Ok() && i < |w| && j < |w|
      modifies this
      ensures Some(Now()) == Step(old(Now()), SliceOps.MoveAssign(i, j))
      ensures w == old(w)[i := old(w)[j]][j := old(w)[i]]
      ensures Kept()
    {
      StepKeeps(Now(), SliceOps.MoveAssign(i, j));
      var a, b := w[i], w[j];
      w := w[i := w[i].(buffer := b.buffer)][j := w[j].(buffer := a.buffer)];
      w := w[i := w[i].(begin := b.begin)][j := w[j].(begin := a.begin)];
      w := w[i := w[i].(end := b.end)][j := w[j].(end := a.end)];
      assert w == old(w)[i := b][j := a];
    }

    /** Reset(buffer) and operator=(const MemBuf *). */
    method Reset(i: nat, buf: Ref := Null)
      requires Ok() && i < |w| && RawOk(Now(), SliceOps.Reset(i, buf))
      modifies this
      ensures Some(Now()) == Step(old(Now()), SliceOps.Reset(i, buf))
      ensures w == old(w)[i := if buf.Null? then NOTHING else Slice(buf, 0, |old(m.bufs[buf.id].data)|)]
      ensures Booked() && Idle(m) == Without(old(Idle(m)), buf)
    {
      StepKeeps(Now(), SliceOps.Reset(i, buf));
      if w[i].buffer.To? {
        Release(w[i].buffer.id);
      }
      w := w[i := Slice(buf, 0, 0)];
      if buf.To? {
        AddRef(buf.id);
        w := w[i := w[i].(end := |m.bufs[buf.id].data|)];
      }
      assert w == old(w)[i := Whole(old(m), buf, 0x1_0000_0000)];
    }

    /** AdjustBeginPointer, by way of SetBeginPointer. */
    method AdjustBegin(i: nat, offset: int)
      requires Ok() && i < |w|
      modifies this
      ensures Some(Now()) == Step(old(Now()), SliceOps.AdjustBegin(i, offset))
      ensures m == old(m) && w == old(w)[i := BeginMoved(old(w)[i], offset)]
      ensures var pos := (old(w)[i].begin + offset) % 0x1_0000_0000; var end := old(w)[i].end;
              w == old(w)[i := Slice(old(w)[i].buffer, if pos > end then end else pos, end)]
      ensures Kept()
    {
      StepKeeps(Now(), SliceOps.AdjustBegin(i, offset));
      var position := U32(w[i].begin + offset);
      if position > w[i].end {
        position := w[i].end;
      }
      w := w[i := w[i].(begin := position)];
    }

    method SetBegin(i: nat, pos: uint32)
      requires Ok() && i < |w|
      modifies this
      ensures Some(Now()) == Step(old(Now()), SliceOps.SetBegin(i, pos))
      ensures m == old(m) && w == old(w)[i := WithBegin(old(w)[i], pos)]
      ensures var end := old(w)[i].end;
              w == old(w)[i := Slice(old(w)[i].buffer, if pos > end then end else pos, end)]
      ensures Kept()
    {
      StepKeeps(Now(), SliceOps.SetBegin(i, pos));
      var position := pos;
      if position > w[i].end {
        position := w[i].end;
      }
      w := w[i := w[i].(begin := position)];
    }

    method SetEnd(i: nat, pos: uint32)
      requires Ok() && i < |w| && w[i].buffer.To?
      modifies this
      ensures Some(Now()) == Step(old(Now()), SliceOps.SetEnd(i, pos))
      ensures m == old(m) && w[i].buffer.To? && w[i].buffer.id in m.bufs
      ensures w == old(w)[i := WithEnd(old(w)[i], pos, |m.bufs[w[i].buffer.id].data|)]
      ensures var begin := old(w)[i].begin; var capacity := |m.bufs[w[i].buffer.id].data|;
              var end := if pos < begin then begin else pos;
              w == old(w)[i := Slice(old(w)[i].buffer, begin, if end > capacity then capacity else end)]
      ensures Kept()
    {
      StepKeeps(Now(), SliceOps.SetEnd(i, pos));
      var position := pos;
      if position < w[i].begin {
        position := w[i].begin;
      }
      if position > |m.bufs[w[i].buffer.id].data| {
        position := |m.bufs[w[i].buffer.id].data|;
      }
      w := w[i := w[i].(end := position)];
    }

    /** AdjustEndPointer, by way of SetEndPointer. */
    method AdjustEnd(i: nat, offset: int)
      requires Ok() && i < |w| && w[i].buffer.To?
      modifies this
      ensures Some(Now()) == Step(old(Now()), SliceOps.AdjustEnd(i, offset))
      ensures m == old(m) && w[i].buffer.To? && w[i].buffer.id in m.bufs
      ensures var begin := old(w)[i].begin; var capacity := |m.bufs[w[i].buffer.id].data|;
              var pos := (old(w)[i].end + offset) % 0x1_0000_0000;
              var end := if pos < begin then begin else pos;
              w == old(w)[i := Slice(old(w)[i].buffer, begin, if end > capacity then capacity else end)]
      ensures Kept()
    {
      StepKeeps(Now(), SliceOps.AdjustEnd(i, offset));
      SetEnd(i, U32(w[i].end + offset));
    }

    /** UpdateBegin; the sum is formed in 32 bits. */
    method UpdateBegin(i: nat, offset: uint32) returns (ok: bool)
      requires Ok() && i < |w|
      modifies this
      ensures Some(Now()) == Step(old(Now()), SliceOps.UpdateBegin(i, offset))
      ensures ok == BeginAdvanced(old(w)[i], offset).1
      ensures m == old(m)
      ensures var sum := (old(w)[i].begin + offset) % 0x1_0000_0000; var end := old(w)[i].end;
              && (ok <==> sum <= end)
              && w == if ok then old(w)[i := Slice(old(w)[i].buffer, sum, end)] else old(w)
      ensures Kept()
    {
      StepKeeps(Now(), SliceOps.UpdateBegin(i, offset));
      var sum := U32(w[i].begin + offset);
      if sum > w[i].end {
        assert w[i := w[i]] == w;
        return false;
      }
      w := w[i := w[i].(begin := sum)];
      return true;
    }

    /** Clone: a copy of the whole block under the same window. */
    method Clone(j: nat) returns (i: nat)
      requires Ok() && j < |w| && w[j].buffer.To?
      modifies this
      ensures Some(Now()) == Step(old(Now()), SliceOps.Clone(j))
      ensures w == old(w) + [old(w)[j].(buffer := To(old(m).next))]
      ensures old(m).next in m.bufs && m.bufs[old(m).next].data == old(m.bufs[w[j].buffer.id].data)
      ensures Kept() && i == |old(w)|
    {
      StepKeeps(Now(), SliceOps.Clone(j));
      var id := m.next;
      m := Create(m, m.bufs[w[j].buffer.id].data);
      i := |w|;
      w := w + [Slice(To(id), 0, 0)];
      AddRef(id);
      w := w[i := w[i].(begin := w[j].begin, end := w[j].end)];
      assert w == old(w) + [old(w[j]).(buffer := To(id))];
    }
  }

  /** A slice on a block that is still there shows the bytes it showed. */
  lemma WindowStays(m: Mem, w: seq<Slice>, m': Mem, w': seq<Slice>, j: nat, i: nat)
    requires WF(m, w) && WF(m', w') && Later(m, m') && j < |w| && i < |w'| && w'[i] == w[j]
    ensures SliceOk(m, w[j]) && SliceOk(m', w'[i]) && BytesOf(m', w'[i]) == BytesOf(m, w[j])
  {
  }
}

// MemSliceSpan: up to four slices that are to be read as one byte string.

module Span {
  import opened Bytes
  import opened Memory
  import opened SliceOps
  import opened Slices
  import opened Flat

  predicate AllOk(m: Mem, ss: seq<Slice>) {
    forall i | 0 <= i < |ss| :: SliceOk(m, ss[i])
  }

  function BlocksOf(m: Mem, ss: seq<Slice>): (bs: seq<Block>)
    requires AllOk(m, ss)
    ensures |bs| == |ss|
  {
    seq(|ss|, i requires 0 <= i < |ss| => BytesOf(m, ss[i]))
  }

  lemma BlocksStay(m: Mem, w: seq<Slice>, m': Mem, ss: seq<Slice>)
    requires WF(m, w) && AllOk(m, ss) && AllOk(m', ss) && Later(m, m')
    ensures BlocksOf(m', ss) == BlocksOf(m, ss)
  {
    forall i | 0 <= i < |ss|
      ensures BytesOf(m', ss[i]) == BytesOf(m, ss[i])
    {
    }
  }

  /** The address of buffer_[k] in the span whose slots start at base. */
  function Slot(base: nat, k: nat): nat {
    base + k
  }

  /** The first n slots of the span at base. */
  function Slots(w: seq<Slice>, base: nat, n: nat): (ss: seq<Slice>)
    requires base + n <= |w|
    ensures |ss| == n
  {
    seq(n, k requires 0 <= k < n => w[Slot(base, k)])
  }

  lemma SlotsOk(m: Mem, w: seq<Slice>, base: nat, n: nat)
    requires WF(m, w) && base + n <= |w|
    ensures AllOk(m, Slots(w, base, n))
  {
  }

  /** The slices at some addresses. */
  function Picked(w: seq<Slice>, at: seq<nat>): seq<Slice>
    requires forall i | 0 <= i < |at| :: at[i] < |w|
  {
    seq(|at|, i requires 0 <= i < |at| => w[at[i]])
  }

  lemma PickedOk(m: Mem, w: seq<Slice>, at: seq<nat>)
    requires WF(m, w) && forall i | 0 <= i < |at| :: at[i] < |w|
    ensures AllOk(m, Picked(w, at))
  {
  }

  class MemSliceSpan {
    const base: nat      // the address of buffer_[0]; the other slots follow
    var size: uint32
    var blockCount: nat

    /** The slots lie in the address space and at most four of them are live. */
    ghost predicate Sound(sp: Space)
      reads this, sp
    {
      sp.Ok() && base + MAX_BLOCKS <= |sp.w| && blockCount <= MAX_BLOCKS
    }

    ghost function Live(sp: Space): seq<Slice>
      reads this, sp
      requires Sound(sp)
    {
      Slots(sp.w, base, blockCount)
    }

    ghost function Blocks(sp: Space): (bs: seq<Block>)
      reads this, sp
      requires Sound(sp)
      ensures |bs| == blockCount
    {
      BlocksOf(sp.m, Live(sp))
    }

    /** The bytes the span stands for. Slots at or past blockCount do not show. */
    ghost function Bytes(sp: Space): seq<uint8>
      reads this, sp
      requires Sound(sp)
    {
      Flatten(Blocks(sp))
    }

    /** size_ is the number of those bytes, as far as 32 bits can tell. */
    ghost predicate Valid(sp: Space)
      reads this, sp
    {
      Sound(sp) && size == U32(|Bytes(sp)|)
    }

    ghost predicate Owns(k: int) {
      base <= k < base + MAX_BLOCKS
    }

    ghost predicate Apart(a: MemSliceSpan) {
      base + MAX_BLOCKS <= a.base || a.base + MAX_BLOCKS <= base
    }

    // ---- constructors; the four slots are new objects behind all existing ones ----

    constructor Empty(sp: Space)
      requires sp.Ok()
      modifies sp
      ensures Valid(sp) && base == |old(sp.w)| && blockCount == 0
      ensures sp.Kept() && sp.m == old(sp.m)
      ensures forall k | 0 <= k < |old(sp.w)| :: sp.w[k] == old(sp.w)[k]
    {
      var b := sp.ConstructFour();
      base, size, blockCount := b, 0, 0;
    }

    /** MemSliceSpan(const MemBuf *). size_ is the capacity, but the slice is cut at 64 KiB: the two
        agree exactly for blocks of at most 65536 bytes. */
    constructor FromBuf(sp: Space, buf: Ref)
      requires sp.Ok() && (buf.To? ==> buf.id in sp.m.bufs)
      modifies sp
      ensures Sound(sp) && base == |old(sp.w)| && blockCount == if buf.To? then 1 else 0
      ensures buf.Null? ==> Valid(sp)
      ensures buf.To? ==>
        var data := old(sp.m.bufs[buf.id].data);
        && size == |data| && Blocks(sp) == [data[..Min(65536, |data|)]]
        && (Valid(sp) <==> |data| <= 65536)
        && sp.w[base].buffer == buf && sp.w[base].begin == 0
        && buf.id in sp.m.bufs && sp.m.bufs[buf.id].data == data
      ensures sp.Booked() && Idle(sp.m) == Without(old(Idle(sp.m)), buf)
      ensures forall k | 0 <= k < |old(sp.w)| :: sp.w[k] == old(sp.w)[k]
      ensures forall k | base < k < |sp.w| :: sp.w[k] == NOTHING
    {
      var b := sp.ConstructFour();
      base := b;
      size := if buf.Null? then 0 else CapacityOf(sp.m, sp.w, buf.id);
      blockCount := if buf.Null? then 0 else 1;
      new;
      hide Idle, Step, WF, U32, Flatten;
      if buf.To? {
        ghost var data := old(sp.m.bufs[buf.id].data);
        CapacityFits(sp.m, sp.w, buf.id);
        AdoptFirst(sp, buf.id);
        FlattenOne(data[..Min(65536, |data|)]);
      } else {
        NoBytes();
        assert Blocks(sp) == [];
      }
    }

    /** MemSliceSpan(MemSlice): an empty slice is not stored at all. */
    constructor FromSlice(sp: Space, block: nat)
      requires sp.Ok() && block < |sp.w|
      modifies sp
      ensures Valid(sp) && base == |old(sp.w)| && Bytes(sp) == old(BytesOf(sp.m, sp.w[block]))
      ensures blockCount == if |Bytes(sp)| == 0 then 0 else 1
      ensures sp.Kept() && sp.w[block] == NOTHING
      ensures forall k | 0 <= k < |old(sp.w)| && k != block :: sp.w[k] == old(sp.w)[k]
    {
      var b := sp.ConstructFour();
      base := b;
      size := UsedSize(sp.w[block]);
      blockCount := if UsedSize(sp.w[block]) == 0 then 0 else 1;
      new;
      hide Idle, Step, WF, U32, Flatten, UsedSize;
      SliceFits(old(sp.m), old(sp.w), block);
      ghost var bytes := BytesOf(old(sp.m), old(sp.w)[block]);
      if blockCount == 1 {
        TakeFirst(sp, block);
        FlattenOne(bytes);
      } else {
        sp.Destroy(block);
        NoBytes();
        assert Blocks(sp) == [];
      }
    }

    /** MemSliceSpan(std::initializer_list<MemSlice>): shares the first four slices of the list, whose
        elements cannot be moved from. */
    constructor FromList(sp: Space, blocks: seq<nat>)
      requires sp.Ok() && forall i | 0 <= i < |blocks| :: blocks[i] < |sp.w|
      modifies sp
      ensures Valid(sp) && base == |old(sp.w)| && blockCount == Min(MAX_BLOCKS, |blocks|)
      ensures AllOk(old(sp.m), Picked(old(sp.w), blocks))
      ensures Blocks(sp) == BlocksOf(old(sp.m), Picked(old(sp.w), blocks))[..blockCount]
      ensures sp.Kept()
      ensures forall k | 0 <= k < |old(sp.w)| :: sp.w[k] == old(sp.w)[k]
    {
      var b := sp.ConstructFour();
      base, size, blockCount := b, 0, 0;
      new;
      hide Idle, Step, WF, U32, Flatten, UsedSize;
      PickedOk(old(sp.m), old(sp.w), blocks);
      NoBytes();
      assert Blocks(sp) == [];
      ghost var m, w := sp.m, sp.w;
      PickedOk(m, w, blocks);
      assert Picked(w, blocks) == Picked(old(sp.w), blocks);
      AppendList(sp, blocks);
    }

    /** MemSliceSpan(const void *, size_t): one block with a copy of the bytes, under a slice that is cut
        at 64 KiB. */
    constructor FromBytes(sp: Space, data: seq<uint8>)
      requires sp.Ok() && |data| < 0x1_0000_0000
      modifies sp
      ensures Sound(sp) && base == |old(sp.w)| && blockCount == 1 && size == |data|
      ensures Blocks(sp) == [data[..Min(65536, |data|)]] && (Valid(sp) <==> |data| <= 65536)
      ensures sp.Kept()
      ensures forall k | 0 <= k < |old(sp.w)| :: sp.w[k] == old(sp.w)[k]
    {
      var b := sp.ConstructFour();
      base, size, blockCount := b, |data|, 1;
      new;
      hide Idle, Step, WF, U32, Flatten;
      var id := sp.CreateCopy(data, |data|);
      assert sp.m.bufs[id].data == data;
      AdoptFirst(sp, id);
      FlattenOne(data[..Min(65536, |data|)]);
      FitsU32(|data|);
      FitsU32(Min(65536, |data|));
    }

    /** The copy constructor: shares the live slices of the other span. */
    constructor Copy(sp: Space, a: MemSliceSpan)
      requires a.Sound(sp)
      modifies sp
      ensures Sound(sp) && base == |old(sp.w)| && blockCount == a.blockCount && size == a.size
      ensures Live(sp) == old(a.Live(sp)) && Blocks(sp) == old(a.Blocks(sp))
      ensures sp.Kept()
      ensures forall k | 0 <= k < |old(sp.w)| :: sp.w[k] == old(sp.w)[k]
    {
      var b := sp.ConstructFour();
      base, size, blockCount := b, a.size, a.blockCount;
      new;
      hide Idle, Step, WF;
      SlotsOk(old(sp.m), old(sp.w), a.base, a.blockCount);
      CopySlots(sp, a.base, a.blockCount);
      assert Live(sp) == old(a.Live(sp));
      SlotsOk(sp.m, sp.w, base, blockCount);
      BlocksStay(old(sp.m), old(sp.w), sp.m, Live(sp));
    }

    /** The move constructor: exchanges the live slots for empty ones and leaves the other span empty.
        */
    constructor Move(sp: Space, a: MemSliceSpan)
      requires a.Sound(sp)
      modifies sp, a
      ensures Sound(sp) && base == |old(sp.w)| && blockCount == old(a.blockCount) && size == old(a.size)
      ensures Blocks(sp) == old(a.Blocks(sp))
      ensures a.Valid(sp) && a.blockCount == 0 && a.size == 0
      ensures sp.Kept()
      ensures forall k | 0 <= k < |old(sp.w)| && !a.Owns(k) :: sp.w[k] == old(sp.w)[k]
    {
      var b := sp.ConstructFour();
      base, size, blockCount := b, a.size, a.blockCount;
      new;
      hide Idle, Step, WF, U32, Flatten, UsedSize;
      SlotsOk(old(sp.m), old(sp.w), a.base, a.blockCount);
      SwapSlots(sp, a.base, a.blockCount);
      a.size := 0;
      a.blockCount := 0;
      assert Live(sp) == old(a.Live(sp));
      SlotsOk(sp.m, sp.w, base, blockCount);
      BlocksStay(old(sp.m), old(sp.w), sp.m, Live(sp));
    }

    // ---- the loops the operations share ----

    /** Empties the slots from lo up to hi. */
    method ResetSlots(sp: Space, lo: nat, hi: nat)
      requires sp.Ok() && base + MAX_BLOCKS <= |sp.w| && lo <= MAX_BLOCKS && hi <= MAX_BLOCKS
      modifies sp
      ensures sp.Kept() && |sp.w| == |old(sp.w)|
      ensures forall k {:trigger Slot(base, k)} | lo <= k < hi :: sp.w[Slot(base, k)] == NOTHING
      ensures forall k {:trigger Slot(base, k)} | 0 <= k < MAX_BLOCKS && !(lo <= k < hi) ::
        sp.w[Slot(base, k)] == old(sp.w)[Slot(base, k)]
      ensures forall k | 0 <= k < |sp.w| && !Owns(k) :: sp.w[k] == old(sp.w)[k]
    {
      hide Idle, Step, WF;
      var i := lo;
      while i < hi
        invariant lo <= i && (i <= hi || i == lo)
        invariant sp.Kept() && |sp.w| == |old(sp.w)|
        invariant forall k {:trigger Slot(base, k)} | lo <= k < i :: sp.w[Slot(base, k)] == NOTHING
        invariant forall k {:trigger Slot(base, k)} | 0 <= k < MAX_BLOCKS && !(lo <= k < i) ::
          sp.w[Slot(base, k)] == old(sp.w)[Slot(base, k)]
        invariant forall k | 0 <= k < |sp.w| && !Owns(k) :: sp.w[k] == old(sp.w)[k]
      {
        sp.Reset(Slot(base, i));
        i := i + 1;
      }
    }

    /** Copies the first n slots of another span into the slots of this one. */
    method CopySlots(sp: Space, from: nat, n: nat)
      requires sp.Ok() && base + MAX_BLOCKS <= |sp.w| && n <= MAX_BLOCKS
      requires from + MAX_BLOCKS <= base || base + MAX_BLOCKS <= from <= |sp.w| - MAX_BLOCKS
      modifies sp
      ensures sp.Kept() && |sp.w| == |old(sp.w)|
      ensures Slots(sp.w, base, n) == Slots(old(sp.w), from, n)
      ensures forall k | 0 <= k < |sp.w| && !Owns(k) :: sp.w[k] == old(sp.w)[k]
    {
      hide Idle, Step, WF;
      for i := 0 to n
        invariant sp.Kept() && |sp.w| == |old(sp.w)|
        invariant forall k {:trigger Slot(base, k)} | 0 <= k < i :: sp.w[Slot(base, k)] == old(sp.w)[Slot(from, k)]
        invariant forall k | 0 <= k < |sp.w| && !Owns(k) :: sp.w[k] == old(sp.w)[k]
      {
        sp.Assign(Slot(base, i), Slot(from, i));
      }
    }

    /** Moves the first n slots of another span into the slots of this one, which are exchanged for
        them. */
    method SwapSlots(sp: Space, from: nat, n: nat)
      requires sp.Ok() && base + MAX_BLOCKS <= |sp.w| && n <= MAX_BLOCKS
      requires from + MAX_BLOCKS <= base || base + MAX_BLOCKS <= from <= |sp.w| - MAX_BLOCKS
      modifies sp
      ensures sp.Kept() && |sp.w| == |old(sp.w)|
      ensures Slots(sp.w, base, n) == Slots(old(sp.w), from, n)
      ensures Slots(sp.w, from, n) == Slots(old(sp.w), base, n)
      ensures forall k | 0 <= k < |sp.w| && !(base <= k < base + n) && !(from <= k < from + n) ::
        sp.w[k] == old(sp.w)[k]
    {
      hide Idle, Step, WF;
      for i := 0 to n
        invariant sp.Kept() && |sp.w| == |old(sp.w)|
        invariant forall k {:trigger Slot(base, k)} | 0 <= k < n ::
          sp.w[Slot(base, k)] == if k < i then old(sp.w)[Slot(from, k)] else old(sp.w)[Slot(base, k)]
        invariant forall k {:trigger Slot(from, k)} | 0 <= k < n ::
          sp.w[Slot(from, k)] == if k < i then old(sp.w)[Slot(base, k)] else old(sp.w)[Slot(from, k)]
        invariant forall k | 0 <= k < |sp.w| && !(base <= k < base + n) && !(from <= k < from + n) ::
          sp.w[k] == old(sp.w)[k]
      {
        sp.MoveAssign(Slot(base, i), Slot(from, i));
      }
    }

    /** Moves a temporary slice into the first slot; the temporary then goes with what was in there. */
    method TakeFirst(sp: Space, block: nat)
      requires sp.Ok() && base + MAX_BLOCKS <= |sp.w| && block < |sp.w| && !Owns(block)
      modifies sp
      ensures sp.Kept() && |sp.w| == |old(sp.w)| && sp.w[block] == NOTHING
      ensures SliceOk(old(sp.m), old(sp.w)[block]) && SliceOk(sp.m, old(sp.w)[block])
      ensures Slots(sp.w, base, 1) == [old(sp.w)[block]]
      ensures BlocksOf(sp.m, [old(sp.w)[block]]) == [BytesOf(old(sp.m), old(sp.w)[block])]
      ensures forall k | 0 <= k < |sp.w| && k != block && k != Slot(base, 0) :: sp.w[k] == old(sp.w)[k]
    {
      hide Idle, Step, WF;
      SliceIsOk(sp.m, sp.w, block);
      ghost var taken := sp.w[block];
      sp.MoveAssign(Slot(base, 0), block);
      sp.Destroy(block);
      assert sp.w[Slot(base, 0)] == taken;
      SliceIsOk(sp.m, sp.w, Slot(base, 0));
      BlocksStay(old(sp.m), old(sp.w), sp.m, [taken]);
    }

    /** Moves a temporary slice of a raw block, cut at 64 KiB, into the first slot. */
    method AdoptFirst(sp: Space, id: nat)
      requires sp.Ok() && base + MAX_BLOCKS <= |sp.w| && id in sp.m.bufs
      modifies sp
      ensures sp.Booked() && Idle(sp.m) == Without(old(Idle(sp.m)), To(id))
      ensures |sp.w| == |old(sp.w)| + 1 && sp.w[|old(sp.w)|] == NOTHING
      ensures sp.w[base].buffer == To(id) && sp.w[base].begin == 0
      ensures id in sp.m.bufs && sp.m.bufs[id].data == old(sp.m.bufs[id].data)
      ensures AllOk(sp.m, Slots(sp.w, base, 1))
      ensures var data := old(sp.m.bufs[id].data);
              BlocksOf(sp.m, Slots(sp.w, base, 1)) == [data[..Min(65536, |data|)]]
      ensures forall k | 0 <= k < |old(sp.w)| && k != base :: sp.w[k] == old(sp.w)[k]
    {
      hide Idle, Step, WF, UsedSize;
      var t := sp.Construct(To(id));
      WholeBytes(old(sp.m), old(sp.w), sp.m, sp.w, id, t);
      TakeFirst(sp, t);
      assert Slots(sp.w, base, 1)[0] == sp.w[base];
      SliceIsOk(sp.m, sp.w, Slot(base, 0));
      BlockStays(old(sp.m), old(sp.w), sp.m, id);
    }

    // ---- assignments ----

    /** Copy assignment: shares the live slices of the other span and empties the surplus slots. */
    method AssignCopy(sp: Space, a: MemSliceSpan)
      requires Sound(sp) && a.Sound(sp) && (a == this || Apart(a))
      modifies this, sp
      ensures Sound(sp) && Blocks(sp) == old(a.Blocks(sp)) && size == old(a.size)
      ensures a.Sound(sp) && a.Blocks(sp) == old(a.Blocks(sp)) && a.size == old(a.size)
      ensures forall k {:trigger Slot(base, k)} | blockCount <= k < old(blockCount) :: sp.w[Slot(base, k)] == NOTHING
      ensures sp.Kept() && forall k | 0 <= k < |old(sp.w)| && !Owns(k) :: sp.w[k] == old(sp.w)[k]
    {
      hide Idle, Step, WF;
      if this != a {
        SlotsOk(sp.m, sp.w, a.base, a.blockCount);
        CopySlots(sp, a.base, a.blockCount);
        ResetSlots(sp, a.blockCount, blockCount);
        size := a.size;
        blockCount := a.blockCount;
        assert Live(sp) == old(a.Live(sp)) == a.Live(sp);
        SlotsOk(sp.m, sp.w, base, blockCount);
        BlocksStay(old(sp.m), old(sp.w), sp.m, Live(sp));
      }
    }

    /** operator=(MemSliceSpan &&): the source ends up empty, its slots holding what was here. */
    method AssignMove(sp: Space, a: MemSliceSpan)
      requires Sound(sp) && a.Sound(sp) && (a == this || Apart(a))
      modifies this, a, sp
      ensures Sound(sp) && Blocks(sp) == old(a.Blocks(sp)) && size == old(a.size)
      ensures Live(sp) == old(a.Live(sp))
      ensures a != this ==> a.Valid(sp) && a.blockCount == 0 && a.size == 0
      ensures forall k {:trigger Slot(base, k)} | blockCount <= k < old(blockCount) :: sp.w[Slot(base, k)] == NOTHING
      ensures sp.Kept() && |sp.w| == |old(sp.w)|
      ensures forall k {:trigger Slot(base, k)} | 0 <= k < MAX_BLOCKS && blockCount <= k && old(blockCount) <= k ::
        sp.w[Slot(base, k)] == old(sp.w)[Slot(base, k)]
      ensures forall k | 0 <= k < |old(sp.w)| && !Owns(k) && !a.Owns(k) :: sp.w[k] == old(sp.w)[k]
    {
      hide Idle, Step, WF;
      if this != a {
        SlotsOk(sp.m, sp.w, a.base, a.blockCount);
        SwapSlots(sp, a.base, a.blockCount);
        ResetSlots(sp, a.blockCount, blockCount);
        size := a.size;
        blockCount := a.blockCount;
        a.size := 0;
        a.blockCount := 0;
        assert Live(sp) == old(a.Live(sp));
        SlotsOk(sp.m, sp.w, base, blockCount);
        BlocksStay(old(sp.m), old(sp.w), sp.m, Live(sp));
      }
    }

    /** operator=(MemSlice buffer), whose argument is a temporary of its own. */
    method AssignSlice(sp: Space, block: nat)
      requires Sound(sp) && block < |sp.w| && !Owns(block)
      modifies this, sp
      ensures Valid(sp) && Blocks(sp) == [old(BytesOf(sp.m, sp.w[block]))]
      ensures forall k {:trigger Slot(base, k)} | 1 <= k < old(blockCount) :: sp.w[Slot(base, k)] == NOTHING
      ensures sp.Kept() && |sp.w| == |old(sp.w)| && sp.w[block] == NOTHING
      ensures forall k | 0 <= k < |old(sp.w)| && !Owns(k) && k != block :: sp.w[k] == old(sp.w)[k]
    {
      hide Idle, Step, WF, U32, Flatten, UsedSize;
      SliceFits(sp.m, sp.w, block);
      ghost var taken := sp.w[block];
      ResetSlots(sp, 1, blockCount);
      size := UsedSize(sp.w[block]);
      TakeFirst(sp, block);
      blockCount := 1;
      assert Live(sp) == [taken];
      BlocksStay(old(sp.m), old(sp.w), sp.m, [taken]);
      ghost var b := BytesOf(old(sp.m), taken);
      assert Blocks(sp) == [b];
      FlattenOne(b);
    }

    /** operator=(const MemBuf *): by way of a temporary slice, so that size_ is what that shows. */
    method AssignBuf(sp: Space, buf: Ref)
      requires Sound(sp) && (buf.To? ==> buf.id in sp.m.bufs)
      modifies this, sp
      ensures Valid(sp) && blockCount == 1
      ensures buf.Null? ==> Blocks(sp) == [[]]
      ensures buf.To? ==> var data := old(sp.m.bufs[buf.id].data); Blocks(sp) == [data[..Min(65536, |data|)]]
      ensures sp.Booked() && Idle(sp.m) == Without(old(Idle(sp.m)), buf)
      ensures forall k | 0 <= k < |old(sp.w)| && !Owns(k) :: sp.w[k] == old(sp.w)[k]
    {
      hide Idle, Step, WF, U32, Flatten, UsedSize;
      ghost var m0, w0 := sp.m, sp.w;
      var t := sp.Construct(buf);
      if buf.To? {
        WholeBytes(m0, w0, sp.m, sp.w, buf.id, t);
      }
      AssignSlice(sp, t);
    }

    /** ~MemSliceSpan: all four slots go, the stale ones too. */
    method DestroySlots(sp: Space)
      requires sp.Ok() && base + MAX_BLOCKS <= |sp.w|
      modifies sp
      ensures sp.Kept() && |sp.w| == |old(sp.w)|
      ensures forall k {:trigger Slot(base, k)} | 0 <= k < MAX_BLOCKS :: sp.w[Slot(base, k)] == NOTHING
      ensures forall k | 0 <= k < |sp.w| && !Owns(k) :: sp.w[k] == old(sp.w)[k]
    {
      hide Idle, Step, WF;
      var i := MAX_BLOCKS;
      while i > 0
        invariant 0 <= i <= MAX_BLOCKS && sp.Kept() && |sp.w| == |old(sp.w)|
        invariant forall k {:trigger Slot(base, k)} | i <= k < MAX_BLOCKS :: sp.w[Slot(base, k)] == NOTHING
        invariant forall k | 0 <= k < |sp.w| && !Owns(k) :: sp.w[k] == old(sp.w)[k]
      {
        i := i - 1;
        sp.Destroy(Slot(base, i));
      }
    }

    // ---- growing and clearing ----

    /** Appends the block, or refuses at four blocks; the temporary argument is used up either way. */
    method PushBack(sp: Space, block: nat) returns (ok: bool)
      requires Valid(sp) && block < |sp.w| && !Owns(block)
      modifies this, sp
      ensures Valid(sp) && (ok <==> old(blockCount) < MAX_BLOCKS)
      ensures Blocks(sp) == if ok then old(Blocks(sp)) + [old(BytesOf(sp.m, sp.w[block]))] else old(Blocks(sp))
      ensures !ok ==> size == old(size)
      ensures sp.Kept() && |sp.w| == |old(sp.w)| && sp.w[block] == NOTHING
      ensures forall k | 0 <= k < |old(sp.w)| && !Owns(k) && k != block :: sp.w[k] == old(sp.w)[k]
    {
      hide Idle, Step, WF;
      ok := blockCount < MAX_BLOCKS;
      if ok {
        Append(sp, block);
      } else {
        SlotsOk(sp.m, sp.w, base, blockCount);
        sp.Destroy(block);
        assert Live(sp) == old(Live(sp));
        SlotsOk(sp.m, sp.w, base, blockCount);
        BlocksStay(old(sp.m), old(sp.w), sp.m, Live(sp));
      }
    }

    method Append(sp: Space, block: nat)
      requires Valid(sp) && block < |sp.w| && !Owns(block) && blockCount < MAX_BLOCKS
      modifies this, sp
      ensures Valid(sp) && Blocks(sp) == old(Blocks(sp)) + [old(BytesOf(sp.m, sp.w[block]))]
      ensures sp.Kept() && |sp.w| == |old(sp.w)| && sp.w[block] == NOTHING
      ensures forall k | 0 <= k < |old(sp.w)| && !Owns(k) && k != block :: sp.w[k] == old(sp.w)[k]
    {
      hide Idle, Step, WF, U32, Flatten, UsedSize;
      SliceFits(sp.m, sp.w, block);
      SlotsOk(sp.m, sp.w, base, blockCount);
      ghost var live, taken, bs := Live(sp), sp.w[block], Blocks(sp);
      ghost var more := BytesOf(sp.m, taken);
      BlocksAppend(sp.m, live, taken);
      size := U32(size + UsedSize(sp.w[block]));
      sp.MoveAssign(Slot(base, blockCount), block);
      blockCount := blockCount + 1;
      sp.Destroy(block);
      assert Live(sp) == live + [taken];
      SlotsOk(sp.m, sp.w, base, blockCount);
      BlocksStay(old(sp.m), old(sp.w), sp.m, live + [taken]);
      assert Blocks(sp) == bs + [more];
      PushedSize(bs, more, old(size), size);
    }

    /** Appends a copy of a slice, which stays as it is. */
    method AppendCopy(sp: Space, block: nat)
      requires Valid(sp) && block < |sp.w| && !Owns(block) && blockCount < MAX_BLOCKS
      modifies this, sp
      ensures Valid(sp) && Blocks(sp) == old(Blocks(sp)) + [old(BytesOf(sp.m, sp.w[block]))]
      ensures sp.Kept() && |sp.w| == |old(sp.w)| && blockCount == old(blockCount) + 1
      ensures forall k | 0 <= k < |old(sp.w)| && !Owns(k) :: sp.w[k] == old(sp.w)[k]
    {
      hide Idle, Step, WF, U32, Flatten, UsedSize;
      SliceFits(sp.m, sp.w, block);
      SlotsOk(sp.m, sp.w, base, blockCount);
      ghost var live, taken, bs := Live(sp), sp.w[block], Blocks(sp);
      ghost var more := BytesOf(sp.m, taken);
      BlocksAppend(sp.m, live, taken);
      size := U32(size + UsedSize(sp.w[block]));
      sp.Assign(Slot(base, blockCount), block);
      blockCount := blockCount + 1;
      assert Live(sp) == live + [taken];
      SlotsOk(sp.m, sp.w, base, blockCount);
      BlocksStay(old(sp.m), old(sp.w), sp.m, live + [taken]);
      assert Blocks(sp) == bs + [more];
      PushedSize(bs, more, old(size), size);
    }

    /** The slices of a list, one after the other, as long as there is room. */
    method AppendList(sp: Space, blocks: seq<nat>)
      requires Valid(sp) && blockCount == 0
      requires forall i | 0 <= i < |blocks| :: blocks[i] < |sp.w| && !Owns(blocks[i])
      requires AllOk(sp.m, Picked(sp.w, blocks))
      modifies this, sp
      ensures Valid(sp) && blockCount == Min(MAX_BLOCKS, |blocks|)
      ensures Blocks(sp) == old(BlocksOf(sp.m, Picked(sp.w, blocks)))[..blockCount]
      ensures sp.Kept() && |sp.w| == |old(sp.w)|
      ensures forall k | 0 <= k < |old(sp.w)| && !Owns(k) :: sp.w[k] == old(sp.w)[k]
    {
      hide Idle, Step, WF, U32, Flatten, UsedSize, BytesOf;
      ghost var ss := Picked(sp.w, blocks);
      ghost var all := BlocksOf(sp.m, ss);
      ghost var m, w := sp.m, sp.w;
      assert Blocks(sp) == [];
      var i := 0;
      while i < |blocks| && blockCount < MAX_BLOCKS
        invariant i == blockCount <= |blocks| && blockCount <= MAX_BLOCKS && Valid(sp) && Blocks(sp) == all[..i]
        invariant sp.Kept() && |sp.w| == |old(sp.w)|
        invariant forall k | 0 <= k < |old(sp.w)| && !Owns(k) :: sp.w[k] == old(sp.w)[k]
      {
        assert sp.w[blocks[i]] == ss[i];
        SliceIsOk(sp.m, sp.w, blocks[i]);
        BlockStaysBytes(m, w, sp.m, ss[i]);
        assert all[i] == BytesOf(sp.m, sp.w[blocks[i]]);
        PrefixNext(all, i);
        AppendCopy(sp, blocks[i]);
        i := i + 1;
      }
    }

    /** Empties the live slots, then stores the block, or nothing when it shows no bytes. */
    method Reset(sp: Space, block: nat)
      requires Sound(sp) && block < |sp.w| && !Owns(block)
      modifies this, sp
      ensures Valid(sp) && Bytes(sp) == old(BytesOf(sp.m, sp.w[block]))
      ensures blockCount == if |Bytes(sp)| == 0 then 0 else 1
      ensures forall k {:trigger Slot(base, k)} | 1 <= k < old(blockCount) :: sp.w[Slot(base, k)] == NOTHING
      ensures sp.Kept() && |sp.w| == |old(sp.w)| && sp.w[block] == NOTHING
      ensures forall k | 0 <= k < |old(sp.w)| && !Owns(k) && k != block :: sp.w[k] == old(sp.w)[k]
    {
      hide Idle, Step, WF, U32, Flatten, UsedSize;
      SliceFits(sp.m, sp.w, block);
      ghost var taken := sp.w[block];
      ClearSlots(sp);
      TakeFirst(sp, block);
      size := UsedSize(sp.w[Slot(base, 0)]);
      blockCount := if size == 0 then 0 else 1;
      assert Slots(sp.w, base, 1)[0] == taken;
      BlocksStay(old(sp.m), old(sp.w), sp.m, [taken]);
      ghost var b := BytesOf(old(sp.m), taken);
      assert BlocksOf(old(sp.m), [taken]) == [b];
      if blockCount == 0 {
        assert Blocks(sp) == [];
        NoBytes();
      } else {
        assert Live(sp) == [taken];
        FlattenOne(b);
      }
    }

    /** Reset with its default argument, an empty slice. */
    method ResetToNothing(sp: Space)
      requires Sound(sp)
      modifies this, sp
      ensures Valid(sp) && Bytes(sp) == [] && sp.Kept()
      ensures forall k | 0 <= k < |old(sp.w)| && !Owns(k) :: sp.w[k] == old(sp.w)[k]
    {
      hide Idle, Step, WF, Flatten, U32, UsedSize;
      var t := sp.Construct(Null);
      SliceIsOk(sp.m, sp.w, t);
      Reset(sp, t);
    }

    /** Empties the live slots, last to first. */
    method ClearSlots(sp: Space)
      requires Sound(sp)
      modifies sp
      ensures sp.Kept() && |sp.w| == |old(sp.w)|
      ensures forall k {:trigger Slot(base, k)} | 0 <= k < blockCount :: sp.w[Slot(base, k)] == NOTHING
      ensures forall k | 0 <= k < |sp.w| && !Owns(k) :: sp.w[k] == old(sp.w)[k]
    {
      hide Idle, Step, WF;
      var i: int := blockCount - 1;
      while i >= 0
        invariant i < blockCount && sp.Kept() && |sp.w| == |old(sp.w)|
        invariant forall k {:trigger Slot(base, k)} | 0 <= k < blockCount && i < k :: sp.w[Slot(base, k)] == NOTHING
        invariant forall k | 0 <= k < |sp.w| && !Owns(k) :: sp.w[k] == old(sp.w)[k]
      {
        sp.Reset(Slot(base, i));
        i := i - 1;
      }
    }

    // ---- copies of the bytes ----

    /** No live slot holds a null slice, which has no address to read from. */
    ghost predicate Readable(sp: Space)
      reads this, sp
      requires Sound(sp)
    {
      forall i | 0 <= i < blockCount :: Live(sp)[i].buffer.To?
    }

    /** CloneSpannedMem: one new block with all the bytes, held by nobody yet. */
    method CloneSpannedMem(sp: Space) returns (id: nat)
      requires Valid(sp) && Readable(sp) && |Bytes(sp)| < 0x1_0000_0000
      modifies sp
      ensures sp.Booked() && sp.w == old(sp.w) && Sound(sp)
      ensures Idle(sp.m) == old(Idle(sp.m)) + {id} && id !in old(Idle(sp.m))
      ensures id !in old(sp.m.bufs) && id in sp.m.bufs
      ensures sp.m.bufs[id].data == old(Bytes(sp)) && sp.m.bufs[id].refCnt == 0
    {
      hide Idle, Step, WF, U32, UsedSize, Flatten;
      FitsU32(|Bytes(sp)|);
      NoBytes();
      SlotsOk(sp.m, sp.w, base, blockCount);
      ghost var ss, bs := Live(sp), Blocks(sp);
      id := sp.CreateRaw(size);
      var q: nat := 0;
      assert bs[..0] == [];
      for i := 0 to blockCount
        invariant sp.Booked() && Idle(sp.m) == old(Idle(sp.m)) + {id}
        invariant sp.w == old(sp.w) && id !in old(sp.m.bufs) && id in sp.m.bufs
        invariant sp.m.bufs[id].refCnt == 0 && |sp.m.bufs[id].data| == |Flatten(bs)|
        invariant q == |Flatten(bs[..i])| <= |Flatten(bs)|
        invariant sp.m.bufs[id].data[..q] == Flatten(bs[..i])
      {
        SliceFits(sp.m, sp.w, Slot(base, i));
        SliceIsOk(old(sp.m), old(sp.w), Slot(base, i));
        var src := BytesOf(sp.m, sp.w[Slot(base, i)]);
        BlockStaysBytes(old(sp.m), old(sp.w), sp.m, ss[i]);
        FlattenPrefix(bs, i);
        sp.Fill(id, q, src);
        q := q + UsedSize(sp.w[Slot(base, i)]);
      }
      assert bs[..blockCount] == bs;
    }

    /** ToRawBuffer: the bytes as a vector. */
    method ToRawBuffer(sp: Space) returns (r: seq<uint8>)
      requires Valid(sp) && Readable(sp) && |Bytes(sp)| < 0x1_0000_0000
      ensures r == Bytes(sp)
    {
      hide Idle, WF, U32, Flatten;
      FitsU32(|Bytes(sp)|);
      NoBytes();
      ghost var bs := Blocks(sp);
      r := [];
      assert bs[..0] == [];
      if blockCount > 0 && size != 0 {
        for i := 0 to blockCount
          invariant r == Flatten(bs[..i])
        {
          SliceIsOk(sp.m, sp.w, Slot(base, i));
          FlattenPrefix(bs, i);
          r := r + BytesOf(sp.m, sp.w[Slot(base, i)]);
        }
        assert bs[..blockCount] == bs;
      } else {
        assert blockCount == 0 ==> bs == [];
      }
    }

    /** ToSingleBlock: at most one block is copied as it is; several are merged into a new block that
        holds all the bytes. The new span shows them all exactly when they are at most 65536. */
    method ToSingleBlock(sp: Space) returns (r: MemSliceSpan)
      requires Valid(sp) && Readable(sp) && |Bytes(sp)| < 0x1_0000_0000
      modifies sp
      ensures fresh(r) && r.Sound(sp) && r.base >= |old(sp.w)| && r.size == size
      ensures r.blockCount == if blockCount <= 1 then blockCount else 1
      ensures blockCount <= 1 ==> r.Valid(sp) && r.Blocks(sp) == old(Blocks(sp)) && r.Live(sp) == old(Live(sp))
      ensures blockCount > 1 ==> r.Blocks(sp) == [old(Bytes(sp))[..Min(65536, |old(Bytes(sp))|)]]
      ensures blockCount > 1 ==>
        var s := sp.w[r.base];
        s.buffer.To? && s.begin == 0 && s.buffer.id in sp.m.bufs && sp.m.bufs[s.buffer.id].data == old(Bytes(sp))
      ensures blockCount > 1 ==> (r.Valid(sp) <==> |old(Bytes(sp))| <= 65536)
      ensures blockCount > 1 ==> r.base == |old(sp.w)| && forall k | r.base < k < |sp.w| :: sp.w[k] == NOTHING
      ensures blockCount > 1 ==> sp.w[r.base].buffer.id >= old(sp.m.next)
      ensures sp.Kept()
      ensures forall k | 0 <= k < |old(sp.w)| :: sp.w[k] == old(sp.w)[k]
    {
      hide Idle, Step, WF, U32, Flatten;
      FitsU32(|Bytes(sp)|);
      if blockCount <= 1 {
        r := new MemSliceSpan.Copy(sp, this);
      } else {
        var id := CloneSpannedMem(sp);
        r := new MemSliceSpan.FromBuf(sp, To(id));
      }
    }

    /** Clone: every live block copied, so that no block is shared with the original. */
    method Clone(sp: Space) returns (r: MemSliceSpan)
      requires Valid(sp) && Readable(sp)
      modifies sp
      ensures fresh(r) && r.Valid(sp) && r.base >= |old(sp.w)| && r.size == size
      ensures r.Blocks(sp) == old(Blocks(sp))
      ensures AllNew(r.Live(sp), old(sp.m.next))
      ensures sp.Kept()
      ensures forall k | 0 <= k < |old(sp.w)| :: sp.w[k] == old(sp.w)[k]
    {
      hide Idle, Step, WF, U32, Flatten, AllNew, BytesOf, UsedSize;
      SlotsOk(sp.m, sp.w, base, blockCount);
      ghost var ss, bs := Live(sp), Blocks(sp);
      r := new MemSliceSpan.Empty(sp);
      NoneNew(Slots(sp.w, r.base, 0), old(sp.m.next));
      for i := 0 to blockCount
        invariant sp.Kept() && r.base + MAX_BLOCKS <= |sp.w|
        invariant forall k | 0 <= k < |old(sp.w)| :: sp.w[k] == old(sp.w)[k]
        invariant AllOk(sp.m, Slots(sp.w, r.base, i)) && BlocksOf(sp.m, Slots(sp.w, r.base, i)) == bs[..i]
        invariant AllNew(Slots(sp.w, r.base, i), old(sp.m.next))
      {
        SliceIsOk(sp.m, sp.w, Slot(base, i));
        assert sp.w[Slot(base, i)] == ss[i];
        BlockStaysBytes(old(sp.m), old(sp.w), sp.m, ss[i]);
        r.CloneNext(sp, Slot(base, i), i);
        PrefixNext(bs, i);
      }
      r.size := size;
      r.blockCount := blockCount;
      assert bs[..blockCount] == bs;
    }

    /** Stores a clone of a slice in slot i, where the slots before i are already cloned. */
    method CloneNext(sp: Space, source: nat, i: nat)
      requires sp.Ok() && base + MAX_BLOCKS <= |sp.w| && i < MAX_BLOCKS
      requires source < |sp.w| && sp.w[source].buffer.To? && !Owns(source)
      requires AllOk(sp.m, Slots(sp.w, base, i)) && SliceOk(sp.m, sp.w[source])
      modifies sp
      ensures sp.Kept()
      ensures forall k | 0 <= k < |old(sp.w)| && !Owns(k) :: sp.w[k] == old(sp.w)[k]
      ensures AllOk(sp.m, Slots(sp.w, base, i + 1))
      ensures BlocksOf(sp.m, Slots(sp.w, base, i + 1)) ==
              BlocksOf(old(sp.m), Slots(old(sp.w), base, i)) + [BytesOf(old(sp.m), old(sp.w)[source])]
      ensures forall n: nat :: n <= old(sp.m.next) && AllNew(Slots(old(sp.w), base, i), n) ==>
                AllNew(Slots(sp.w, base, i + 1), n)
    {
      hide Idle, Step, WF;
      ghost var done := Slots(sp.w, base, i);
      CloneInto(sp, source, i);
      assert Slots(sp.w, base, i + 1) == done + [sp.w[Slot(base, i)]];
      SlotsOk(sp.m, sp.w, base, i);
      assert Slots(sp.w, base, i) == done;
      BlocksStay(old(sp.m), old(sp.w), sp.m, done);
      BlocksAppend(sp.m, done, sp.w[Slot(base, i)]);
    }

    method CloneInto(sp: Space, source: nat, i: nat)
      requires sp.Ok() && base + MAX_BLOCKS <= |sp.w| && i < MAX_BLOCKS
      requires source < |sp.w| && sp.w[source].buffer.To? && !Owns(source)
      modifies sp
      ensures sp.Kept()
      ensures forall k | 0 <= k < |old(sp.w)| && k != Slot(base, i) :: sp.w[k] == old(sp.w)[k]
      ensures var s := sp.w[Slot(base, i)];
              && s.buffer.To? && s.buffer.id >= old(sp.m.next) && SliceOk(sp.m, s)
              && SliceOk(old(sp.m), old(sp.w)[source]) && BytesOf(sp.m, s) == BytesOf(old(sp.m), old(sp.w)[source])
    {
      hide Idle, Step, WF;
      SliceIsOk(sp.m, sp.w, source);
      var t := sp.Clone(source);
      ghost var m1, w1 := sp.m, sp.w;
      SliceIsOk(m1, w1, t);
      sp.MoveAssign(Slot(base, i), t);
      sp.Destroy(t);
      SliceIsOk(sp.m, sp.w, Slot(base, i));
      BlockStaysBytes(m1, w1, sp.m, w1[t]);
    }

    // ---- skipping bytes at the front ----

    /** The first loop of AdjustBeginPointer: consumes `offset` bytes from the front and returns the
        number of slots that are used up. */
    method TrimFront(sp: Space, offset: uint32) returns (pos: nat)
      requires Sound(sp) && offset < |Bytes(sp)|
      modifies sp
      ensures sp.Kept() && |sp.w| == |old(sp.w)| && sp.m == old(sp.m) && Sound(sp)
      ensures pos == Dropped(old(Blocks(sp)), offset) < blockCount
      ensures Blocks(sp)[pos..] == Survivors(old(Blocks(sp)), offset)
      ensures forall k | 0 <= k < pos :: Blocks(sp)[k] == []
      ensures forall k | 0 <= k < |sp.w| && !Owns(k) :: sp.w[k] == old(sp.w)[k]
    {
      hide Idle, Step, WF, Flatten, Scanning, Dropped, Survivors, UsedSize;
      ghost var bs := Blocks(sp);
      var left: uint32 := offset;
      pos := 0;
      ScanStarts(bs, offset);
      while pos < blockCount
        invariant pos < blockCount && sp.Kept() && |sp.w| == |old(sp.w)| && sp.m == old(sp.m) && Sound(sp)
        invariant Scanning(bs, offset, pos, left)
        invariant Blocks(sp)[pos..] == bs[pos..]
        invariant forall k | 0 <= k < pos :: Blocks(sp)[k] == []
        invariant forall k | 0 <= k < |sp.w| && !Owns(k) :: sp.w[k] == old(sp.w)[k]
      {
        ScanStep(bs, offset, pos, left);
        assert Blocks(sp)[pos] == Blocks(sp)[pos..][0] == bs[pos..][0] == bs[pos];
        ghost var now := Blocks(sp);
        var count := SkipFront(sp, pos, left);
        left := left - count;
        assert Blocks(sp)[pos + 1..] == now[pos..][1..] == bs[pos..][1..] == bs[pos + 1..];
        assert Blocks(sp)[pos] == bs[pos][count..];
        if left == 0 {
          if UsedSize(sp.w[Slot(base, pos)]) == 0 {
            pos := pos + 1;
          }
          break;
        }
        pos := pos + 1;
      }
    }

    /** Moves the begin of one slot forward by what is left to skip, or by all it shows if that is less.
        */
    method SkipFront(sp: Space, pos: nat, left: uint32) returns (count: uint32)
      requires Sound(sp) && pos < blockCount
      modifies sp
      ensures sp.Kept() && |sp.w| == |old(sp.w)| && sp.m == old(sp.m) && Sound(sp)
      ensures count == Min(left, |old(Blocks(sp)[pos])|)
      ensures Blocks(sp) == old(Blocks(sp))[pos := old(Blocks(sp))[pos][count..]]
      ensures UsedSize(sp.w[Slot(base, pos)]) == |Blocks(sp)[pos]|
      ensures forall k | 0 <= k < |sp.w| && !Owns(k) :: sp.w[k] == old(sp.w)[k]
    {
      hide Idle, Step, WF, UsedSize;
      SliceFits(sp.m, sp.w, Slot(base, pos));
      assert Blocks(sp)[pos] == BytesOf(sp.m, sp.w[Slot(base, pos)]);
      count := Min(left, UsedSize(sp.w[Slot(base, pos)]));
      Advance(sp.m, sp.w, Slot(base, pos), count);
      sp.AdjustBegin(Slot(base, pos), count);
      SliceFits(sp.m, sp.w, Slot(base, pos));
      assert Blocks(sp)[pos] == BytesOf(sp.m, sp.w[Slot(base, pos)]);
    }

    /** The second loop of AdjustBeginPointer: moves each surviving slot into slot 0, since the index it
        should move to never advances. */
    method CompactStuck(sp: Space, first: nat, n: nat)
      requires sp.Ok() && base + MAX_BLOCKS <= |sp.w| && 1 <= first <= n <= MAX_BLOCKS
      modifies sp
      ensures sp.Kept() && |sp.w| == |old(sp.w)| && sp.m == old(sp.m)
      ensures Slots(sp.w, base, n) == Rotated(Slots(old(sp.w), base, n), first, n)
      ensures forall k | 0 <= k < |sp.w| && !Owns(k) :: sp.w[k] == old(sp.w)[k]
    {
      hide Idle, Step, WF, Rotated;
      ghost var ss := Slots(sp.w, base, n);
      var pos := first;
      RotatedNone(ss, first);
      while pos < n
        invariant first <= pos <= n && sp.Kept() && |sp.w| == |old(sp.w)| && sp.m == old(sp.m)
        invariant Slots(sp.w, base, n) == Rotated(ss, first, pos)
        invariant forall k | 0 <= k < |sp.w| && !Owns(k) :: sp.w[k] == old(sp.w)[k]
      {
        RotatedStep(ss, first, pos);
        SwapPair(sp, n, 0, pos);
        pos := pos + 1;
      }
    }

    /** The same loop with the index advancing, as its shape suggests it was meant. */
    method CompactAdvancing(sp: Space, first: nat, n: nat)
      requires sp.Ok() && base + MAX_BLOCKS <= |sp.w| && 1 <= first <= n <= MAX_BLOCKS
      modifies sp
      ensures sp.Kept() && |sp.w| == |old(sp.w)| && sp.m == old(sp.m)
      ensures Slots(sp.w, base, n)[..n - first] == Slots(old(sp.w), base, n)[first..]
      ensures forall k | 0 <= k < |sp.w| && !Owns(k) :: sp.w[k] == old(sp.w)[k]
    {
      hide Idle, Step, WF;
      ghost var ss := Slots(sp.w, base, n);
      var k, pos := 0, first;
      while pos < n
        invariant first <= pos <= n && k == pos - first && sp.Kept() && |sp.w| == |old(sp.w)| && sp.m == old(sp.m)
        invariant Slots(sp.w, base, n)[..k] == ss[first..pos]
        invariant Slots(sp.w, base, n)[pos..] == ss[pos..]
        invariant forall k | 0 <= k < |sp.w| && !Owns(k) :: sp.w[k] == old(sp.w)[k]
      {
        ghost var now := Slots(sp.w, base, n);
        assert now[pos] == now[pos..][0] == ss[pos..][0] == ss[pos];
        SwapPair(sp, n, k, pos);
        assert Slots(sp.w, base, n)[..k + 1] == now[..k] + [now[pos]] == ss[first..pos + 1];
        assert Slots(sp.w, base, n)[pos + 1..] == now[pos..][1..] == ss[pos..][1..];
        k, pos := k + 1, pos + 1;
      }
    }

    /** Moves slot j into slot i, which exchanges the two. */
    method SwapPair(sp: Space, n: nat, i: nat, j: nat)
      requires sp.Ok() && base + MAX_BLOCKS <= |sp.w| && n <= MAX_BLOCKS && i < n && j < n
      modifies sp
      ensures sp.Kept() && |sp.w| == |old(sp.w)| && sp.m == old(sp.m)
      ensures var ss := Slots(old(sp.w), base, n);
              Slots(sp.w, base, n) == ss[i := ss[j]][j := ss[i]]
      ensures forall k | 0 <= k < |sp.w| && !Owns(k) :: sp.w[k] == old(sp.w)[k]
    {
      hide Idle, WF;
      sp.MoveAssign(Slot(base, i), Slot(base, j));
    }

    /** AdjustBeginPointer as it is written. It leaves the bytes from `offset` on exactly when the
        compaction loop is harmless for this span; size_ is reduced in any case. */
    method AdjustBegin(sp: Space, offset: uint32)
      requires Valid(sp) && |Bytes(sp)| < 0x1_0000_0000
      modifies this, sp
      ensures Sound(sp) && sp.Kept()
      ensures offset >= |old(Bytes(sp))| ==> Valid(sp) && Bytes(sp) == []
      ensures offset < |old(Bytes(sp))| ==>
        var dropped := Dropped(old(Blocks(sp)), offset);
        && size == |old(Bytes(sp))| - offset && blockCount == old(blockCount) - dropped
        && (Bytes(sp) == old(Bytes(sp))[offset..] <==> Harmless(dropped, Survivors(old(Blocks(sp)), offset)))
        && (Bytes(sp) == old(Bytes(sp))[offset..] ==> Valid(sp))
      ensures forall k | 0 <= k < |old(sp.w)| && !Owns(k) :: sp.w[k] == old(sp.w)[k]
    {
      hide Idle, Step, WF, Flatten, U32, Dropped, Survivors, Shown, Harmless;
      FitsU32(|Bytes(sp)|);
      if offset >= size {
        ResetToNothing(sp);
        return;
      }
      var pos := TrimFront(sp, offset);
      ghost var m1, w1, bs := sp.m, sp.w, Blocks(sp);
      SlotsOk(m1, w1, base, blockCount);
      ghost var ss := Live(sp);
      var n := blockCount;
      blockCount := blockCount - pos;
      size := size - offset;
      if pos != 0 {
        CompactStuck(sp, pos, n);
      }
      assert Live(sp) == Shown(ss, pos) by { ShownSlots(sp.w, base, n, ss, pos); }
      assert Bytes(sp) == Flatten(Shown(bs, pos)) by { ShownBlocks(m1, ss, pos); }
      StuckCompaction(bs, pos);
      SurvivorsAreSuffix(old(Blocks(sp)), offset);
      FitsU32(|old(Bytes(sp))| - offset);
    }

    /** AdjustBeginPointer with the advancing index: right for every span. */
    method AdjustBeginIntended(sp: Space, offset: uint32)
      requires Valid(sp) && |Bytes(sp)| < 0x1_0000_0000
      modifies this, sp
      ensures Valid(sp) && sp.Kept()
      ensures Bytes(sp) == if offset >= |old(Bytes(sp))| then [] else old(Bytes(sp))[offset..]
      ensures forall k | 0 <= k < |old(sp.w)| && !Owns(k) :: sp.w[k] == old(sp.w)[k]
    {
      hide Idle, Step, WF, Flatten, U32, Dropped, Survivors;
      FitsU32(|Bytes(sp)|);
      if offset >= size {
        ResetToNothing(sp);
        return;
      }
      var pos := TrimFront(sp, offset);
      ghost var m1, bs := sp.m, Blocks(sp);
      SlotsOk(sp.m, sp.w, base, blockCount);
      ghost var ss := Live(sp);
      var n := blockCount;
      blockCount := blockCount - pos;
      size := size - offset;
      if pos != 0 {
        CompactAdvancing(sp, pos, n);
      }
      assert Live(sp) == ss[pos..] by { PrefixSlots(sp.w, base, n, n - pos); }
      assert Blocks(sp) == bs[pos..];
      SurvivorsAreSuffix(old(Blocks(sp)), offset);
      FitsU32(|old(Bytes(sp))| - offset);
    }
  }

  /** The smallest block that is too large: its span claims one byte more than it shows. */
  method SpanOfLargeBlock(sp: Space) returns (s: MemSliceSpan)
    requires sp.Ok()
    modifies sp
    ensures s.Sound(sp) && s.size == 65537 && |s.Bytes(sp)| == 65536 && !s.Valid(sp)
  {
    hide Idle, Step, WF;
    var id := sp.CreateRaw(65537);
    s := new MemSliceSpan.FromBuf(sp, To(id));
    FlattenOne(s.Blocks(sp)[0]);
    assert s.Blocks(sp) == [s.Blocks(sp)[0]];
  }

  lemma PrefixSlots(w: seq<Slice>, base: nat, n: nat, k: nat)
    requires k <= n && base + n <= |w|
    ensures Slots(w, base, k) == Slots(w, base, n)[..k]
  {
  }

  lemma RotatedNone<T>(ss: seq<T>, s: nat)
    requires 1 <= s <= |ss|
    ensures Rotated(ss, s, s) == ss
  {
  }

  lemma ShownSlots(w: seq<Slice>, base: nat, n: nat, ss: seq<Slice>, dropped: nat)
    requires base + n <= |w| && |ss| == n && dropped < n
    requires Slots(w, base, n) == if dropped == 0 then ss else Rotated(ss, dropped, n)
    ensures Slots(w, base, n - dropped) == Shown(ss, dropped)
  {
    PrefixSlots(w, base, n, n - dropped);
  }

  /** Compacting slices compacts the blocks they show. */
  lemma ShownBlocks(m: Mem, ss: seq<Slice>, dropped: nat)
    requires AllOk(m, ss) && dropped < |ss|
    ensures AllOk(m, Shown(ss, dropped)) && BlocksOf(m, Shown(ss, dropped)) == Shown(BlocksOf(m, ss), dropped)
  {
  }

  lemma NoneNew(ss: seq<Slice>, n: nat)
    requires ss == []
    ensures AllNew(ss, n)
  {
  }

  lemma PrefixNext(bs: seq<Block>, i: nat)
    requires i < |bs|
    ensures bs[..i + 1] == bs[..i] + [bs[i]]
  {
  }

  /** Moving the begin of a slice forward inside the slice cuts off its first bytes. */
  lemma Advance(m: Mem, w: seq<Slice>, i: nat, count: nat)
    requires WF(m, w) && i < |w| && SliceOk(m, w[i]) && count <= |BytesOf(m, w[i])|
    ensures var s := BeginMoved(w[i], count);
            SliceOk(m, s) && BytesOf(m, s) == BytesOf(m, w[i])[count..]
  {
    SliceFits(m, w, i);
  }

  /** Every slice is on a block created at address n or later. */
  predicate AllNew(ss: seq<Slice>, n: nat) {
    forall i | 0 <= i < |ss| :: ss[i].buffer.To? && ss[i].buffer.id >= n
  }

  function CapacityOf(m: Mem, ghost w: seq<Slice>, id: nat): uint32
    requires WF(m, w) && id in m.bufs
  {
    |m.bufs[id].data|
  }

  lemma CapacityFits(m: Mem, w: seq<Slice>, id: nat)
    requires WF(m, w) && id in m.bufs
    ensures |m.bufs[id].data| < 0x1_0000_0000 && U32(|m.bufs[id].data|) == |m.bufs[id].data|
  {
  }

  lemma WholeBytes(m: Mem, w: seq<Slice>, m': Mem, w': seq<Slice>, id: nat, t: nat)
    requires WF(m, w) && id in m.bufs && WF(m', w') && Later(m, m')
    requires t < |w'| && w'[t] == Whole(m, To(id), 65536)
    ensures BytesOf(m', w'[t]) == m.bufs[id].data[..Min(65536, |m.bufs[id].data|)]
  {
    SliceIsOk(m', w', t);
    BlockStays(m, w, m', id);
  }

  lemma BlockStays(m: Mem, w: seq<Slice>, m': Mem, id: nat)
    requires WF(m, w) && id in m.bufs && id in m'.bufs && Later(m, m')
    ensures m'.bufs[id].data == m.bufs[id].data
  {
  }

  lemma FitsU32(n: nat)
    requires n < 0x1_0000_0000
    ensures U32(n) == n
  {
  }

  lemma NoBytes()
    ensures Flatten([]) == [] && U32(0) == 0
  {
  }

  lemma BlockStaysBytes(m: Mem, w: seq<Slice>, m': Mem, s: Slice)
    requires WF(m, w) && Later(m, m') && SliceOk(m, s) && SliceOk(m', s)
    ensures BytesOf(m', s) == BytesOf(m, s)
  {
  }

  lemma SliceIsOk(m: Mem, w: seq<Slice>, i: nat)
    requires WF(m, w) && i < |w|
    ensures SliceOk(m, w[i])
  {
  }

  lemma SliceFits(m: Mem, w: seq<Slice>, i: nat)
    requires WF(m, w) && i < |w|
    ensures SliceOk(m, w[i]) && UsedSize(w[i]) == |BytesOf(m, w[i])| == U32(|BytesOf(m, w[i])|)
  {
  }

  lemma BlocksAppend(m: Mem, ss: seq<Slice>, s: Slice)
    requires AllOk(m, ss) && SliceOk(m, s)
    ensures AllOk(m, ss + [s]) && BlocksOf(m, ss + [s]) == BlocksOf(m, ss) + [BytesOf(m, s)]
  {
  }

  /** Adding to a size that is kept in 32 bits. */
  lemma PushedSize(bs: seq<Block>, b: Block, before: uint32, after: uint32)
    requires before == U32(|Flatten(bs)|) && after == U32(before + |b|)
    ensures after == U32(|Flatten(bs + [b])|)
  {
    FlattenPush(bs, b);
    SizeAdds(|Flatten(bs)|, |b|);
  }

  lemma SizeAdds(total: nat, more: nat)
    ensures U32(U32(total) + more) == U32(total + more)
  {
  }
}

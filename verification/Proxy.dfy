// BorrowedMemProxy: typed fields laid out one after the other in a span that may be fragmented.

module Proxy {
  import opened Bytes
  import opened Memory
  import opened Slices
  import opened Flat
  import opened Span
  import opened SliceOps

  // ---- the layout: type-level folds over the sizes of the fields ----

  /** FoldExpression<0, Sum>: a left fold. */
  function Fold(sizes: seq<nat>): nat {
    if sizes == [] then 0 else Fold(sizes[..|sizes| - 1]) + sizes[|sizes| - 1]
  }

  function FullSize(sizes: seq<nat>): nat {
    Fold(sizes)
  }

  function PrefixSize(sizes: seq<nat>, n: nat): nat
    requires n <= |sizes|
  {
    Fold(sizes[..n])
  }

  /** The last n fields. */
  function SuffixSize(sizes: seq<nat>, n: nat): nat
    requires n <= |sizes|
  {
    Fold(sizes[|sizes| - n..])
  }

  lemma {:induction false} FoldConcat(a: seq<nat>, b: seq<nat>)
    ensures Fold(a + b) == Fold(a) + Fold(b)
  {
    if b == [] {
      assert a + b == a;
    } else {
      FoldConcat(a, b[..|b| - 1]);
      assert (a + b)[..|a + b| - 1] == a + b[..|b| - 1];
    }
  }

  /** Fields do not overlap, leave no gaps and fill the layout: every field starts where the one
      before it ends, and what is before and from a field on adds up to the full size. */
  lemma LayoutTiles(sizes: seq<nat>, n: nat)
    requires n < |sizes|
    ensures PrefixSize(sizes, 0) == 0 && PrefixSize(sizes, |sizes|) == FullSize(sizes)
    ensures PrefixSize(sizes, n + 1) == PrefixSize(sizes, n) + sizes[n]
    ensures PrefixSize(sizes, n) + SuffixSize(sizes, |sizes| - n) == FullSize(sizes)
    ensures PrefixSize(sizes, n) + sizes[n] <= FullSize(sizes)
  {
    assert sizes[..n + 1][..n] == sizes[..n];
    FoldConcat(sizes[..n], sizes[n..]);
    assert sizes == sizes[..n] + sizes[n..] && sizes[..|sizes|] == sizes;
    FoldConcat(sizes[..n + 1], sizes[n + 1..]);
    assert sizes == sizes[..n + 1] + sizes[n + 1..];
  }

  /** The bytes of field n in a flat string. */
  function Field(flat: seq<uint8>, sizes: seq<nat>, n: nat): (r: seq<uint8>)
    requires n < |sizes| && FullSize(sizes) <= |flat|
    ensures |r| == sizes[n]
  {
    LayoutTiles(sizes, n);
    flat[PrefixSize(sizes, n)..PrefixSize(sizes, n) + sizes[n]]
  }

  function AllFields(flat: seq<uint8>, sizes: seq<nat>): (r: seq<Block>)
    requires FullSize(sizes) <= |flat|
    ensures |r| == |sizes|
  {
    seq(|sizes|, k requires 0 <= k < |sizes| => Field(flat, sizes, k))
  }

  /** Put one after the other as declared, the first n fields are the front of the flat string, and all of
      them are the layout. */
  lemma {:induction false} FieldsInOrder(flat: seq<uint8>, sizes: seq<nat>, n: nat)
    requires n <= |sizes| && FullSize(sizes) <= |flat|
    ensures PrefixSize(sizes, n) <= |flat|
    ensures Flatten(AllFields(flat, sizes)[..n]) == flat[..PrefixSize(sizes, n)]
    ensures n == |sizes| ==> PrefixSize(sizes, n) == FullSize(sizes)
    decreases n
  {
    hide Flatten, Fold;
    if n == 0 {
      FlattenNone();
      FoldNone();
    } else {
      var fields := AllFields(flat, sizes);
      FieldsInOrder(flat, sizes, n - 1);
      LayoutTiles(sizes, n - 1);
      FlattenPrefix(fields, n - 1);
    }
  }

  lemma FoldNone()
    ensures Fold([]) == 0
  {
  }

  // ---- finding a field in a list of blocks ----

  /** The block and the offset in it where a field of `size` bytes behind `skip` bytes can be
      read in place; None when the first block that reaches the field does not hold all of it. */
  function Locate(bs: seq<Block>, skip: nat, size: nat): (r: Option<(nat, nat)>)
    ensures r.Some? ==> r.value.0 < |bs| && r.value.1 + size <= |bs[r.value.0]|
  {
    if bs == [] then None
    else if |bs[0]| < skip then
      var r := Locate(bs[1..], skip - |bs[0]|, size);
      if r.None? then None else Some((r.value.0 + 1, r.value.1))
    else if |bs[0]| < skip + size then None
    else Some((0, skip))
  }

  /** Where the field is found, its bytes are the ones the flat string has there. */
  lemma {:induction false} LocateFindsField(bs: seq<Block>, skip: nat, size: nat)
    requires Locate(bs, skip, size).Some?
    ensures var (i, off) := Locate(bs, skip, size).value;
            skip + size <= |Flatten(bs)| && bs[i][off..off + size] == Flatten(bs)[skip..skip + size]
  {
    FlattenFirst(bs);
    if |bs[0]| < skip {
      LocateFindsField(bs[1..], skip - |bs[0]|, size);
    }
  }

  /** Exactly when that is: block i is the first whose end is not in front of the field, and it must reach
      to the end of the field. A field that starts right where a block ends is looked for in that block. */
  lemma {:induction false} LocateExactly(bs: seq<Block>, skip: nat, size: nat, i: nat)
    requires i < |bs| && skip <= |Flatten(bs[..i + 1])| && (i > 0 ==> |Flatten(bs[..i])| < skip)
    ensures |Flatten(bs[..i])| <= skip
    ensures Locate(bs, skip, size) ==
            if skip + size <= |Flatten(bs[..i + 1])| then Some((i, skip - |Flatten(bs[..i])|)) else None
  {
    assert bs[..0] == [] && bs[..1] == [bs[0]];
    FlattenOne(bs[0]);
    if i > 0 {
      PrefixBehind(bs, i);
      PrefixBehind(bs, i - 1);
      PrefixBehind(bs, 0);
      if i > 1 {
        LocateExactly(bs[1..], skip - |bs[0]|, size, i - 1);
      } else {
        LocateExactly(bs[1..], skip - |bs[0]|, size, 0);
      }
    }
  }

  /** A scan that has passed the first i blocks and looks `left` bytes further on is still on the
      way to the same place. */
  ghost predicate Passing(bs: seq<Block>, skip: nat, size: nat, i: nat, left: nat) {
    && i < |bs|
    && skip == |Flatten(bs[..i])| + left && skip + size <= |Flatten(bs)|
    && Locate(bs, skip, size) == Shift(Locate(bs[i..], left, size), i)
  }

  lemma ScanOfBlocks(bs: seq<Block>, skip: nat, size: nat)
    requires skip + size <= |Flatten(bs)| && size > 0
    ensures Passing(bs, skip, size, 0, skip)
  {
    assert bs[0..] == bs && bs[..0] == [];
  }

  lemma LocateStep(bs: seq<Block>, skip: nat, size: nat, i: nat, left: nat)
    requires Passing(bs, skip, size, i, left) && size > 0
    ensures |bs[i]| < left ==> Passing(bs, skip, size, i + 1, left - |bs[i]|)
    ensures left <= |bs[i]| ==>
            Locate(bs, skip, size) == if |bs[i]| < left + size then None else Some((i, left))
  {
    hide Flatten;
    FlattenPrefix(bs, i);
    var rest := bs[i..];
    assert rest[0] == bs[i] && rest[1..] == bs[i + 1..];
    if i + 1 == |bs| {
      assert bs[..i + 1] == bs;
    }
  }

  function Shift(r: Option<(nat, nat)>, i: nat): Option<(nat, nat)> {
    if r.None? then None else Some((r.value.0 + i, r.value.1))
  }

  // ---- which addresses survive a merge ----

  /** A slice other than the n from `base` on holds the block. */
  ghost predicate HeldOutside(w: seq<Slice>, base: nat, n: nat, id: nat) {
    exists k :: 0 <= k < |w| && !(base <= k < base + n) && w[k].buffer == To(id)
  }

  /** Of the blocks that were held, exactly those stay that somebody other than the n slices holds. */
  ghost predicate OnlyOutsidersStay(m: Mem, w: seq<Slice>, m': Mem, base: nat, n: nat) {
    forall id | id in m.bufs && id !in Idle(m) :: id in m'.bufs <==> HeldOutside(w, base, n, id)
  }

  lemma OutsidersStay(m: Mem, w: seq<Slice>, m': Mem, w': seq<Slice>, base: nat, n: nat)
    requires WF(m, w) && WF(m', w') && Idle(m') == Idle(m) && 1 <= n && base + n <= |w| <= |w'|
    requires forall k | 0 <= k < |w| && !(base <= k < base + n) :: w'[k] == w[k]
    requires w'[base].buffer.To? && w'[base].buffer.id >= m.next
    requires forall k | base < k < base + n || |w| <= k < |w'| :: w'[k] == NOTHING
    ensures OnlyOutsidersStay(m, w, m', base, n)
  {
    forall id | id in m.bufs && id !in Idle(m)
      ensures id in m'.bufs <==> HeldOutside(w, base, n, id)
    {
      if HeldOutside(w, base, n, id) {
        var k :| 0 <= k < |w| && !(base <= k < base + n) && w[k].buffer == To(id);
        SliceIsOk(m', w', k);
      } else if id in m'.bufs {
        assert m'.bufs[id].refCnt != 0;
        forall k | 0 <= k < |w'|
          ensures w'[k].buffer != To(id)
        {
        }
        CountZero(w', id);
        assert false;
      }
    }
  }

  /** The slots after a merge: w1 with the merged span behind all others, w2 after it has been moved. */
  lemma MergeShape(w: seq<Slice>, w1: seq<Slice>, w2: seq<Slice>, base: nat, n: nat, r: nat)
    requires 1 <= n <= MAX_BLOCKS && base + MAX_BLOCKS <= |w| == r && r + MAX_BLOCKS <= |w1| == |w2|
    requires forall k | 0 <= k < |w| :: w1[k] == w[k]
    requires forall k | r < k < |w1| :: w1[k] == NOTHING
    requires forall k {:trigger Slot(base, k)} | 1 <= k < n :: w2[Slot(base, k)] == NOTHING
    requires forall k {:trigger Slot(base, k)} | n <= k < MAX_BLOCKS :: w2[Slot(base, k)] == w1[Slot(base, k)]
    requires forall k {:trigger Slot(r, k)} | 0 <= k < MAX_BLOCKS :: w2[Slot(r, k)] == NOTHING
    requires forall k | 0 <= k < |w1| && !(base <= k < base + MAX_BLOCKS) && !(r <= k < r + MAX_BLOCKS) ::
      w2[k] == w1[k]
    ensures forall k | 0 <= k < |w| && !(base <= k < base + n) :: w2[k] == w[k]
    ensures forall k | base < k < base + n || |w| <= k < |w2| :: w2[k] == NOTHING
  {
    forall k | base < k < base + MAX_BLOCKS
      ensures w2[k] == if k < base + n then NOTHING else w[k]
    {
      assert Slot(base, k - base) == k;
    }
    forall k | r <= k < |w2|
      ensures w2[k] == NOTHING
    {
      assert k < r + MAX_BLOCKS ==> Slot(r, k - r) == k;
    }
  }

  // ---- what a span offers a proxy ----

  /** The bytes that size_ promises are there: behind the begin of the only block, even where its window
      is shorter, or in the windows of several blocks. */
  ghost predicate Backs(sp: Space, buffer: MemSliceSpan)
    reads sp, buffer
  {
    && buffer.Sound(sp) && buffer.blockCount >= 1
    && if buffer.blockCount == 1 then
         var s := buffer.Live(sp)[0];
         s.buffer.To? && s.buffer.id in sp.m.bufs && s.begin + buffer.size <= |sp.m.bufs[s.buffer.id].data|
       else buffer.Valid(sp) && buffer.Readable(sp) && |buffer.Bytes(sp)| < 0x1_0000_0000
  }

  ghost function Offered(sp: Space, buffer: MemSliceSpan): (r: seq<uint8>)
    reads sp, buffer
    requires Backs(sp, buffer)
    ensures |r| == buffer.size
  {
    if buffer.blockCount == 1 then
      var s := buffer.Live(sp)[0];
      sp.m.bufs[s.buffer.id].data[s.begin..s.begin + buffer.size]
    else
      FitsU32(|buffer.Bytes(sp)|);
      buffer.Bytes(sp)
  }

  /** A valid span offers its bytes. */
  lemma ValidBacks(sp: Space, buffer: MemSliceSpan)
    requires buffer.Valid(sp) && buffer.Readable(sp) && buffer.blockCount >= 1 && |buffer.Bytes(sp)| < 0x1_0000_0000
    ensures Backs(sp, buffer) && Offered(sp, buffer) == buffer.Bytes(sp)
  {
    hide WF, Flatten;
    FitsU32(|buffer.Bytes(sp)|);
    if buffer.blockCount == 1 {
      ghost var bs := buffer.Blocks(sp);
      assert bs == [bs[0]];
      FlattenOne(bs[0]);
      SlotsOk(sp.m, sp.w, buffer.base, 1);
      WindowSpans(sp.m, buffer.Live(sp)[0]);
    }
  }

  /** A span made from a raw block offers the whole block, of whatever size. */
  lemma WholeBlockBacks(sp: Space, buffer: MemSliceSpan)
    requires buffer.Sound(sp) && buffer.blockCount == 1
    requires buffer.Live(sp)[0].buffer.To? && buffer.Live(sp)[0].begin == 0
    requires var id := buffer.Live(sp)[0].buffer.id;
             id in sp.m.bufs && buffer.size == |sp.m.bufs[id].data|
    ensures Backs(sp, buffer) && Offered(sp, buffer) == sp.m.bufs[buffer.Live(sp)[0].buffer.id].data
  {
    var data := sp.m.bufs[buffer.Live(sp)[0].buffer.id].data;
    assert data[0..|data|] == data;
  }

  // ---- the proxy ----

  class BorrowedMemProxy {
    const sizes: seq<nat>
    const span: MemSliceSpan   // the mutable member buffer_
    ghost const flat: seq<uint8>

    /** The proxy still stands for the bytes it was given: either as a fragmented span, or as one
        block that holds them from the begin of its window on (a merged block of more than 64 KiB
        shows fewer bytes as a span, but a field is addressed from the begin of the block). */
    ghost predicate Valid(sp: Space)
      reads span, sp
    {
      && span.Sound(sp) && span.blockCount >= 1
      && FullSize(sizes) <= |flat| < 0x1_0000_0000 && (forall n | 0 <= n < |sizes| :: sizes[n] > 0)
      && if span.blockCount == 1 then Holds(sp) else span.Valid(sp) && span.Readable(sp) && span.Bytes(sp) == flat
    }

    ghost predicate Holds(sp: Space)
      reads span, sp
      requires span.Sound(sp) && span.blockCount == 1
    {
      var s := span.Live(sp)[0];
      s.buffer.To? && s.buffer.id in sp.m.bufs && Spans(sp.m.bufs[s.buffer.id].data, s.begin, s.begin + |flat|, flat)
    }

    /** BorrowedMemProxy(buffer): the member is a copy of the span, whose size_ must suffice. */
    constructor (sp: Space, fields: seq<nat>, buffer: MemSliceSpan)
      requires Backs(sp, buffer) && FullSize(fields) <= buffer.size
      requires forall n | 0 <= n < |fields| :: fields[n] > 0
      modifies sp
      ensures Valid(sp) && sp.Kept() && fresh(span) && span.base >= |old(sp.w)|
      ensures sizes == fields && flat == old(Offered(sp, buffer))
      ensures forall k | 0 <= k < |old(sp.w)| :: sp.w[k] == old(sp.w)[k]
    {
      hide Idle, WF, Step, Flatten, Fold, U32;
      sizes := fields;
      flat := Offered(sp, buffer);
      var member := new MemSliceSpan.Copy(sp, buffer);
      span := member;
      new;
      if span.blockCount == 1 {
        var s := span.Live(sp)[0];
        SlotsOk(sp.m, sp.w, span.base, 1);
        BlockStays(old(sp.m), old(sp.w), sp.m, s.buffer.id);
      }
    }

    /** Layer<N>: the address of field n as a block and an offset. It reads the field's bytes
        whatever the fragmentation. The span is merged exactly when the field cannot be read in
        place; a merged proxy is never touched again. An address an earlier call returned stays good
        exactly when no merge happens or some other slice holds its block. */
    method Layer(sp: Space, n: nat) returns (id: nat, offset: nat)
      requires Valid(sp) && n < |sizes|
      modifies span, sp
      ensures Valid(sp) && sp.Kept()
      ensures id in sp.m.bufs && Spans(sp.m.bufs[id].data, offset, offset + sizes[n], Field(flat, sizes, n))
      ensures var merges := old(span.blockCount) > 1 &&
                            Locate(old(span.Blocks(sp)), PrefixSize(sizes, n), sizes[n]).None?;
              if merges then span.blockCount == 1
              else sp.m == old(sp.m) && sp.w == old(sp.w) && span.blockCount == old(span.blockCount)
      ensures span.blockCount < old(span.blockCount) ==>
              OnlyOutsidersStay(old(sp.m), old(sp.w), sp.m, span.base, old(span.blockCount))
      ensures forall k | 0 <= k < |old(sp.w)| && !span.Owns(k) :: sp.w[k] == old(sp.w)[k]
      decreases span.blockCount
    {
      hide Idle, WF, Step, Flatten, Fold, Locate, U32, UsedSize;
      LayoutTiles(sizes, n);
      id, offset := 0, 0;
      if span.blockCount == 1 {
        id, offset := InFirst(sp, n);
        return;
      }
      ghost var bs := span.Blocks(sp);
      var skip: nat := PrefixSize(sizes, n);
      ScanOfBlocks(bs, skip, sizes[n]);
      var i: nat := 0;
      while i < span.blockCount
        invariant unchanged(span) && unchanged(sp) && i < |bs| == span.blockCount
        invariant Passing(bs, PrefixSize(sizes, n), sizes[n], i, skip)
      {
        LocateStep(bs, PrefixSize(sizes, n), sizes[n], i, skip);
        SliceFits(sp.m, sp.w, Slot(span.base, i));
        assert bs[i] == BytesOf(sp.m, sp.w[Slot(span.base, i)]);
        var used := UsedSize(sp.w[Slot(span.base, i)]);
        if used < skip {
          skip := skip - used;
          i := i + 1;
        } else if used < skip + sizes[n] {
          Merge(sp);
          id, offset := Layer(sp, n);
          return;
        } else {
          id, offset := InBlock(sp, n, i, skip);
          return;
        }
      }
      assert false;
    }

    /** The address of field n in a span of one block: that far behind the begin of the block's window.
        */
    method InFirst(sp: Space, n: nat) returns (id: nat, offset: nat)
      requires Valid(sp) && n < |sizes| && span.blockCount == 1
      ensures id in sp.m.bufs && Spans(sp.m.bufs[id].data, offset, offset + sizes[n], Field(flat, sizes, n))
    {
      hide Idle, WF, Step, Flatten, Fold;
      LayoutTiles(sizes, n);
      var s := sp.w[Slot(span.base, 0)];
      assert s == span.Live(sp)[0];
      id, offset := s.buffer.id, s.begin + PrefixSize(sizes, n);
      FieldInside(sp.m.bufs[id].data, s.begin, flat, PrefixSize(sizes, n), PrefixSize(sizes, n) + sizes[n]);
    }

    /** The address of field n in the block where the scan has found it. */
    method InBlock(sp: Space, n: nat, i: nat, skip: nat) returns (id: nat, offset: nat)
      requires Valid(sp) && n < |sizes| && i < span.blockCount != 1
      requires Locate(span.Blocks(sp), PrefixSize(sizes, n), sizes[n]) == Some((i, skip))
      ensures id in sp.m.bufs && Spans(sp.m.bufs[id].data, offset, offset + sizes[n], Field(flat, sizes, n))
    {
      hide Idle, WF, Step, Flatten, Fold, Locate;
      LayoutTiles(sizes, n);
      var s := sp.w[Slot(span.base, i)];
      assert s == span.Live(sp)[i];
      id, offset := s.buffer.id, s.begin + skip;
      LocateFindsField(span.Blocks(sp), PrefixSize(sizes, n), sizes[n]);
      SliceIsOk(sp.m, sp.w, Slot(span.base, i));
      WindowSpans(sp.m, s);
      FieldInside(sp.m.bufs[id].data, s.begin, span.Blocks(sp)[i], skip, skip + sizes[n]);
    }

    /** Replaces the span by its merged copy; the old blocks go with the temporary, unless others hold
        them. */
    method Merge(sp: Space)
      requires Valid(sp) && span.blockCount > 1
      modifies span, sp
      ensures Valid(sp) && sp.Kept() && span.blockCount == 1
      ensures OnlyOutsidersStay(old(sp.m), old(sp.w), sp.m, span.base, old(span.blockCount))
      ensures forall k | 0 <= k < |old(sp.w)| && !span.Owns(k) :: sp.w[k] == old(sp.w)[k]
    {
      hide Idle, WF, Step, Flatten, Fold, U32, UsedSize, OnlyOutsidersStay;
      var r := span.ToSingleBlock(sp);
      assert r.Live(sp)[0] == sp.w[r.base];
      ghost var m1, w1 := sp.m, sp.w;
      ghost var s := r.Live(sp)[0];
      TakeOver(sp, r);
      BlockStays(m1, w1, sp.m, s.buffer.id);
      MergeShape(old(sp.w), w1, sp.w, span.base, old(span.blockCount), r.base);
      OutsidersStay(old(sp.m), old(sp.w), sp.m, sp.w, span.base, old(span.blockCount));
    }

    /** Moves a temporary span of one block into the member and destroys the temporary. */
    method TakeOver(sp: Space, r: MemSliceSpan)
      requires span.Sound(sp) && span.blockCount >= 1 && r != span && span.Apart(r)
      requires r.Sound(sp) && r.blockCount == 1 && r.Live(sp)[0].buffer.To?
      modifies span, r, sp
      ensures span.Sound(sp) && span.blockCount == 1 && sp.Kept() && |sp.w| == |old(sp.w)|
      ensures span.Live(sp)[0] == old(r.Live(sp)[0]) == sp.w[span.base] && span.Live(sp)[0].buffer.id in sp.m.bufs
      ensures forall k {:trigger Slot(span.base, k)} | 1 <= k < old(span.blockCount) ::
                sp.w[Slot(span.base, k)] == NOTHING
      ensures forall k {:trigger Slot(span.base, k)} | old(span.blockCount) <= k < MAX_BLOCKS ::
                sp.w[Slot(span.base, k)] == old(sp.w)[Slot(span.base, k)]
      ensures forall k {:trigger Slot(r.base, k)} | 0 <= k < MAX_BLOCKS :: sp.w[Slot(r.base, k)] == NOTHING
      ensures forall k | 0 <= k < |old(sp.w)| && !span.Owns(k) && !r.Owns(k) :: sp.w[k] == old(sp.w)[k]
    {
      hide Idle, WF, Step, Flatten, U32, UsedSize;
      ghost var s := r.Live(sp)[0];
      span.AssignMove(sp, r);
      assert sp.w[Slot(span.base, 0)] == s;
      r.DestroySlots(sp);
      assert sp.w[Slot(span.base, 0)] == s;
      SliceIsOk(sp.m, sp.w, Slot(span.base, 0));
    }
  }

  // ---- making a message in place ----

  /** Later fields lie behind earlier ones. */
  lemma {:induction false} FieldsApart(sizes: seq<nat>, n: nat, k: nat)
    requires n < k < |sizes|
    ensures PrefixSize(sizes, n) + sizes[n] <= PrefixSize(sizes, k)
    decreases k
  {
    LayoutTiles(sizes, k - 1);
    if n < k - 1 {
      FieldsApart(sizes, n, k - 1);
    }
  }

  /** The bytes with field n overwritten. */
  function WithField(flat: seq<uint8>, sizes: seq<nat>, n: nat, value: seq<uint8>): (r: seq<uint8>)
    requires n < |sizes| && FullSize(sizes) == |flat| && |value| == sizes[n]
    ensures |r| == |flat|
  {
    LayoutTiles(sizes, n);
    flat[..PrefixSize(sizes, n)] + value + flat[PrefixSize(sizes, n) + sizes[n]..]
  }

  /** A store through one field's pointer is read back there and disturbs no other field. */
  lemma WithFieldExact(flat: seq<uint8>, sizes: seq<nat>, n: nat, value: seq<uint8>, k: nat)
    requires n < |sizes| && k < |sizes| && FullSize(sizes) == |flat| && |value| == sizes[n]
    ensures Field(WithField(flat, sizes, n, value), sizes, k) == if k == n then value else Field(flat, sizes, k)
  {
    hide Fold;
    LayoutTiles(sizes, n);
    LayoutTiles(sizes, k);
    if n < k {
      FieldsApart(sizes, n, k);
    } else if k < n {
      FieldsApart(sizes, k, n);
    }
  }

  /** The fields decide all bytes: whatever malloc left in a buffer is gone once every field is stored. */
  lemma {:induction false} FieldsDecide(a: seq<uint8>, b: seq<uint8>, sizes: seq<nat>, n: nat)
    requires |a| == |b| == FullSize(sizes) && n <= |sizes|
    requires forall k | 0 <= k < n :: Field(a, sizes, k) == Field(b, sizes, k)
    ensures PrefixSize(sizes, n) <= |a| && a[..PrefixSize(sizes, n)] == b[..PrefixSize(sizes, n)]
    decreases n
  {
    if n > 0 {
      FieldsDecide(a, b, sizes, n - 1);
      LayoutTiles(sizes, n - 1);
      var p, q := PrefixSize(sizes, n - 1), PrefixSize(sizes, n);
      assert Field(a, sizes, n - 1) == Field(b, sizes, n - 1);
      assert a[..q] == a[..p] + a[p..q] && b[..q] == b[..p] + b[p..q];
    }
  }

  class CreatedMemProxy {
    const sizes: seq<nat>
    var buffer: Ref      // the owning pointer buffer_

    /** While the proxy owns its block, no slice does. */
    ghost predicate Valid(sp: Space)
      reads this, sp
    {
      && sp.Ok() && FullSize(sizes) < 0x1_0000_0000
      && (buffer.To? ==> buffer.id in sp.m.bufs && sp.m.bufs[buffer.id].refCnt == 0
                         && |sp.m.bufs[buffer.id].data| == FullSize(sizes))
    }

    ghost function Bytes(sp: Space): seq<uint8>
      reads this, sp
      requires Valid(sp) && buffer.To?
    {
      sp.m.bufs[buffer.id].data
    }

    constructor (sp: Space, fields: seq<nat>)
      requires sp.Ok() && FullSize(fields) < 0x1_0000_0000
      modifies sp
      ensures Valid(sp) && sizes == fields && buffer.To? && sp.Booked() && sp.w == old(sp.w)
      ensures Idle(sp.m) == old(Idle(sp.m)) + {buffer.id}
    {
      hide Idle, WF;
      sizes := fields;
      var id := sp.CreateRaw(FullSize(fields));
      buffer := To(id);
    }

    /** *proxy.Layer<N>() = value: a store through the address of field n. */
    method Store(sp: Space, n: nat, value: seq<uint8>)
      requires Valid(sp) && buffer.To? && n < |sizes| && |value| == sizes[n]
      modifies sp
      ensures Valid(sp) && sp.w == old(sp.w) && Idle(sp.m) == old(Idle(sp.m))
      ensures Bytes(sp) == WithField(old(Bytes(sp)), sizes, n, value)
      ensures sp.m.next == old(sp.m.next) && sp.m.bufs == old(sp.m.bufs)[buffer.id := sp.m.bufs[buffer.id]]
    {
      hide Idle, WF, Fold;
      LayoutTiles(sizes, n);
      sp.Fill(buffer.id, PrefixSize(sizes, n), value);
    }

    /** Hands the block to a slice. A message of more than 64 KiB is cut there, by the size the
        MemSlice constructor assumes. */
    method ToSlice(sp: Space) returns (i: nat)
      requires Valid(sp) && buffer.To?
      modifies this, sp
      ensures Valid(sp) && buffer == Null && sp.Booked() && i == |old(sp.w)| < |sp.w|
      ensures Idle(sp.m) == old(Idle(sp.m)) - {old(buffer).id}
      ensures SliceOk(sp.m, sp.w[i]) && BytesOf(sp.m, sp.w[i]) == old(Bytes(sp))[..Min(65536, FullSize(sizes))]
      ensures sp.w[i].buffer == old(buffer) && sp.m.bufs[old(buffer).id].refCnt == 1
      ensures forall k | 0 <= k < |old(sp.w)| :: sp.w[k] == old(sp.w)[k]
    {
      hide Idle, WF, Fold, Step;
      i := sp.Construct(buffer);
      buffer := Null;
    }
  }

  lemma WindowSpans(m: Mem, s: Slice)
    requires SliceOk(m, s) && s.buffer.To?
    ensures Spans(m.bufs[s.buffer.id].data, s.begin, s.begin + |BytesOf(m, s)|, BytesOf(m, s))
  {
  }

  lemma FieldInside(data: seq<uint8>, begin: nat, flat: seq<uint8>, p: nat, q: nat)
    requires Spans(data, begin, begin + |flat|, flat) && p <= q <= |flat|
    ensures Spans(data, begin + p, begin + q, flat[p..q])
  {
    var w := data[begin..begin + |flat|];
    forall k | 0 <= k < q - p
      ensures data[begin + p..begin + q][k] == w[p..q][k]
    {
      assert w[p + k] == data[begin + (p + k)];
    }
  }
}

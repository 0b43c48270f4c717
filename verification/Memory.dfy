// Reference-counted blocks as values: the heap, the slices that point into it, and what the
// slice operations do to the counts.

module Memory {
  import opened Bytes

  function Min(a: int, b: int): int {
    if a < b then a else b
  }

  /** A MemBuf: its count and the bytes behind its header. Its capacity is |data|. */
  datatype Buf = Buf(refCnt: int, data: seq<uint8>)

  /** Every block that was created and not freed, by address; addresses are not reused. */
  datatype Mem = Mem(bufs: map<nat, Buf>, next: nat)

  datatype Ref = Null | To(id: nat)

  /** The fields of a MemSlice: a window [begin, end) on a block. */
  datatype Slice = Slice(buffer: Ref, begin: nat, end: nat)

  const NOTHING := Slice(Null, 0, 0)

  // ---- blocks ----

  /** MemBuf::Create; bytes that are not copied from anywhere are whatever malloc left there. */
  function Create(m: Mem, data: seq<uint8>): Mem {
    Mem(m.bufs[m.next := Buf(0, data)], m.next + 1)
  }

  /** if (p) p->AddRef(); None when the block is already freed. */
  function Take(m: Mem, r: Ref): Option<Mem> {
    if r.Null? then Some(m)
    else if r.id !in m.bufs then None
    else
      var b := m.bufs[r.id];
      Some(m.(bufs := m.bufs[r.id := b.(refCnt := b.refCnt + 1)]))
  }

  /** if (p) p->Release(): frees the block when the count was at most one; None when the block is
      already freed. */
  function Drop(m: Mem, r: Ref): Option<Mem> {
    if r.Null? then Some(m)
    else if r.id !in m.bufs then None
    else
      var b := m.bufs[r.id];
      if b.refCnt <= 1 then Some(m.(bufs := m.bufs - {r.id}))
      else Some(m.(bufs := m.bufs[r.id := b.(refCnt := b.refCnt - 1)]))
  }

  /** One slice lets go of `from` and then takes `to`, the order both assignments use. */
  function Retarget(m: Mem, from: Ref, to: Ref): Option<Mem> {
    var dropped := Drop(m, from);
    if dropped.None? then None else Take(dropped.value, to)
  }

  // ---- slices over blocks ----

  predicate SliceOk(m: Mem, s: Slice) {
    match s.buffer
    case Null => s == NOTHING
    case To(id) => id in m.bufs && s.begin <= s.end <= |m.bufs[id].data|
  }

  function BytesOf(m: Mem, s: Slice): (r: seq<uint8>)
    requires SliceOk(m, s)
    ensures |r| == s.end - s.begin
  {
    if s.buffer.Null? then [] else m.bufs[s.buffer.id].data[s.begin..s.end]
  }

  function One(r: Ref, id: nat): nat {
    if r == To(id) then 1 else 0
  }

  /** How many of the slices hold the block. */
  function Count(w: seq<Slice>, id: nat): nat {
    if w == [] then 0 else Count(w[..|w| - 1], id) + One(w[|w| - 1].buffer, id)
  }

  /** The slices w are all there are: none dangles, and every block's count is the number of
      slices that hold it. */
  predicate WF(m: Mem, w: seq<Slice>) {
    && (forall i | 0 <= i < |w| :: SliceOk(m, w[i]))
    && (forall id <- m.bufs :: id < m.next && |m.bufs[id].data| < 0x1_0000_0000)
    && (forall id <- m.bufs :: m.bufs[id].refCnt == Count(w, id))
  }

  /** From one moment to a later one: allocated bytes stay as they are and no freed address comes
      back. */
  predicate Later(m: Mem, m': Mem) {
    && m.next <= m'.next
    && (forall id <- m'.bufs :: id < m.next ==> id in m.bufs && m'.bufs[id].data == m.bufs[id].data)
  }

  /** A step frees exactly the blocks that lose their last holder in it: none earlier, none later,
      and none that nobody has held yet. */
  predicate FreesExactly(m: Mem, w: seq<Slice>, m': Mem, w': seq<Slice>) {
    forall id <- m.bufs :: id !in m'.bufs <==> Count(w, id) > 0 && Count(w', id) == 0
  }

  /** The blocks that are allocated although no slice holds them: created and not adopted yet. */
  function Idle(m: Mem): set<nat> {
    set id | id in m.bufs && m.bufs[id].refCnt == 0
  }

  /** What is left of a set of idle blocks when a slice takes one. */
  function Without(idle: set<nat>, r: Ref): set<nat> {
    if r.Null? then idle else idle - {r.id}
  }

  // ---- counting ----

  lemma {:induction false} CountUpdate(w: seq<Slice>, i: nat, s: Slice, id: nat)
    requires i < |w|
    ensures Count(w[i := s], id) + One(w[i].buffer, id) == Count(w, id) + One(s.buffer, id)
  {
    var n := |w| - 1;
    if i == n {
      assert w[i := s][..n] == w[..n];
    } else {
      CountUpdate(w[..n], i, s, id);
      assert w[i := s][..n] == w[..n][i := s];
    }
  }

  lemma CountUpdates(w: seq<Slice>, i: nat, s: Slice)
    requires i < |w|
    ensures forall id {:trigger Count(w[i := s], id)} ::
              Count(w[i := s], id) == Count(w, id) + One(s.buffer, id) - One(w[i].buffer, id)
  {
    forall id: nat
      ensures Count(w[i := s], id) == Count(w, id) + One(s.buffer, id) - One(w[i].buffer, id)
    {
      CountUpdate(w, i, s, id);
    }
  }

  lemma CountAppend(w: seq<Slice>, s: Slice, id: nat)
    ensures Count(w + [s], id) == Count(w, id) + One(s.buffer, id)
  {
    assert (w + [s])[..|w|] == w;
  }

  lemma {:induction false} CountPositive(w: seq<Slice>, i: nat, id: nat)
    requires i < |w| && w[i].buffer == To(id)
    ensures Count(w, id) >= 1
  {
    if i < |w| - 1 {
      CountPositive(w[..|w| - 1], i, id);
    }
  }

  lemma {:induction false} CountTwo(w: seq<Slice>, i: nat, j: nat, id: nat)
    requires i < j < |w| && w[i].buffer == To(id) && w[j].buffer == To(id)
    ensures Count(w, id) >= 2
  {
    if j < |w| - 1 {
      CountTwo(w[..|w| - 1], i, j, id);
    } else {
      CountPositive(w[..j], i, id);
    }
  }

  /** A block whose address was never handed to a slice has no holders. */
  lemma {:induction false} CountZero(w: seq<Slice>, id: nat)
    requires forall i | 0 <= i < |w| :: w[i].buffer != To(id)
    ensures Count(w, id) == 0
  {
    if w != [] {
      CountZero(w[..|w| - 1], id);
    }
  }

  // ---- the slice operations keep the books ----

  lemma DropKeeps(m: Mem, w: seq<Slice>, i: nat)
    requires WF(m, w) && i < |w|
    ensures Drop(m, w[i].buffer).Some?
    ensures var m' := Drop(m, w[i].buffer).value;
            WF(m', w[i := NOTHING]) && Later(m, m') && FreesExactly(m, w, m', w[i := NOTHING])
  {
    var w' := w[i := NOTHING];
    CountUpdates(w, i, NOTHING);
    if w[i].buffer.To? {
      CountPositive(w, i, w[i].buffer.id);
    }
    var m' := Drop(m, w[i].buffer).value;
    forall k | 0 <= k < |w'|
      ensures SliceOk(m', w'[k])
    {
      if w'[k].buffer.To? {
        CountPositive(w', k, w'[k].buffer.id);
      }
    }
  }

  lemma TakeKeeps(m: Mem, w: seq<Slice>, i: nat, s: Slice)
    requires WF(m, w) && i < |w| && w[i].buffer == Null
    ensures Take(m, s.buffer).Some? <==> (s.buffer.To? ==> s.buffer.id in m.bufs)
    ensures SliceOk(m, s) ==>
            var m' := Take(m, s.buffer).value;
            WF(m', w[i := s]) && Later(m, m') && FreesExactly(m, w, m', w[i := s])
  {
    CountUpdates(w, i, s);
  }

  /** Slice i gives up what it held and takes a window on the block `to`. That touches a freed block
      exactly when `to` was freed before, or is freed by the release because slice i was its last
      holder. */
  lemma RetargetSafe(m: Mem, w: seq<Slice>, i: nat, to: Ref)
    requires WF(m, w) && i < |w|
    ensures Retarget(m, w[i].buffer, to).Some? <==>
            (to.To? ==> to.id in m.bufs && !(w[i].buffer == to && Count(w, to.id) == 1))
  {
    if w[i].buffer.To? {
      CountPositive(w, i, w[i].buffer.id);
    }
  }

  /** Unless it does, the books are kept. */
  lemma RetargetKeeps(m: Mem, w: seq<Slice>, i: nat, s: Slice)
    requires WF(m, w) && i < |w| && SliceOk(m, s)
    requires Retarget(m, w[i].buffer, s.buffer).Some?
    ensures var m' := Retarget(m, w[i].buffer, s.buffer).value;
            WF(m', w[i := s]) && Later(m, m') && FreesExactly(m, w, m', w[i := s])
  {
    var m1, w1 := Drop(m, w[i].buffer).value, w[i := NOTHING];
    DropKeeps(m, w, i);
    assert SliceOk(m1, s);
    TakeKeeps(m1, w1, i, s);
    assert w1[i := s] == w[i := s];
    CountUpdates(w1, i, s);
    FreesThrough(m, w, m1, w1, Take(m1, s.buffer).value, w[i := s]);
  }

  /** What the release frees stays freed, and taking a block frees nothing. */
  lemma FreesThrough(m: Mem, w: seq<Slice>, m1: Mem, w1: seq<Slice>, m': Mem, w': seq<Slice>)
    requires FreesExactly(m, w, m1, w1) && FreesExactly(m1, w1, m', w')
    requires m1.bufs.Keys <= m.bufs.Keys && m'.bufs.Keys == m1.bufs.Keys
    requires forall id: nat :: Count(w1, id) <= Count(w', id)
    requires forall id: nat | id !in m1.bufs :: Count(w', id) == Count(w1, id)
    ensures FreesExactly(m, w, m', w')
  {
  }

  // ---- no block is left behind ----

  lemma TakeIdle(m: Mem, w: seq<Slice>, r: Ref)
    requires WF(m, w) && Take(m, r).Some?
    ensures Idle(Take(m, r).value) == Without(Idle(m), r)
  {
  }

  lemma DropIdle(m: Mem, w: seq<Slice>, i: nat)
    requires WF(m, w) && i < |w|
    ensures Drop(m, w[i].buffer).Some? && Idle(Drop(m, w[i].buffer).value) == Idle(m)
  {
    DropKeeps(m, w, i);
    if w[i].buffer.To? {
      CountPositive(w, i, w[i].buffer.id);
    }
  }

  lemma CreateIdle(m: Mem, w: seq<Slice>, data: seq<uint8>)
    requires WF(m, w)
    ensures Idle(Create(m, data)) == Idle(m) + {m.next} && m.next !in Idle(m)
  {
  }

  lemma HeldIsNotIdle(m: Mem, w: seq<Slice>, i: nat)
    requires WF(m, w) && i < |w|
    ensures Without(Idle(m), w[i].buffer) == Idle(m)
  {
    if w[i].buffer.To? {
      CountPositive(w, i, w[i].buffer.id);
    }
  }
}

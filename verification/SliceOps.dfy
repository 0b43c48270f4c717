// Every operation of MemSlice as a step of one machine, and what all of its runs keep.

module SliceOps {
  import opened Bytes
  import opened Memory

  /** A heap and all the slice objects of a program; a destroyed object leaves NOTHING behind. */
  datatype World = World(m: Mem, w: seq<Slice>) {
    predicate Ok() {
      WF(m, w)
    }
  }

  datatype Op =
    | Malloc(data: seq<uint8>)
    | Construct(buf: Ref, size: nat)
    | CopyConstruct(j: nat)
    | MoveConstruct(j: nat)
    | Destroy(i: nat)
    | Assign(i: nat, j: nat)
    | MoveAssign(i: nat, j: nat)
    | Reset(i: nat, buf: Ref)           // also operator=(const MemBuf *)
    | Clone(i: nat)
    | SetBegin(i: nat, pos: uint32)
    | SetEnd(i: nat, pos: uint32)
    | AdjustBegin(i: nat, offset: int)
    | AdjustEnd(i: nat, offset: int)
    | UpdateBegin(i: nat, skip: uint32)

  // ---- moving a window ----

  function WithBegin(s: Slice, pos: uint32): Slice {
    s.(begin := Min(pos, s.end))
  }

  function WithEnd(s: Slice, pos: uint32, capacity: nat): Slice {
    s.(end := Min(if pos < s.begin then s.begin else pos, capacity))
  }

  /** The offset is added in 32 bits: a negative sum turns into a large position and is clamped. */
  function BeginMoved(s: Slice, offset: int): Slice {
    WithBegin(s, U32(s.begin + offset))
  }

  function EndMoved(s: Slice, offset: int, capacity: nat): Slice {
    WithEnd(s, U32(s.end + offset), capacity)
  }

  function BeginAdvanced(s: Slice, offset: uint32): (r: (Slice, bool)) {
    var pos := U32(s.begin + offset);
    if pos > s.end then (s, false) else (s.(begin := pos), true)
  }

  /** MemSlice::GetUsedSize. */
  function UsedSize(s: Slice): uint32 {
    U32(s.end - s.begin)
  }

  /** A slice of the whole block, cut at `size`. */
  function Whole(m: Mem, buf: Ref, size: nat): Slice {
    if buf.Null? then NOTHING
    else if buf.id in m.bufs then Slice(buf, 0, Min(size, |m.bufs[buf.id].data|))
    else Slice(buf, 0, 0)
  }

  // ---- steps ----

  /** The objects an operation names exist, and a slice whose block it needs has one. */
  predicate Names(s: World, op: Op) {
    match op
    case Malloc(data) => |data| < 0x1_0000_0000
    case Construct(_, _) => true
    case CopyConstruct(j) => j < |s.w|
    case MoveConstruct(j) => j < |s.w|
    case Assign(i, j) => i < |s.w| && j < |s.w|
    case MoveAssign(i, j) => i < |s.w| && j < |s.w|
    case Clone(i) => i < |s.w| && s.w[i].buffer.To?
    case SetEnd(i, _) => i < |s.w| && s.w[i].buffer.To?
    case AdjustEnd(i, _) => i < |s.w| && s.w[i].buffer.To?
    case _ => op.i < |s.w|
  }

  function Capacity(s: World, i: nat): nat
    requires i < |s.w|
  {
    var r := s.w[i].buffer;
    if r.To? && r.id in s.m.bufs then |s.m.bufs[r.id].data| else 0
  }

  function Rewindow(s: World, i: nat, v: Slice): Option<World>
    requires i < |s.w|
  {
    Some(s.(w := s.w[i := v]))
  }

  /** None when the operation touches a freed block. */
  function Step(s: World, op: Op): Option<World>
    requires Names(s, op)
  {
    match op
    case Malloc(data) =>
      Some(s.(m := Create(s.m, data)))
    case Construct(buf, size) =>
      var m := Take(s.m, buf);
      if m.None? then None else Some(World(m.value, s.w + [Whole(s.m, buf, size)]))
    case CopyConstruct(j) =>
      var m := Take(s.m, s.w[j].buffer);
      if m.None? then None else Some(World(m.value, s.w + [s.w[j]]))
    case MoveConstruct(j) =>
      var m1 := Take(s.m, s.w[j].buffer);
      if m1.None? then None
      else
        var m2 := Drop(m1.value, s.w[j].buffer);
        if m2.None? then None else Some(World(m2.value, s.w[j := NOTHING] + [s.w[j]]))
    case Destroy(i) =>
      var m := Drop(s.m, s.w[i].buffer);
      if m.None? then None else Some(World(m.value, s.w[i := NOTHING]))
    case Assign(i, j) =>
      if i == j then Some(s)
      else
        var m := Retarget(s.m, s.w[i].buffer, s.w[j].buffer);
        if m.None? then None else Some(World(m.value, s.w[i := s.w[j]]))
    case MoveAssign(i, j) =>
      Some(s.(w := s.w[i := s.w[j]][j := s.w[i]]))
    case Reset(i, buf) =>
      var m := Retarget(s.m, s.w[i].buffer, buf);
      if m.None? then None else Some(World(m.value, s.w[i := Whole(s.m, buf, 0x1_0000_0000)]))
    case Clone(i) =>
      var id := s.w[i].buffer.id;
      if id !in s.m.bufs then None
      else
        var m := Take(Create(s.m, s.m.bufs[id].data), To(s.m.next));
        if m.None? then None else Some(World(m.value, s.w + [s.w[i].(buffer := To(s.m.next))]))
    case SetBegin(i, pos) => Rewindow(s, i, WithBegin(s.w[i], pos))
    case SetEnd(i, pos) => Rewindow(s, i, WithEnd(s.w[i], pos, Capacity(s, i)))
    case AdjustBegin(i, offset) => Rewindow(s, i, BeginMoved(s.w[i], offset))
    case AdjustEnd(i, offset) => Rewindow(s, i, EndMoved(s.w[i], offset, Capacity(s, i)))
    case UpdateBegin(i, skip) => Rewindow(s, i, BeginAdvanced(s.w[i], skip).0)
  }

  /** What a caller who passes a raw pointer must know: the block is allocated, and it is not the
      one that the receiving slice alone keeps allocated. */
  predicate RawOk(s: World, op: Op)
    requires Names(s, op)
  {
    match op
    case Construct(buf, _) => buf.To? ==> buf.id in s.m.bufs
    case Reset(i, buf) => buf.To? ==> buf.id in s.m.bufs && !(s.w[i].buffer == buf && Count(s.w, buf.id) == 1)
    case _ => true
  }

  // ---- one step ----

  /** The idle blocks after a step: malloc makes one, a raw pointer that is handed over ends one, and
      nothing else does either. */
  function IdleAfter(s: World, op: Op): set<nat> {
    match op
    case Malloc(_) => Idle(s.m) + {s.m.next}
    case Construct(buf, _) => Without(Idle(s.m), buf)
    case Reset(_, buf) => Without(Idle(s.m), buf)
    case _ => Idle(s.m)
  }

  predicate StepOk(s: World, op: Op)
    requires Names(s, op)
  {
    var r := Step(s, op);
    && (r.Some? <==> RawOk(s, op))
    && (r.Some? ==> r.value.Ok() && Later(s.m, r.value.m) && FreesExactly(s.m, s.w, r.value.m, r.value.w))
    && (r.Some? ==> Idle(r.value.m) == IdleAfter(s, op))
  }

  lemma StepIdle(s: World, op: Op)
    requires s.Ok() && Names(s, op) && Step(s, op).Some?
    ensures Idle(Step(s, op).value.m) == IdleAfter(s, op)
  {
    hide Idle, Without, WF, Take, Drop, Create;
    match op
    case Malloc(data) => CreateIdle(s.m, s.w, data);
    case Construct(buf, size) => TakeIdle(s.m, s.w, buf);
    case CopyConstruct(j) =>
      TakeIdle(s.m, s.w, s.w[j].buffer);
      HeldIsNotIdle(s.m, s.w, j);
    case MoveConstruct(j) => MoveIdle(s, j);
    case Destroy(i) => DropIdle(s.m, s.w, i);
    case Assign(i, j) => if i != j { RetargetIdle(s.m, s.w, i, s.w[j].buffer); HeldIsNotIdle(s.m, s.w, j); }
    case Reset(i, buf) => RetargetIdle(s.m, s.w, i, buf);
    case Clone(i) => CloneIdle(s, i);
    case _ =>
  }

  lemma RetargetIdle(m: Mem, w: seq<Slice>, i: nat, to: Ref)
    requires WF(m, w) && i < |w| && Retarget(m, w[i].buffer, to).Some?
    ensures Idle(Retarget(m, w[i].buffer, to).value) == Without(Idle(m), to)
  {
    DropKeeps(m, w, i);
    DropIdle(m, w, i);
    TakeIdle(Drop(m, w[i].buffer).value, w[i := NOTHING], to);
  }

  lemma MoveIdle(s: World, j: nat)
    requires s.Ok() && j < |s.w| && Step(s, MoveConstruct(j)).Some?
    ensures Idle(Step(s, MoveConstruct(j)).value.m) == Idle(s.m)
  {
    hide Idle, Without, WF, Take, Drop;
    var m1, w1 := Take(s.m, s.w[j].buffer).value, s.w + [s.w[j]];
    TakeIdle(s.m, s.w, s.w[j].buffer);
    HeldIsNotIdle(s.m, s.w, j);
    SliceIsSound(s.m, s.w, j);
    AppendsOne(s.m, s.w, s.w[j]);
    assert w1[j] == s.w[j];
    DropIdle(m1, w1, j);
  }

  lemma SliceIsSound(m: Mem, w: seq<Slice>, i: nat)
    requires WF(m, w) && i < |w|
    ensures SliceOk(m, w[i])
  {
  }

  lemma CloneIdle(s: World, i: nat)
    requires s.Ok() && i < |s.w| && s.w[i].buffer.To? && Step(s, Clone(i)).Some?
    ensures Idle(Step(s, Clone(i)).value.m) == Idle(s.m)
  {
    var data := s.m.bufs[s.w[i].buffer.id].data;
    CreateIdle(s.m, s.w, data);
    SliceIsSound(s.m, s.w, i);
    Mallocs(s.m, s.w, data);
    TakeIdle(Create(s.m, data), s.w, To(s.m.next));
  }

  lemma SameSlices(m: Mem, w: seq<Slice>, i: nat, s: Slice)
    requires WF(m, w) && i < |w| && s.buffer == w[i].buffer && SliceOk(m, s)
    ensures WF(m, w[i := s]) && FreesExactly(m, w, m, w[i := s])
  {
    CountUpdates(w, i, s);
  }

  /** However positions and offsets are chosen, and even when a sum wraps around 32 bits, a window
      stays inside its block with its begin not behind its end. */
  lemma WindowsStay(s: World, op: Op)
    requires s.Ok() && Names(s, op)
    requires op.SetBegin? || op.SetEnd? || op.AdjustBegin? || op.AdjustEnd? || op.UpdateBegin?
    ensures StepOk(s, op)
  {
    var v := Step(s, op).value.w[op.i];
    assert s.w[op.i].buffer.Null? ==> v == NOTHING;
    SameSlices(s.m, s.w, op.i, v);
    StepIdle(s, op);
  }

  lemma AppendsOne(m: Mem, w: seq<Slice>, s: Slice)
    requires WF(m, w) && SliceOk(m, s)
    ensures Take(m, s.buffer).Some?
    ensures var m' := Take(m, s.buffer).value;
            WF(m', w + [s]) && Later(m, m') && FreesExactly(m, w, m', w + [s])
  {
    var w1 := w + [NOTHING];
    forall id {:trigger Count(w1, id)}
      ensures Count(w1, id) == Count(w, id)
    {
      CountAppend(w, NOTHING, id);
    }
    TakeKeeps(m, w1, |w|, s);
    assert w1[|w| := s] == w + [s];
  }

  lemma Mallocs(m: Mem, w: seq<Slice>, data: seq<uint8>)
    requires WF(m, w) && |data| < 0x1_0000_0000
    ensures var m' := Create(m, data);
            WF(m', w) && Later(m, m') && FreesExactly(m, w, m', w)
  {
    forall i | 0 <= i < |w|
      ensures w[i].buffer != To(m.next)
    {
    }
    CountZero(w, m.next);
  }

  lemma Swaps(m: Mem, w: seq<Slice>, i: nat, j: nat)
    requires WF(m, w) && i < |w| && j < |w|
    ensures var w' := w[i := w[j]][j := w[i]];
            WF(m, w') && FreesExactly(m, w, m, w')
  {
    CountUpdates(w, i, w[j]);
    CountUpdates(w[i := w[j]], j, w[i]);
  }

  lemma Moves(m: Mem, w: seq<Slice>, j: nat)
    requires WF(m, w) && j < |w|
    ensures Take(m, w[j].buffer).Some? && Drop(Take(m, w[j].buffer).value, w[j].buffer).Some?
    ensures var m' := Drop(Take(m, w[j].buffer).value, w[j].buffer).value;
            var w' := w[j := NOTHING] + [w[j]];
            WF(m', w') && Later(m, m') && FreesExactly(m, w, m', w')
  {
    var s := w[j];
    AppendsOne(m, w, s);
    var m1, w1 := Take(m, s.buffer).value, w + [s];
    DropKeeps(m1, w1, j);
    assert w1[j := NOTHING] == w[j := NOTHING] + [s];
    if s.buffer.To? {
      CountPositive(w, j, s.buffer.id);
      CountAppend(w, s, s.buffer.id);
      CountUpdate(w1, j, NOTHING, s.buffer.id);
    }
    forall id
      ensures Count(w1[j := NOTHING], id) == Count(w, id)
    {
      CountAppend(w, s, id);
      CountUpdate(w1, j, NOTHING, id);
    }
  }

  lemma AssignsSafely(m: Mem, w: seq<Slice>, i: nat, j: nat)
    requires WF(m, w) && i < |w| && j < |w| && i != j
    ensures Retarget(m, w[i].buffer, w[j].buffer).Some?
  {
    RetargetSafe(m, w, i, w[j].buffer);
    if w[j].buffer.To? && w[i].buffer == w[j].buffer {
      if i < j { CountTwo(w, i, j, w[j].buffer.id); } else { CountTwo(w, j, i, w[j].buffer.id); }
    }
  }

  /** From a consistent world every operation leads to a consistent one; it frees exactly the
      blocks that lose their last holder; and it touches a freed block exactly when it is handed a
      raw pointer it must not be handed. */
  lemma StepKeeps(s: World, op: Op)
    requires s.Ok() && Names(s, op)
    ensures StepOk(s, op)
  {
    hide Idle, Without;
    if Step(s, op).Some? { StepIdle(s, op); }
    match op
    case Malloc(data) => Mallocs(s.m, s.w, data);
    case Construct(buf, size) =>
      if RawOk(s, op) { AppendsOne(s.m, s.w, Whole(s.m, buf, size)); }
    case CopyConstruct(j) => AppendsOne(s.m, s.w, s.w[j]);
    case MoveConstruct(j) => Moves(s.m, s.w, j);
    case Destroy(i) => DropKeeps(s.m, s.w, i);
    case Assign(i, j) =>
      if i != j {
        AssignsSafely(s.m, s.w, i, j);
        RetargetKeeps(s.m, s.w, i, s.w[j]);
      }
    case MoveAssign(i, j) => Swaps(s.m, s.w, i, j);
    case Reset(i, buf) =>
      RetargetSafe(s.m, s.w, i, buf);
      if RawOk(s, op) { RetargetKeeps(s.m, s.w, i, Whole(s.m, buf, 0x1_0000_0000)); }
    case Clone(i) => Clones(s, i);
    case _ => WindowsStay(s, op);
  }

  lemma Clones(s: World, i: nat)
    requires s.Ok() && i < |s.w| && s.w[i].buffer.To?
    ensures StepOk(s, Clone(i))
  {
    var data := s.m.bufs[s.w[i].buffer.id].data;
    Mallocs(s.m, s.w, data);
    var m1 := Create(s.m, data);
    var v := s.w[i].(buffer := To(s.m.next));
    AppendsOne(m1, s.w, v);
    StepIdle(s, Clone(i));
  }

  // ---- runs ----

  function Run(s: World, ops: seq<Op>): Option<World> {
    if ops == [] then Some(s)
    else
      var r := Run(s, ops[..|ops| - 1]);
      if r.None? || !Names(r.value, ops[|ops| - 1]) then None
      else Step(r.value, ops[|ops| - 1])
  }

  /** Every operation of the run finds the objects it names and is given proper raw pointers. */
  predicate Proper(s: World, ops: seq<Op>) {
    ops == [] ||
    (Proper(s, ops[..|ops| - 1]) &&
     var r := Run(s, ops[..|ops| - 1]);
     r.Some? && Names(r.value, ops[|ops| - 1]) && RawOk(r.value, ops[|ops| - 1]))
  }

  /** Over any run from a consistent world: no freed block is ever touched unless the program hands
      in an improper raw pointer; every count equals the number of slices on the block at the end,
      nothing dangles, and a block that was freed on the way is still freed. */
  lemma {:induction false} RunKeeps(s: World, ops: seq<Op>)
    requires s.Ok()
    ensures Run(s, ops).Some? <==> Proper(s, ops)
    ensures Run(s, ops).Some? ==> Run(s, ops).value.Ok() && Later(s.m, Run(s, ops).value.m)
  {
    if ops != [] {
      RunKeeps(s, ops[..|ops| - 1]);
      var r := Run(s, ops[..|ops| - 1]);
      if r.Some? && Names(r.value, ops[|ops| - 1]) {
        StepKeeps(r.value, ops[|ops| - 1]);
      }
    }
  }

  /** A block that some slice has held stays allocated exactly as long as some slice holds it. */
  predicate Settled(s: World, id: nat) {
    id < s.m.next && (id in s.m.bufs <==> Count(s.w, id) > 0)
  }

  lemma HeldIsSettled(s: World, id: nat)
    requires s.Ok() && Count(s.w, id) > 0
    ensures Settled(s, id)
  {
    if id !in s.m.bufs {
      CountZero(s.w, id);
    }
  }

  lemma StepSettles(s: World, op: Op, id: nat)
    requires s.Ok() && Names(s, op) && Step(s, op).Some? && Settled(s, id)
    ensures Settled(Step(s, op).value, id)
  {
    hide Step, IdleAfter;
    StepKeeps(s, op);
    var t := Step(s, op).value;
    if Count(t.w, id) > 0 {
      HeldIsSettled(t, id);
    }
  }

  /** Over any run, a block that some slice held at any point is still allocated at the end exactly
      when some slice still holds it: it is freed when its last holder lets go, not before, and,
      since no freed address comes back, once. */
  lemma {:induction false} RunFrees(s: World, ops: seq<Op>, k: nat, id: nat)
    requires s.Ok() && k <= |ops| && Run(s, ops).Some?
    requires Run(s, ops[..k]).Some? ==> Count(Run(s, ops[..k]).value.w, id) > 0
    ensures Run(s, ops[..k]).Some? && Settled(Run(s, ops).value, id)
    decreases |ops|
  {
    hide Step, Settled;
    RunKeeps(s, ops);
    if k == |ops| {
      assert ops[..k] == ops;
      HeldIsSettled(Run(s, ops).value, id);
    } else {
      var front := ops[..|ops| - 1];
      assert front[..k] == ops[..k];
      RunFrees(s, front, k, id);
      RunKeeps(s, front);
      StepSettles(Run(s, front).value, ops[|ops| - 1], id);
    }
  }

  /** Over any run, no block is left behind: one that nobody holds at the end was idle at the start or
      was made on the way, and, as RunFrees says, nobody has held it in between. */
  lemma {:induction false} RunLeavesNothing(s: World, ops: seq<Op>)
    requires s.Ok() && Run(s, ops).Some?
    ensures forall id | id in Idle(Run(s, ops).value.m) :: id in Idle(s.m) || id >= s.m.next
  {
    hide Step, Idle, WF;
    if ops != [] {
      var front := ops[..|ops| - 1];
      RunLeavesNothing(s, front);
      RunKeeps(s, front);
      StepKeeps(Run(s, front).value, ops[|ops| - 1]);
    }
  }

  /** The failing case: reset to the block that the slice alone holds. */
  lemma ResetToOwnBlock(data: seq<uint8>)
    requires |data| < 0x1_0000_0000
    ensures var s := World(Mem(map[0 := Buf(1, data)], 1), [Slice(To(0), 0, |data|)]);
            s.Ok() && Names(s, Reset(0, To(0))) && Step(s, Reset(0, To(0))).None?
  {
    var s := World(Mem(map[0 := Buf(1, data)], 1), [Slice(To(0), 0, |data|)]);
    assert s.w[..0] == [];
    assert Count(s.w, 0) == Count(s.w[..0], 0) + 1;
  }

  /** UpdateBegin skips `offset` bytes and answers true, or answers false and changes nothing, as
      long as the sum fits in 32 bits. When it wraps below the end, the answer is true although
      the window has grown to the left. */
  lemma UpdateBeginExact(m: Mem, s: Slice, offset: uint32)
    requires SliceOk(m, s) && s.end < 0x1_0000_0000
    ensures var (v, ok) := BeginAdvanced(s, offset);
            var sum: int := s.begin + offset;
            && SliceOk(m, v)
            && (!ok ==> v == s)
            && (ok && sum < 0x1_0000_0000 ==> offset <= |BytesOf(m, s)| && BytesOf(m, v) == BytesOf(m, s)[offset..])
            && (ok && sum >= 0x1_0000_0000 ==> v.begin < s.begin)
            && (ok <==> if sum < 0x1_0000_0000 then sum <= s.end else sum - 0x1_0000_0000 <= s.end)
  {
  }

  /** The smallest wrap: any window that has moved can be told to skip almost 2^32 bytes; it answers
      true and shows its block from the first byte again. */
  lemma UpdateBeginWraps(id: nat, begin: uint32, end: uint32)
    requires 0 < begin <= end
    ensures BeginAdvanced(Slice(To(id), begin, end), 0x1_0000_0000 - begin) == (Slice(To(id), 0, end), true)
  {
    assert U32(begin + (0x1_0000_0000 - begin)) == 0;
  }
}

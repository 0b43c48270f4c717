// A list of blocks as one byte string, and what trimming and compacting the list do to it.

module Flat {
  import opened Bytes

  type Block = seq<uint8>

  const MAX_BLOCKS := 4

  function Flatten(bs: seq<Block>): seq<uint8> {
    if bs == [] then [] else Flatten(bs[..|bs| - 1]) + bs[|bs| - 1]
  }

  lemma {:induction false} FlattenConcat(a: seq<Block>, b: seq<Block>)
    ensures Flatten(a + b) == Flatten(a) + Flatten(b)
  {
    if b == [] {
      assert a + b == a;
    } else {
      FlattenConcat(a, b[..|b| - 1]);
      assert (a + b)[..|a + b| - 1] == a + b[..|b| - 1];
    }
  }

  lemma FlattenNone()
    ensures Flatten([]) == []
  {
  }

  lemma FlattenOne(b: Block)
    ensures Flatten([b]) == b
  {
    assert [b][..0] == [];
  }

  lemma FlattenPush(bs: seq<Block>, b: Block)
    ensures Flatten(bs + [b]) == Flatten(bs) + b
  {
    assert (bs + [b])[..|bs|] == bs;
  }

  lemma FlattenFirst(bs: seq<Block>)
    requires bs != []
    ensures Flatten(bs) == bs[0] + Flatten(bs[1..])
  {
    FlattenCons(bs[0], bs[1..]);
    assert bs == [bs[0]] + bs[1..];
  }

  lemma FlattenCons(b: Block, bs: seq<Block>)
    ensures Flatten([b] + bs) == b + Flatten(bs)
  {
    FlattenConcat([b], bs);
    FlattenOne(b);
  }

  lemma FlattenPrefix(bs: seq<Block>, i: nat)
    requires i < |bs|
    ensures Flatten(bs[..i + 1]) == Flatten(bs[..i]) + bs[i]
    ensures |Flatten(bs[..i])| + |bs[i]| <= |Flatten(bs)|
  {
    assert bs[..i + 1][..i] == bs[..i];
    FlattenConcat(bs[..i + 1], bs[i + 1..]);
    assert bs == bs[..i + 1] + bs[i + 1..];
  }

  // ---- skipping bytes at the front ----

  /** How many leading blocks are used up when `left` bytes are skipped: a block counts when nothing
      of it remains, except that no block is looked at once the last byte has been skipped. */
  function Dropped(bs: seq<Block>, left: nat): (n: nat)
    ensures n <= |bs|
  {
    if bs == [] then 0
    else if left < |bs[0]| then 0
    else if left == |bs[0]| then 1
    else 1 + Dropped(bs[1..], left - |bs[0]|)
  }

  /** What remains of the blocks behind them. */
  function Survivors(bs: seq<Block>, left: nat): (r: seq<Block>)
    ensures |r| == |bs| - Dropped(bs, left)
  {
    if bs == [] then []
    else if left < |bs[0]| then [bs[0][left..]] + bs[1..]
    else if left == |bs[0]| then bs[1..]
    else Survivors(bs[1..], left - |bs[0]|)
  }

  /** The survivors are exactly the bytes from `left` on. */
  lemma {:induction false} SurvivorsAreSuffix(bs: seq<Block>, left: nat)
    requires left <= |Flatten(bs)|
    ensures Flatten(Survivors(bs, left)) == Flatten(bs)[left..]
  {
    if bs != [] {
      FlattenFirst(bs);
      if left < |bs[0]| {
        FlattenFirst(Survivors(bs, left));
        assert Survivors(bs, left)[1..] == bs[1..];
      } else if left > |bs[0]| {
        SurvivorsAreSuffix(bs[1..], left - |bs[0]|);
      }
    }
  }

  /** Exactly how many blocks that is: the skipped bytes reach to their end but not behind the next block,
      and they do not end earlier, except that an empty first block goes even when nothing is skipped. */
  lemma {:induction false} DroppedExactly(bs: seq<Block>, left: nat)
    requires left < |Flatten(bs)|
    ensures var d := Dropped(bs, left);
            && d < |bs| && |Flatten(bs[..d])| <= left
            && (|Flatten(bs[..d])| == left || left < |Flatten(bs[..d + 1])|)
            && (d > 0 ==> |Flatten(bs[..d - 1])| < left || (left == 0 && d == 1 && bs[0] == []))
    ensures left == 0 ==> Dropped(bs, left) == if bs[0] == [] then 1 else 0
  {
    if bs != [] {
      FlattenFirst(bs);
      FlattenOne(bs[0]);
      assert bs[..0] == [] && bs[..1] == [bs[0]];
      if left > |bs[0]| {
        var rest, more := bs[1..], left - |bs[0]|;
        var d := Dropped(rest, more);
        DroppedExactly(rest, more);
        PrefixBehind(bs, d);
        PrefixBehind(bs, d + 1);
        if d > 0 { PrefixBehind(bs, d - 1); }
      }
    }
  }

  lemma PrefixBehind(bs: seq<Block>, k: nat)
    requires bs != [] && k < |bs|
    ensures Flatten(bs[..k + 1]) == bs[0] + Flatten(bs[1..][..k])
  {
    FlattenFirst(bs[..k + 1]);
    assert bs[..k + 1][1..] == bs[1..][..k];
  }

  lemma {:induction false} DroppedInside(bs: seq<Block>, left: nat)
    requires left < |Flatten(bs)|
    ensures Dropped(bs, left) < |bs|
  {
    if bs != [] {
      FlattenFirst(bs);
      if left >= |bs[0]| {
        if left > |bs[0]| { DroppedInside(bs[1..], left - |bs[0]|); }
      }
    }
  }

  /** A scan that has used up the first `pos` blocks and still has `left` of `offset` bytes to skip. */
  ghost predicate Scanning(bs: seq<Block>, offset: nat, pos: nat, left: nat) {
    && pos <= |bs| && left < |Flatten(bs[pos..])|
    && Dropped(bs, offset) == pos + Dropped(bs[pos..], left)
    && Survivors(bs, offset) == Survivors(bs[pos..], left)
  }

  lemma ScanStarts(bs: seq<Block>, offset: nat)
    requires offset < |Flatten(bs)|
    ensures Scanning(bs, offset, 0, offset) && Dropped(bs, offset) < |bs|
  {
    assert bs[0..] == bs;
    DroppedInside(bs, offset);
  }

  lemma ScanStep(bs: seq<Block>, offset: nat, pos: nat, left: nat)
    requires Scanning(bs, offset, pos, left)
    ensures pos < |bs|
    ensures left < |bs[pos]| ==>
      Dropped(bs, offset) == pos && Survivors(bs, offset) == [bs[pos][left..]] + bs[pos + 1..]
    ensures left == |bs[pos]| ==> Dropped(bs, offset) == pos + 1 && Survivors(bs, offset) == bs[pos + 1..]
    ensures left > |bs[pos]| ==> Scanning(bs, offset, pos + 1, left - |bs[pos]|) && pos + 1 < |bs|
  {
    var rest := bs[pos..];
    FlattenFirst(rest);
    assert rest[0] == bs[pos] && rest[1..] == bs[pos + 1..];
  }

  // ---- compaction ----

  /** Where the content of slot k came from once slot 0 was exchanged with slots s, s + 1, .., p - 1
      in turn: what the compaction loop does with an index that stays 0. */
  function Source(s: nat, p: nat, k: nat): (i: nat)
    requires 1 <= s <= p
    ensures k < p ==> i < p
    ensures k >= p ==> i == k
  {
    if p == s || k >= p || (0 < k < s) then k
    else if k == 0 then p - 1
    else if k == s then 0
    else k - 1
  }

  function Rotated<T>(slots: seq<T>, s: nat, p: nat): (r: seq<T>)
    requires 1 <= s <= p <= |slots|
    ensures |r| == |slots|
  {
    seq(|slots|, k requires 0 <= k < |slots| => slots[Source(s, p, k)])
  }

  /** In other words: of the slots from s on, what was in 0 came to s, the others moved up by one, and
      the last one came to 0; the slots between 0 and s kept theirs. */
  lemma RotatedExactly<T>(slots: seq<T>, s: nat, p: nat)
    requires 1 <= s < p <= |slots|
    ensures var r := Rotated(slots, s, p);
            && r[0] == slots[p - 1] && r[s] == slots[0]
            && (forall k | s < k < p :: r[k] == slots[k - 1])
            && (forall k | 0 < k < s || p <= k < |slots| :: r[k] == slots[k])
  {
  }

  /** One more turn of that loop. */
  lemma RotatedStep<T>(slots: seq<T>, s: nat, p: nat)
    requires 1 <= s <= p < |slots|
    ensures var r := Rotated(slots, s, p);
            Rotated(slots, s, p + 1) == r[0 := r[p]][p := r[0]]
  {
  }

  /** What the span shows after the compaction. */
  function Shown<T>(slots: seq<T>, dropped: nat): (r: seq<T>)
    requires dropped < |slots|
    ensures |r| == |slots| - dropped
  {
    if dropped == 0 then slots else Rotated(slots, dropped, |slots|)[..|slots| - dropped]
  }

  /** When the compaction with k stuck at 0 shows the right bytes: nothing was dropped, at most one
      block survived, or empty blocks hide the damage. */
  predicate Harmless(dropped: nat, rest: seq<Block>) {
    || dropped == 0
    || |rest| <= 1
    || (|rest| == 2 && rest[0] == [])
    || (|rest| == 3 && rest[1] == [] && rest[0] + rest[2] == rest[2] + rest[0])
  }

  /** Of the blocks of a span the first `dropped` are used up. With the stuck index the span shows
      the bytes of the survivors exactly in the harmless cases. */
  lemma StuckCompaction(slots: seq<Block>, dropped: nat)
    requires dropped < |slots| <= MAX_BLOCKS
    requires forall i | 0 <= i < dropped :: slots[i] == []
    ensures Flatten(Shown(slots, dropped)) == Flatten(slots[dropped..]) <==> Harmless(dropped, slots[dropped..])
  {
    hide Flatten, Rotated;
    var rest := slots[dropped..];
    if dropped == 0 {
      assert slots == rest;
    } else {
      ShownAfter(slots, dropped);
      if |rest| == 2 {
        TwoSurvive(rest[0], rest[1]);
        assert rest == [rest[0], rest[1]];
      } else if |rest| == 3 {
        ThreeSurvive(rest[0], rest[1], rest[2]);
        assert rest == [rest[0], rest[1], rest[2]];
      }
    }
  }

  lemma ShownAfter(slots: seq<Block>, dropped: nat)
    requires 0 < dropped < |slots| <= MAX_BLOCKS
    requires forall i | 0 <= i < dropped :: slots[i] == []
    ensures var rest, shown := slots[dropped..], Shown(slots, dropped);
            && (|rest| == 1 ==> shown == rest)
            && (|rest| == 2 ==> shown == [rest[1], []])
            && (|rest| == 3 ==> shown == [rest[2], [], rest[0]])
  {
    RotatedExactly(slots, dropped, |slots|);
  }

  lemma TwoSurvive(a: Block, b: Block)
    ensures Flatten([b, []]) == Flatten([a, b]) <==> a == []
  {
    var shown: seq<Block> := [b, []];
    Flatten2(shown);
    Flatten2([a, b]);
    assert |a + b| == |a| + |b|;
  }

  lemma ThreeSurvive(a: Block, b: Block, c: Block)
    ensures Flatten([c, [], a]) == Flatten([a, b, c]) <==> b == [] && a + c == c + a
  {
    var shown: seq<Block> := [c, [], a];
    Flatten3(shown);
    Flatten3([a, b, c]);
    if b == [] {
      assert a + b == a;
    } else {
      assert |a + b + c| != |c + a|;
    }
  }

  lemma Flatten2(bs: seq<Block>)
    requires |bs| == 2
    ensures Flatten(bs) == bs[0] + bs[1]
  {
    assert Flatten(bs[..1]) == Flatten(bs[..1][..0]) + bs[0];
  }

  lemma Flatten3(bs: seq<Block>)
    requires |bs| == 3
    ensures Flatten(bs) == bs[0] + bs[1] + bs[2]
  {
    Flatten2(bs[..2]);
  }

  /** For a span without empty blocks: the stuck index loses or reorders bytes exactly when a block
      is dropped and two or more survive. */
  lemma StuckWithoutEmptyBlocks(bs: seq<Block>, offset: nat)
    requires |bs| <= MAX_BLOCKS && offset < |Flatten(bs)|
    requires forall i | 0 <= i < |bs| :: bs[i] != []
    ensures Harmless(Dropped(bs, offset), Survivors(bs, offset)) <==>
            Dropped(bs, offset) == 0 || |Survivors(bs, offset)| <= 1
  {
    SurvivorsNonEmpty(bs, offset);
  }

  lemma {:induction false} SurvivorsNonEmpty(bs: seq<Block>, left: nat)
    requires forall i | 0 <= i < |bs| :: bs[i] != []
    ensures forall i | 0 <= i < |Survivors(bs, left)| :: Survivors(bs, left)[i] != []
  {
    if bs != [] && left > |bs[0]| {
      SurvivorsNonEmpty(bs[1..], left - |bs[0]|);
    }
  }

  /** The smallest span that comes out wrong: skipping the only byte of the first of three blocks
      leaves the third block alone on show. */
  lemma StuckLosesBytes(a: uint8, b: uint8, c: uint8)
    ensures var bs: seq<Block> := [[a], [b], [c]];
            var slots: seq<Block> := [[], [b], [c]];
            && Dropped(bs, 1) == 1 && Survivors(bs, 1) == [[b], [c]]
            && Flatten(bs)[1..] == [b, c]
            && Flatten(Shown(slots, 1)) == [c]
  {
    var bs: seq<Block> := [[a], [b], [c]];
    Flatten3(bs);
    var slots: seq<Block> := [[], [b], [c]];
    var shown: seq<Block> := [[c], []];
    assert Shown(slots, 1) == shown;
    Flatten2(shown);
  }
}

// Index sequences, literal comparison, member lookup and attributes on top of the counter.

module Reflect {
  import opened Bytes
  import opened Counter

  // ---- index sequences ----

  /** ConcatSequence: the second sequence is shifted by the length of the first. */
  function Concat(a: seq<nat>, b: seq<nat>): (r: seq<nat>)
    ensures |r| == |a| + |b|
    ensures forall i | 0 <= i < |r| :: r[i] == if i < |a| then a[i] else |a| + b[i - |a|]
  {
    a + seq(|b|, i requires 0 <= i < |b| => |a| + b[i])
  }

  /** GenSequence<N>, by halving: the numbers 0 .. N - 1. */
  function GenSequence(n: nat): (r: seq<nat>)
    ensures |r| == n && forall i | 0 <= i < n :: r[i] == i
  {
    if n == 0 then [] else if n == 1 then [0]
    else Concat(GenSequence(n / 2), GenSequence(n - n / 2))
  }

  // ---- comparing literals ----

  const NUL: char := 0 as char

  /** StringEqual reads both strings up to and including index n. */
  function StringEqual(a: seq<char>, b: seq<char>, n: nat): bool
    requires n < |a| && n < |b|
    decreases n
  {
    if a[0] == NUL && b[0] == NUL && n == 0 then true
    else if a[0] == NUL || b[0] == NUL then false
    else if n == 0 then true
    else if a[0] != b[0] then false
    else StringEqual(a[1..], b[1..], n - 1)
  }

  /** It compares n characters, but refuses strings with a NUL among them, and also looks at the
      character behind: a string that ends there differs from a longer one. */
  lemma {:induction false} StringEqualExact(a: seq<char>, b: seq<char>, n: nat)
    requires n < |a| && n < |b|
    ensures StringEqual(a, b, n) <==> a[..n] == b[..n] && NUL !in a[..n] && (a[n] == NUL <==> b[n] == NUL)
    decreases n
  {
    if n > 0 {
      StringEqualExact(a[1..], b[1..], n - 1);
      assert a[..n] == [a[0]] + a[1..][..n - 1] && b[..n] == [b[0]] + b[1..][..n - 1];
    }
  }

  /** operator== of two StringRefs made from literals, which are stored with a NUL behind them. */
  function LiteralEqual(s: seq<char>, t: seq<char>): bool {
    if |s| != |t| then false else StringEqual(s + [NUL], t + [NUL], |s|)
  }

  /** So literals compare as strings exactly as long as they contain no NUL. */
  lemma LiteralEqualExact(s: seq<char>, t: seq<char>)
    ensures LiteralEqual(s, t) <==> s == t && NUL !in s
  {
    if |s| == |t| {
      StringEqualExact(s + [NUL], t + [NUL], |s|);
      assert (s + [NUL])[..|s|] == s && (t + [NUL])[..|s|] == t;
    }
  }

  // ---- member lookup ----

  function IdAmong(names: seq<seq<char>>, name: seq<char>, ids: seq<nat>): int
    requires forall i | 0 <= i < |ids| :: ids[i] < |names|
  {
    if ids == [] then -1
    else if LiteralEqual(name, names[ids[0]]) then ids[0]
    else IdAmong(names, name, ids[1..])
  }

  function GetId(names: seq<seq<char>>, name: seq<char>): int {
    IdAmong(names, name, GenSequence(|names|))
  }

  lemma {:induction false} IdAmongIsFirst(names: seq<seq<char>>, name: seq<char>, ids: seq<nat>, k: nat)
    requires NUL !in name && k <= |names| && name !in names[..k]
    requires |ids| == |names| - k && forall i | 0 <= i < |ids| :: ids[i] == k + i
    ensures var r := IdAmong(names, name, ids);
            if name in names then 0 <= r < |names| && names[r] == name && name !in names[..r] else r == -1
    decreases |ids|
  {
    if ids == [] {
      assert names[..k] == names;
    } else {
      LiteralEqualExact(name, names[k]);
      if name != names[k] {
        assert names[..k + 1] == names[..k] + [names[k]];
        IdAmongIsFirst(names, name, ids[1..], k + 1);
      }
    }
  }

  lemma {:induction false} NulIsNowhere(names: seq<seq<char>>, name: seq<char>, ids: seq<nat>)
    requires NUL in name && forall i | 0 <= i < |ids| :: ids[i] < |names|
    ensures IdAmong(names, name, ids) == -1
  {
    if ids != [] {
      LiteralEqualExact(name, names[ids[0]]);
      NulIsNowhere(names, name, ids[1..]);
    }
  }

  /** GetId is the index of the first member with that name, or -1 when there is none; a name with a
      NUL in it is never found, even where a member has it. */
  lemma GetIdIsFirst(names: seq<seq<char>>, name: seq<char>)
    ensures var r := GetId(names, name);
            if name in names && NUL !in name then 0 <= r < |names| && names[r] == name && name !in names[..r]
            else r == -1
  {
    if NUL in name {
      NulIsNowhere(names, name, GenSequence(|names|));
    } else {
      IdAmongIsFirst(names, name, GenSequence(|names|), 0);
    }
  }

  // ---- attributes ----

  /** What is declared for one member so far: the __attr_storage overloads by index, and the counter. */
  datatype Attributes = Attributes(storage: map<nat, seq<char>>, counter: Overloads)

  /** R_ATTRIBUTE: stores the name at the counter value, then increments; None when one of the two
      declarations exists already. */
  function Attach(a: Attributes, name: seq<char>): Option<Attributes> {
    var i := Read(a.counter, RANKS);
    if i in a.storage then None
    else
      var c := Inc(a.counter, RANKS);
      if c.None? then None else Some(Attributes(a.storage[i := name], c.value))
  }

  function AttachAll(names: seq<seq<char>>): Option<Attributes> {
    if names == [] then Some(Attributes(map[], map[]))
    else
      var a := AttachAll(names[..|names| - 1]);
      if a.None? then None else Attach(a.value, names[|names| - 1])
  }

  function HasAmong(storage: map<nat, seq<char>>, name: seq<char>, ids: seq<nat>): bool
    requires forall i | 0 <= i < |ids| :: ids[i] in storage
  {
    if ids == [] then false
    else if LiteralEqual(storage[ids[0]], name) then true
    else HasAmong(storage, name, ids[1..])
  }

  lemma {:induction false} HasAmongExact(storage: map<nat, seq<char>>, name: seq<char>, ids: seq<nat>)
    requires NUL !in name && forall i | 0 <= i < |ids| :: ids[i] in storage
    ensures HasAmong(storage, name, ids) <==> exists i :: 0 <= i < |ids| && storage[ids[i]] == name
  {
    if ids != [] {
      LiteralEqualExact(storage[ids[0]], name);
      HasAmongExact(storage, name, ids[1..]);
      forall i | 0 <= i < |ids| && storage[ids[i]] == name && i > 0
        ensures storage[ids[1..][i - 1]] == name
      {
      }
    }
  }

  /** HAS_ATTRIBUTE. */
  function HasAttribute(a: Attributes, name: seq<char>): bool
    requires forall i | 0 <= i < Read(a.counter, RANKS) :: i in a.storage
  {
    HasAmong(a.storage, name, GenSequence(Read(a.counter, RANKS)))
  }

  /** The i-th name lies at index i, and the counter has been incremented once for each. */
  predicate StoredInOrder(a: Attributes, names: seq<seq<char>>) {
    && |names| <= Pow2(RANKS) && Some(a.counter) == Increments(RANKS, |names|)
    && (forall i | i in a.storage :: i < |names|)
    && (forall i | 0 <= i < |names| :: i in a.storage && a.storage[i] == names[i])
  }

  lemma AttachNext(a: Attributes, names: seq<seq<char>>, name: seq<char>)
    requires StoredInOrder(a, names)
    ensures |names| < Pow2(RANKS) ==> Attach(a, name).Some? && StoredInOrder(Attach(a, name).value, names + [name])
    ensures |names| == Pow2(RANKS) ==> Attach(a, name).None?
  {
    hide Inc, Read, Pow2, Increments;
    CounterCounts(RANKS, |names|);
    CounterCounts(RANKS, |names| + 1);
    CounterSteps(RANKS, |names| + 1);
    SourceRanks();
  }

  lemma SourceRanks()
    ensures Pow2(RANKS) == 256
  {
    assert Pow2(4) == 16;
  }

  /** The i-th attribute of a member is stored at index i, for up to 256 attributes; one more does
      not compile. */
  lemma {:induction false} AttachStores(names: seq<seq<char>>)
    ensures AttachAll(names).Some? <==> |names| <= Pow2(RANKS)
    ensures |names| <= Pow2(RANKS) ==> StoredInOrder(AttachAll(names).value, names)
  {
    hide Pow2, Attach, StoredInOrder;
    var n := |names|;
    if n == 0 {
      NothingStored(names);
    } else {
      AttachStores(names[..n - 1]);
      assert names == names[..n - 1] + [names[n - 1]];
      if n - 1 <= Pow2(RANKS) {
        AttachNext(AttachAll(names[..n - 1]).value, names[..n - 1], names[n - 1]);
      }
    }
  }

  lemma NothingStored(names: seq<seq<char>>)
    requires names == []
    ensures Pow2(RANKS) > 0 && StoredInOrder(Attributes(map[], map[]), names)
  {
    CounterStarts(RANKS);
  }

  lemma CounterStarts(k: nat)
    ensures Increments(k, 0) == Some(map[])
  {
  }

  lemma CounterSteps(k: nat, n: nat)
    requires n > 0
    ensures Increments(k, n) == if Increments(k, n - 1).None? then None else Inc(Increments(k, n - 1).value, k)
  {
  }

  /** HAS_ATTRIBUTE is true exactly for the attributes attached so far, among the first 255: the
      256th can be attached, but the counter cannot reach its index. */
  lemma HasAttributeExact(names: seq<seq<char>>, name: seq<char>)
    requires |names| <= Pow2(RANKS) && NUL !in name
    ensures AttachAll(names).Some?
    ensures var a := AttachAll(names).value;
            && (forall i | 0 <= i < Read(a.counter, RANKS) :: i in a.storage)
            && (HasAttribute(a, name) <==> name in names[..if |names| < Pow2(RANKS) then |names| else |names| - 1])
  {
    hide Inc, Read, Pow2;
    AttachStores(names);
    CounterCounts(RANKS, |names|);
    var a := AttachAll(names).value;
    var r := Read(a.counter, RANKS);
    HasAmongExact(a.storage, name, GenSequence(r));
    forall i | 0 <= i < r && names[i] == name
      ensures a.storage[GenSequence(r)[i]] == name
    {
    }
  }

  /** A 256th attribute that is none of the first 255 is attached and not found. */
  lemma LastAttributeIsMissed(names: seq<seq<char>>, name: seq<char>)
    requires |names| == 255 && name !in names && NUL !in name
    ensures AttachAll(names + [name]).Some?
    ensures var a := AttachAll(names + [name]).value;
            && (forall i | 0 <= i < Read(a.counter, RANKS) :: i in a.storage)
            && !HasAttribute(a, name)
  {
    hide Pow2, AttachAll, Read, HasAttribute;
    SourceRanks();
    HasAttributeExact(names + [name], name);
    assert (names + [name])[..255] == names;
  }
}

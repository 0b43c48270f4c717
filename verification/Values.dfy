// The values the stream operators carry, their C++ types, and the order std::set and std::map
// keep their elements in.

module Values {
  import opened Bytes
  import opened VarInt

  /** std::vector and std::list append what is decoded; std::set and std::map insert it. */
  datatype Kind = Appended | OrderedSet | OrderedMap

  datatype Type =
    | TBool
    | TInt(width: nat, signed: bool)
    | TBytes                             // std::string, std::vector<uint8_t>
    | TSeq(kind: Kind, elem: Type)
    | TRec(fields: seq<Type>)            // std::pair, packable structs

  datatype Value =
    | VBool(b: bool)
    | VInt(n: int)
    | VBytes(bytes: seq<uint8>)
    | VSeq(elems: seq<Value>)

  const UINT16 := TInt(2, false)
  const UINT32 := TInt(4, false)

  predicate TypeOk(t: Type) {
    match t
    case TBool => true
    case TInt(w, _) => w == 1 || w == 2 || w == 4 || w == 8
    case TBytes => true
    case TSeq(kind, e) => TypeOk(e) && (kind == OrderedMap ==> e.TRec? && |e.fields| == 2)
    case TRec(fs) => fs != [] && FieldsOk(fs)
  }

  predicate FieldsOk(fs: seq<Type>) {
    fs == [] || (FieldsOk(fs[..|fs| - 1]) && TypeOk(fs[|fs| - 1]))
  }

  predicate InRange(n: int, m: int, signed: bool) {
    if signed then -m <= 2 * n < m else 0 <= n < m
  }

  predicate HasType(v: Value, t: Type)
    decreases v, 1
  {
    match (v, t)
    case (VBool(_), TBool) => true
    case (VInt(n), TInt(w, signed)) => InRange(n, Pow256(w), signed)
    case (VBytes(_), TBytes) => true
    case (VSeq(es), TSeq(kind, e)) => AllTyped(es, e) && Sorted(kind, es)
    case (VSeq(es), TRec(fs)) => FieldsTyped(es, fs)
    case _ => false
  }

  /** The integer types in figures. */
  lemma IntegerRanges(n: int)
    ensures HasType(VInt(n), TInt(1, false)) <==> 0 <= n < 0x100
    ensures HasType(VInt(n), TInt(2, false)) <==> 0 <= n < 0x1_0000
    ensures HasType(VInt(n), TInt(4, false)) <==> 0 <= n < 0x1_0000_0000
    ensures HasType(VInt(n), TInt(8, false)) <==> 0 <= n < 0x1_0000_0000_0000_0000
    ensures HasType(VInt(n), TInt(1, true)) <==> -0x80 <= n < 0x80
    ensures HasType(VInt(n), TInt(2, true)) <==> -0x8000 <= n < 0x8000
    ensures HasType(VInt(n), TInt(4, true)) <==> -0x8000_0000 <= n < 0x8000_0000
    ensures HasType(VInt(n), TInt(8, true)) <==> -0x8000_0000_0000_0000 <= n < 0x8000_0000_0000_0000
  {
    assert Pow256(4) == 0x1_0000_0000;
    assert Pow256(8) == 256 * Pow256(7) && Pow256(7) == 256 * Pow256(6);
    assert Pow256(6) == 256 * Pow256(5) && Pow256(5) == 256 * Pow256(4);
  }

  predicate AllTyped(es: seq<Value>, e: Type)
    decreases es, 0
  {
    es == [] || (AllTyped(es[..|es| - 1], e) && HasType(es[|es| - 1], e))
  }

  predicate FieldsTyped(es: seq<Value>, fs: seq<Type>)
    decreases es, 0
  {
    |es| == |fs| &&
    (es == [] || (FieldsTyped(es[..|es| - 1], fs[..|fs| - 1]) && HasType(es[|es| - 1], fs[|fs| - 1])))
  }

  /** Every length that is announced by a variable-length integer fits in it. */
  predicate Countable(v: Value, t: Type)
    decreases v, 1
  {
    match (v, t)
    case (VBytes(bs), TBytes) => |bs| < VAR_LIMIT
    case (VSeq(es), TSeq(_, e)) => |es| < VAR_LIMIT && AllCountable(es, e)
    case (VSeq(es), TRec(fs)) => FieldsCountable(es, fs)
    case _ => true
  }

  predicate AllCountable(es: seq<Value>, e: Type)
    decreases es, 0
  {
    es == [] || (AllCountable(es[..|es| - 1], e) && Countable(es[|es| - 1], e))
  }

  predicate FieldsCountable(es: seq<Value>, fs: seq<Type>)
    decreases es, 0
  {
    |es| == |fs| &&
    (es == [] || (FieldsCountable(es[..|es| - 1], fs[..|fs| - 1]) && Countable(es[|es| - 1], fs[|fs| - 1])))
  }

  lemma {:induction false} AllTypedForall(es: seq<Value>, e: Type)
    ensures AllTyped(es, e) <==> forall v | v in es :: HasType(v, e)
    ensures AllCountable(es, e) <==> forall v | v in es :: Countable(v, e)
  {
    if es != [] {
      var front, last := es[..|es| - 1], es[|es| - 1];
      AllTypedForall(front, e);
      assert es == front + [last];
      assert last in es;
      assert forall v :: v in front ==> v in es;
    }
  }

  // ---- the element order: operator< as a three-way comparison ----

  function Sign(x: int): int {
    if x < 0 then -1 else if x > 0 then 1 else 0
  }

  function Rank(v: Value): int {
    match v
    case VBool(_) => 0
    case VInt(_) => 1
    case VBytes(_) => 2
    case VSeq(_) => 3
  }

  function CompareBytes(a: seq<uint8>, b: seq<uint8>): int {
    if a == [] || b == [] then Sign(|a| - |b|)
    else if a[0] != b[0] then (if a[0] < b[0] then -1 else 1)
    else CompareBytes(a[1..], b[1..])
  }

  /** Negative, zero or positive as a < b, a == b or b < a: integers by value, strings by unsigned
      bytes, containers, pairs and structs lexicographically. */
  function Compare(a: Value, b: Value): int
    decreases a
  {
    match (a, b)
    case (VBool(x), VBool(y)) => if x == y then 0 else if y then -1 else 1
    case (VInt(x), VInt(y)) => Sign(x - y)
    case (VBytes(x), VBytes(y)) => CompareBytes(x, y)
    case (VSeq(x), VSeq(y)) => CompareAll(x, y)
    case _ => Sign(Rank(a) - Rank(b))
  }

  function CompareAll(a: seq<Value>, b: seq<Value>): int
    decreases a
  {
    if a == [] || b == [] then Sign(|a| - |b|)
    else if Compare(a[0], b[0]) != 0 then Compare(a[0], b[0])
    else CompareAll(a[1..], b[1..])
  }

  // ---- which of two values is smaller ----

  /** a and b agree before k, and there a has ended or has the smaller byte. */
  ghost predicate SmallerByteAt(a: seq<uint8>, b: seq<uint8>, k: nat) {
    && k <= |a| && k < |b| && (forall i | 0 <= i < k :: a[i] == b[i])
    && (k < |a| ==> a[k] < b[k])
  }

  /** Where two strings first differ, the smaller has the smaller byte or has ended. */
  ghost predicate SmallerBytes(a: seq<uint8>, b: seq<uint8>) {
    exists k: nat :: SmallerByteAt(a, b, k)
  }

  ghost predicate SmallerElementAt(a: seq<Value>, b: seq<Value>, k: nat) {
    && k <= |a| && k < |b| && (forall i | 0 <= i < k :: a[i] == b[i])
    && (k < |a| ==> Compare(a[k], b[k]) < 0)
  }

  /** The same for sequences of values. */
  ghost predicate SmallerElements(a: seq<Value>, b: seq<Value>) {
    exists k: nat :: SmallerElementAt(a, b, k)
  }

  lemma SmallerByteBehind(a: seq<uint8>, b: seq<uint8>, k: nat)
    requires a != [] && b != [] && a[0] == b[0]
    ensures SmallerByteAt(a[1..], b[1..], k) <==> SmallerByteAt(a, b, k + 1)
  {
    if SmallerByteAt(a[1..], b[1..], k) {
      forall i | 0 <= i < k + 1
        ensures a[i] == b[i]
      {
        if i > 0 { assert a[1..][i - 1] == b[1..][i - 1]; }
      }
    }
  }

  lemma SmallerElementBehind(a: seq<Value>, b: seq<Value>, k: nat)
    requires a != [] && b != [] && a[0] == b[0]
    ensures SmallerElementAt(a[1..], b[1..], k) <==> SmallerElementAt(a, b, k + 1)
  {
    hide Compare;
    if SmallerElementAt(a[1..], b[1..], k) {
      forall i | 0 <= i < k + 1
        ensures a[i] == b[i]
      {
        if i > 0 { assert a[1..][i - 1] == b[1..][i - 1]; }
      }
    }
  }

  lemma {:induction false} CompareBytesMeans(a: seq<uint8>, b: seq<uint8>)
    ensures CompareBytes(a, b) < 0 <==> SmallerBytes(a, b)
  {
    if a == [] || b == [] || a[0] != b[0] {
      assert SmallerByteAt(a, b, 0) <==> CompareBytes(a, b) < 0;
    } else {
      CompareBytesMeans(a[1..], b[1..]);
      if k: nat :| SmallerByteAt(a[1..], b[1..], k) {
        SmallerByteBehind(a, b, k);
      }
      if k: nat :| SmallerByteAt(a, b, k) {
        assert k > 0;
        SmallerByteBehind(a, b, k - 1);
      }
    }
  }

  lemma {:induction false} CompareAllMeans(a: seq<Value>, b: seq<Value>)
    ensures CompareAll(a, b) < 0 <==> SmallerElements(a, b)
  {
    hide Compare;
    if a == [] || b == [] {
      assert SmallerElementAt(a, b, 0) <==> CompareAll(a, b) < 0;
    } else {
      CompareLaws(a[0], b[0]);
      if Compare(a[0], b[0]) != 0 {
        assert SmallerElementAt(a, b, 0) <==> CompareAll(a, b) < 0;
      } else {
        CompareAllMeans(a[1..], b[1..]);
        if k: nat :| SmallerElementAt(a[1..], b[1..], k) {
          SmallerElementBehind(a, b, k);
        }
        if k: nat :| SmallerElementAt(a, b, k) {
          assert k > 0;
          SmallerElementBehind(a, b, k - 1);
        }
      }
    }
  }

  /** false before true, integers by size, strings by their first different byte, containers, pairs and
      structs by their first different element. */
  lemma CompareMeans(a: Value, b: Value)
    ensures a.VBool? && b.VBool? ==> (Compare(a, b) < 0 <==> !a.b && b.b)
    ensures a.VInt? && b.VInt? ==> (Compare(a, b) < 0 <==> a.n < b.n)
    ensures a.VBytes? && b.VBytes? ==> (Compare(a, b) < 0 <==> SmallerBytes(a.bytes, b.bytes))
    ensures a.VSeq? && b.VSeq? ==> (Compare(a, b) < 0 <==> SmallerElements(a.elems, b.elems))
  {
    if a.VBytes? && b.VBytes? { CompareBytesMeans(a.bytes, b.bytes); }
    if a.VSeq? && b.VSeq? { CompareAllMeans(a.elems, b.elems); }
  }

  lemma {:induction false} CompareBytesLaws(a: seq<uint8>, b: seq<uint8>)
    ensures CompareBytes(b, a) == -CompareBytes(a, b)
    ensures CompareBytes(a, b) == 0 <==> a == b
  {
    if a != [] && b != [] {
      CompareBytesLaws(a[1..], b[1..]);
      assert a == [a[0]] + a[1..] && b == [b[0]] + b[1..];
    }
  }

  lemma {:induction false} CompareBytesTrans(a: seq<uint8>, b: seq<uint8>, c: seq<uint8>)
    requires CompareBytes(a, b) < 0 && CompareBytes(b, c) < 0
    ensures CompareBytes(a, c) < 0
  {
    if a != [] && b != [] && c != [] && a[0] == b[0] && b[0] == c[0] {
      CompareBytesTrans(a[1..], b[1..], c[1..]);
    }
  }

  /** The order is antisymmetric, and only equal values are incomparable. */
  lemma {:induction false} CompareLaws(a: Value, b: Value)
    ensures Compare(b, a) == -Compare(a, b)
    ensures Compare(a, b) == 0 <==> a == b
    decreases a
  {
    match (a, b)
    case (VBytes(x), VBytes(y)) => CompareBytesLaws(x, y);
    case (VSeq(x), VSeq(y)) => CompareAllLaws(x, y);
    case _ =>
  }

  lemma {:induction false} CompareAllLaws(a: seq<Value>, b: seq<Value>)
    ensures CompareAll(b, a) == -CompareAll(a, b)
    ensures CompareAll(a, b) == 0 <==> a == b
    decreases a
  {
    if a != [] && b != [] {
      CompareLaws(a[0], b[0]);
      CompareAllLaws(a[1..], b[1..]);
      assert a == [a[0]] + a[1..] && b == [b[0]] + b[1..];
    }
  }

  lemma {:induction false} CompareTrans(a: Value, b: Value, c: Value)
    requires Compare(a, b) < 0 && Compare(b, c) < 0
    ensures Compare(a, c) < 0
    decreases a
  {
    match (a, b, c)
    case (VBytes(x), VBytes(y), VBytes(z)) => CompareBytesTrans(x, y, z);
    case (VSeq(x), VSeq(y), VSeq(z)) => CompareAllTrans(x, y, z);
    case _ =>
  }

  lemma {:induction false} CompareAllTrans(a: seq<Value>, b: seq<Value>, c: seq<Value>)
    requires CompareAll(a, b) < 0 && CompareAll(b, c) < 0
    ensures CompareAll(a, c) < 0
    decreases a
  {
    if a != [] && b != [] && c != [] {
      CompareLaws(a[0], b[0]);
      CompareLaws(b[0], c[0]);
      CompareLaws(a[0], c[0]);
      if Compare(a[0], b[0]) < 0 && Compare(b[0], c[0]) < 0 {
        CompareTrans(a[0], b[0], c[0]);
      } else if a[0] == b[0] && b[0] == c[0] {
        CompareAllTrans(a[1..], b[1..], c[1..]);
      }
    }
  }

  // ---- ordered containers ----

  /** What an ordered container looks its elements up by: a map entry's first half, else the element. */
  function Key(kind: Kind, v: Value): Value {
    if kind == OrderedMap && v.VSeq? && v.elems != [] then v.elems[0] else v
  }

  predicate Before(kind: Kind, a: Value, b: Value) {
    Compare(Key(kind, a), Key(kind, b)) < 0
  }

  predicate Sorted(kind: Kind, es: seq<Value>) {
    kind != Appended ==> forall i, j | 0 <= i < j < |es| :: Before(kind, es[i], es[j])
  }

  /** insert: a key that is already there keeps its old entry. */
  function Insert(kind: Kind, es: seq<Value>, x: Value): seq<Value> {
    if es == [] || Before(kind, x, es[0]) then [x] + es
    else if Before(kind, es[0], x) then [es[0]] + Insert(kind, es[1..], x)
    else es
  }

  function Add(kind: Kind, es: seq<Value>, x: Value): seq<Value> {
    if kind == Appended then es + [x] else Insert(kind, es, x)
  }

  /** The container after the given elements went in, first to last. */
  function Build(kind: Kind, xs: seq<Value>): seq<Value> {
    if xs == [] then [] else Add(kind, Build(kind, xs[..|xs| - 1]), xs[|xs| - 1])
  }

  lemma {:induction false} InsertLast(kind: Kind, es: seq<Value>, x: Value)
    requires forall i | 0 <= i < |es| :: Before(kind, es[i], x)
    ensures Insert(kind, es, x) == es + [x]
  {
    if es != [] {
      CompareLaws(Key(kind, es[0]), Key(kind, x));
      InsertLast(kind, es[1..], x);
      assert es == [es[0]] + es[1..];
    }
  }

  /** Elements that arrive in container order rebuild the container they came from. */
  lemma {:induction false} BuildOfSorted(kind: Kind, es: seq<Value>)
    requires Sorted(kind, es)
    ensures Build(kind, es) == es
  {
    if es != [] {
      var front := es[..|es| - 1];
      BuildOfSorted(kind, front);
      assert es == front + [es[|es| - 1]];
      if kind != Appended {
        InsertLast(kind, front, es[|es| - 1]);
      }
    }
  }

  lemma {:induction false} InsertMembers(kind: Kind, es: seq<Value>, x: Value)
    ensures forall e :: e in Insert(kind, es, x) ==> e == x || e in es
    ensures |Insert(kind, es, x)| <= |es| + 1
  {
    if es != [] && Before(kind, es[0], x) && !Before(kind, x, es[0]) {
      InsertMembers(kind, es[1..], x);
    }
  }

  lemma {:induction false} InsertKeepsOrder(kind: Kind, es: seq<Value>, x: Value)
    requires kind != Appended && Sorted(kind, es)
    ensures Sorted(kind, Insert(kind, es, x))
  {
    var r := Insert(kind, es, x);
    if es == [] {
    } else if Before(kind, x, es[0]) {
      forall i, j | 0 <= i < j < |r| ensures Before(kind, r[i], r[j]) {
        if i == 0 && j > 1 {
          CompareTrans(Key(kind, x), Key(kind, es[0]), Key(kind, es[j - 1]));
        }
      }
    } else if Before(kind, es[0], x) {
      InsertKeepsOrder(kind, es[1..], x);
      InsertMembers(kind, es[1..], x);
      var t := Insert(kind, es[1..], x);
      forall i, j | 0 <= i < j < |r| ensures Before(kind, r[i], r[j]) {
        if i == 0 {
          assert r[j] == t[j - 1] && t[j - 1] in t;
        } else {
          assert r[i] == t[i - 1] && r[j] == t[j - 1];
        }
      }
    }
  }

  /** Whatever goes in, in whatever order and with whatever repetitions, an ordered container
      stays strictly sorted and holds nothing else. */
  lemma {:induction false} BuildSound(kind: Kind, xs: seq<Value>)
    ensures Sorted(kind, Build(kind, xs)) && |Build(kind, xs)| <= |xs|
    ensures forall e :: e in Build(kind, xs) ==> e in xs
  {
    if xs != [] {
      var front, last := xs[..|xs| - 1], xs[|xs| - 1];
      BuildSound(kind, front);
      assert xs == front + [last];
      if kind != Appended {
        InsertKeepsOrder(kind, Build(kind, front), last);
        InsertMembers(kind, Build(kind, front), last);
      }
    }
  }

  /** The first element with key k. */
  function Find(kind: Kind, es: seq<Value>, k: Value): Option<Value> {
    if es == [] then None
    else if Key(kind, es[0]) == k then Some(es[0])
    else Find(kind, es[1..], k)
  }

  lemma {:induction false} FindLast(kind: Kind, es: seq<Value>, x: Value, k: Value)
    ensures Find(kind, es + [x], k) ==
            if Find(kind, es, k).Some? then Find(kind, es, k) else Find(kind, [x], k)
  {
    if es == [] {
      assert es + [x] == [x];
    } else {
      FindLast(kind, es[1..], x, k);
      assert (es + [x])[1..] == es[1..] + [x];
    }
  }

  lemma {:induction false} FindNone(kind: Kind, es: seq<Value>, k: Value)
    requires forall i | 0 <= i < |es| :: Key(kind, es[i]) != k
    ensures Find(kind, es, k) == None
  {
    if es != [] {
      FindNone(kind, es[1..], k);
    }
  }

  lemma {:induction false} InsertFinds(kind: Kind, es: seq<Value>, x: Value, k: Value)
    requires kind != Appended && Sorted(kind, es)
    ensures Find(kind, Insert(kind, es, x), k) ==
            if Find(kind, es, k).Some? then Find(kind, es, k) else Find(kind, [x], k)
  {
    if es == [] {
    } else if Before(kind, x, es[0]) {
      assert ([x] + es)[1..] == es;
      if Key(kind, x) == k {
        forall i | 0 <= i < |es| ensures Key(kind, es[i]) != k {
          CompareLaws(k, k);
          if i > 0 { CompareTrans(Key(kind, x), Key(kind, es[0]), Key(kind, es[i])); }
        }
        FindNone(kind, es, k);
      }
    } else if Before(kind, es[0], x) {
      InsertFinds(kind, es[1..], x, k);
      assert ([es[0]] + Insert(kind, es[1..], x))[1..] == Insert(kind, es[1..], x);
    } else {
      CompareLaws(Key(kind, x), Key(kind, es[0]));
    }
  }

  /** Looking a key up in the finished container gives the first arrival with that key, and
      nothing exactly when no arrival had it. */
  lemma {:induction false} BuildFinds(kind: Kind, xs: seq<Value>, k: Value)
    ensures Find(kind, Build(kind, xs), k) == Find(kind, xs, k)
  {
    if xs != [] {
      var front, last := xs[..|xs| - 1], xs[|xs| - 1];
      BuildFinds(kind, front, k);
      assert xs == front + [last];
      FindLast(kind, front, last, k);
      if kind == Appended {
        FindLast(kind, Build(kind, front), last, k);
      } else {
        BuildSound(kind, front);
        InsertFinds(kind, Build(kind, front), last, k);
      }
    }
  }

  // ---- what the containers are, in words of their elements ----

  predicate AllPairs(xs: seq<Value>) {
    forall i | 0 <= i < |xs| :: xs[i].VSeq? && |xs[i].elems| == 2
  }

  /** The entry is the first arrival with its first half. */
  ghost predicate FirstArrival(x: Value, xs: seq<Value>)
    requires AllPairs(xs) && x.VSeq? && |x.elems| == 2
  {
    exists i :: 0 <= i < |xs| && xs[i] == x && forall k :: 0 <= k < i ==> xs[k].elems[0] != x.elems[0]
  }

  ghost predicate HasEntry(es: seq<Value>, k: Value)
    requires AllPairs(es)
  {
    exists j :: 0 <= j < |es| && es[j].elems[0] == k
  }

  /** A map of the pairs that arrived: ascending first halves, so no two the same; every first half that
      arrived; and each with the second half it arrived with first. */
  ghost predicate IsMapOf(es: seq<Value>, xs: seq<Value>)
    requires AllPairs(xs)
  {
    && AllPairs(es)
    && (forall i, j | 0 <= i < j < |es| :: Compare(es[i].elems[0], es[j].elems[0]) < 0)
    && (forall i, j | 0 <= i < j < |es| :: es[i].elems[0] != es[j].elems[0])
    && (forall i | 0 <= i < |xs| :: HasEntry(es, xs[i].elems[0]))
    && (forall j | 0 <= j < |es| :: FirstArrival(es[j], xs))
  }

  /** A set of the elements that arrived: ascending, so none twice, and exactly those. */
  ghost predicate IsSetOf(es: seq<Value>, xs: seq<Value>) {
    && (forall i, j | 0 <= i < j < |es| :: Compare(es[i], es[j]) < 0 && es[i] != es[j])
    && (forall x :: x in es <==> x in xs)
  }

  ghost predicate FirstWithKey(kind: Kind, es: seq<Value>, k: Value, i: nat) {
    i < |es| && Key(kind, es[i]) == k && forall j | 0 <= j < i :: Key(kind, es[j]) != k
  }

  lemma FirstBehind(kind: Kind, es: seq<Value>, k: Value, i: nat)
    requires es != [] && Key(kind, es[0]) != k && FirstWithKey(kind, es[1..], k, i)
    ensures FirstWithKey(kind, es, k, i + 1)
  {
    hide Key;
    forall j | 0 <= j < i + 1
      ensures Key(kind, es[j]) != k
    {
      if j > 0 { assert es[j] == es[1..][j - 1]; }
    }
  }

  /** Find gives the first element with the key. */
  lemma {:induction false} FindMeans(kind: Kind, es: seq<Value>, k: Value)
    ensures Find(kind, es, k).None? ==> forall i | 0 <= i < |es| :: Key(kind, es[i]) != k
    ensures Find(kind, es, k).Some? ==>
            exists i: nat :: FirstWithKey(kind, es, k, i) && es[i] == Find(kind, es, k).value
  {
    hide Key;
    if es == [] {
    } else if Key(kind, es[0]) == k {
      assert FirstWithKey(kind, es, k, 0);
    } else {
      FindMeans(kind, es[1..], k);
      if Find(kind, es, k).Some? {
        var i: nat :| FirstWithKey(kind, es[1..], k, i) && es[1..][i] == Find(kind, es, k).value;
        FirstBehind(kind, es, k, i);
      } else {
        forall i | 0 <= i < |es|
          ensures Key(kind, es[i]) != k
        {
          if i > 0 { assert es[i] == es[1..][i - 1]; }
        }
      }
    }
  }

  lemma SortedIsDistinct(kind: Kind, es: seq<Value>, i: nat, j: nat)
    requires kind != Appended && Sorted(kind, es) && i < j < |es|
    ensures Compare(Key(kind, es[i]), Key(kind, es[j])) < 0 && Key(kind, es[i]) != Key(kind, es[j])
  {
    assert Before(kind, es[i], es[j]);
    CompareLaws(Key(kind, es[i]), Key(kind, es[j]));
  }

  lemma KeyOfPair(v: Value)
    requires v.VSeq? && |v.elems| == 2
    ensures Key(OrderedMap, v) == v.elems[0]
  {
  }

  lemma EntriesArePairs(xs: seq<Value>)
    requires AllPairs(xs)
    ensures AllPairs(Build(OrderedMap, xs))
  {
    BuildSound(OrderedMap, xs);
    var es := Build(OrderedMap, xs);
    forall j | 0 <= j < |es|
      ensures es[j].VSeq? && |es[j].elems| == 2
    {
      assert es[j] in xs;
    }
  }

  lemma EntriesAscend(xs: seq<Value>, i: nat, j: nat)
    requires AllPairs(xs) && AllPairs(Build(OrderedMap, xs)) && i < j < |Build(OrderedMap, xs)|
    ensures var es := Build(OrderedMap, xs);
            Compare(es[i].elems[0], es[j].elems[0]) < 0 && es[i].elems[0] != es[j].elems[0]
  {
    BuildSound(OrderedMap, xs);
    SortedIsDistinct(OrderedMap, Build(OrderedMap, xs), i, j);
  }

  lemma ArrivalHasEntry(xs: seq<Value>, i: nat)
    requires AllPairs(xs) && AllPairs(Build(OrderedMap, xs)) && i < |xs|
    ensures HasEntry(Build(OrderedMap, xs), xs[i].elems[0])
  {
    hide Compare, Build, Find;
    var es, k := Build(OrderedMap, xs), xs[i].elems[0];
    BuildFinds(OrderedMap, xs, k);
    FindMeans(OrderedMap, xs, k);
    FindMeans(OrderedMap, es, k);
    assert Key(OrderedMap, xs[i]) == k;
    var j :| 0 <= j < |es| && Key(OrderedMap, es[j]) == k;
    KeyOfPair(es[j]);
  }

  /** Inserting pairs, one after the other, makes a map of them. */
  lemma MapHoldsFirstArrivals(xs: seq<Value>)
    requires AllPairs(xs)
    ensures IsMapOf(Build(OrderedMap, xs), xs)
  {
    hide Compare, Build, Find, FirstArrival, HasEntry, Sorted;
    var es := Build(OrderedMap, xs);
    EntriesArePairs(xs);
    BuildSound(OrderedMap, xs);
    forall i, j | 0 <= i < j < |es|
      ensures Compare(es[i].elems[0], es[j].elems[0]) < 0 && es[i].elems[0] != es[j].elems[0]
    {
      EntriesAscend(xs, i, j);
    }
    forall i | 0 <= i < |xs|
      ensures HasEntry(es, xs[i].elems[0])
    {
      ArrivalHasEntry(xs, i);
    }
    forall j | 0 <= j < |es|
      ensures FirstArrival(es[j], xs)
    {
      EntryArrivedFirst(xs, j);
    }
  }

  lemma EntryArrivedFirst(xs: seq<Value>, j: nat)
    requires AllPairs(xs) && j < |Build(OrderedMap, xs)|
    requires AllPairs(Build(OrderedMap, xs)) && Sorted(OrderedMap, Build(OrderedMap, xs))
    ensures FirstArrival(Build(OrderedMap, xs)[j], xs)
  {
    hide Compare, Build, Find, Sorted;
    var es := Build(OrderedMap, xs);
    var k := es[j].elems[0];
    assert Key(OrderedMap, es[j]) == k;
    BuildFinds(OrderedMap, xs, k);
    FindMeans(OrderedMap, es, k);
    FindMeans(OrderedMap, xs, k);
    var f: nat :| FirstWithKey(OrderedMap, es, k, f) && es[f] == Find(OrderedMap, es, k).value;
    if f < j {
      SortedIsDistinct(OrderedMap, es, f, j);
    } else if j < f {
      SortedIsDistinct(OrderedMap, es, j, f);
    }
    assert f == j;
    var i: nat :| FirstWithKey(OrderedMap, xs, k, i) && xs[i] == es[j];
    forall m | 0 <= m < i
      ensures xs[m].elems[0] != k
    {
      assert Key(OrderedMap, xs[m]) == xs[m].elems[0];
    }
  }

  /** Inserting elements, one after the other, makes a set of them. */
  lemma SetHoldsAll(xs: seq<Value>)
    ensures IsSetOf(Build(OrderedSet, xs), xs)
  {
    hide Compare, Build, Find;
    var es := Build(OrderedSet, xs);
    BuildSound(OrderedSet, xs);
    forall i, j | 0 <= i < j < |es|
      ensures Compare(es[i], es[j]) < 0 && es[i] != es[j]
    {
      SortedIsDistinct(OrderedSet, es, i, j);
    }
    forall x | x in xs
      ensures x in es
    {
      var i :| 0 <= i < |xs| && xs[i] == x;
      BuildFinds(OrderedSet, xs, x);
      FindMeans(OrderedSet, xs, x);
      FindMeans(OrderedSet, es, x);
      assert Key(OrderedSet, xs[i]) == x;
    }
  }

  /** Appending keeps everything, in order. */
  lemma ListHoldsAll(xs: seq<Value>)
    ensures Build(Appended, xs) == xs
  {
    BuildOfSorted(Appended, xs);
  }

  /** What a container of each kind is, given the elements that arrived. */
  ghost predicate Collects(kind: Kind, es: seq<Value>, xs: seq<Value>) {
    match kind
    case Appended => es == xs
    case OrderedSet => IsSetOf(es, xs)
    case OrderedMap => AllPairs(xs) ==> IsMapOf(es, xs)
  }

  lemma BuildCollects(kind: Kind, xs: seq<Value>)
    ensures Collects(kind, Build(kind, xs), xs)
  {
    match kind
    case Appended => ListHoldsAll(xs);
    case OrderedSet => SetHoldsAll(xs);
    case OrderedMap => if AllPairs(xs) { MapHoldsFirstArrivals(xs); }
  }

  // ---- containers with an order of their own ----

  /** Strictly ascending in any order at all. */
  ghost predicate Ascending(less: (Value, Value) -> bool, es: seq<Value>) {
    forall i, j | 0 <= i < j < |es| :: less(es[i], es[j]) && !less(es[j], es[i])
  }

  /** insert with that order. */
  function InsertBy(less: (Value, Value) -> bool, es: seq<Value>, x: Value): seq<Value> {
    if es == [] || less(x, es[0]) then [x] + es
    else if less(es[0], x) then [es[0]] + InsertBy(less, es[1..], x)
    else es
  }

  function BuildBy(less: (Value, Value) -> bool, xs: seq<Value>): seq<Value> {
    if xs == [] then [] else InsertBy(less, BuildBy(less, xs[..|xs| - 1]), xs[|xs| - 1])
  }

  lemma {:induction false} InsertLastBy(less: (Value, Value) -> bool, es: seq<Value>, x: Value)
    requires forall i | 0 <= i < |es| :: less(es[i], x) && !less(x, es[i])
    ensures InsertBy(less, es, x) == es + [x]
  {
    if es != [] {
      InsertLastBy(less, es[1..], x);
      assert es == [es[0]] + es[1..];
    }
  }

  /** Elements that arrive in the container's own order, whatever that is, rebuild the container. */
  lemma {:induction false} BuildOfAscending(less: (Value, Value) -> bool, es: seq<Value>)
    requires Ascending(less, es)
    ensures BuildBy(less, es) == es
  {
    if es != [] {
      var front, last := es[..|es| - 1], es[|es| - 1];
      BuildOfAscending(less, front);
      InsertLastBy(less, front, last);
      assert es == front + [last];
    }
  }

  /** The sets and maps of the format are those whose order compares keys as Compare does. */
  lemma {:induction false} BuildIsBuildBy(kind: Kind, xs: seq<Value>)
    requires kind != Appended
    ensures Build(kind, xs) == BuildBy((a: Value, b: Value) => Before(kind, a, b), xs)
  {
    if xs != [] {
      BuildIsBuildBy(kind, xs[..|xs| - 1]);
      InsertIsInsertBy(kind, Build(kind, xs[..|xs| - 1]), xs[|xs| - 1]);
    }
  }

  lemma {:induction false} InsertIsInsertBy(kind: Kind, es: seq<Value>, x: Value)
    ensures Insert(kind, es, x) == InsertBy((a: Value, b: Value) => Before(kind, a, b), es, x)
  {
    if es != [] {
      InsertIsInsertBy(kind, es[1..], x);
    }
  }
}

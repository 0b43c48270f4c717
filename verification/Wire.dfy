// The byte format of the stream operators: what operator<< appends, what operator>> reads back.

module Wire {
  import opened Bytes
  import opened VarInt
  import opened Values

  // ---- operator<< ----

  function Encode(v: Value, t: Type): seq<uint8>
    decreases v, 1
  {
    match (v, t)
    case (VBool(b), TBool) => [if b then 1 else 0]
    case (VInt(n), TInt(w, _)) => ToLE(n, w)
    case (VBytes(bs), TBytes) => EncodeVar(|bs|) + bs
    case (VSeq(es), TSeq(_, e)) => EncodeVar(|es|) + EncodeAll(es, e)
    case (VSeq(es), TRec(fs)) => EncodeFields(es, fs)
    case _ => []
  }

  function EncodeAll(es: seq<Value>, e: Type): seq<uint8>
    decreases es, 0
  {
    if es == [] then [] else EncodeAll(es[..|es| - 1], e) + Encode(es[|es| - 1], e)
  }

  function EncodeFields(es: seq<Value>, fs: seq<Type>): seq<uint8>
    decreases es, 0
  {
    if es == [] || |es| != |fs| then []
    else EncodeFields(es[..|es| - 1], fs[..|fs| - 1]) + Encode(es[|es| - 1], fs[|fs| - 1])
  }

  // ---- operator>> ----

  /** The value at pos and the cursor behind it; None where the code would read outside the buffer
      or load a bool that is neither 0 nor 1. */
  function Decode(s: seq<uint8>, pos: nat, t: Type): (r: Option<(Value, nat)>)
    decreases t, 0
  {
    match t
    case TBool =>
      if pos + 1 <= |s| && s[pos] <= 1 then Some((VBool(s[pos] == 1), pos + 1)) else None
    case TInt(w, signed) =>
      if pos + w <= |s| then Some((VInt(FromTwos(FromLE(s[pos..pos + w]), Pow256(w), signed)), pos + w)) else None
    case TBytes =>
      var head := DecodeVar(s, pos);
      if head.None? then None
      else
        var (len, p) := head.value;
        if p + len <= |s| then Some((VBytes(s[p..p + len]), p + len)) else None
    case TSeq(kind, e) =>
      var head := DecodeVar(s, pos);
      if head.None? then None
      else
        var body := DecodeAll(s, head.value.1, e, head.value.0);
        if body.None? then None else Some((VSeq(Build(kind, body.value.0)), body.value.1))
    case TRec(fs) =>
      var body := DecodeFields(s, pos, fs);
      if body.None? then None else Some((VSeq(body.value.0), body.value.1))
  }

  function DecodeAll(s: seq<uint8>, pos: nat, e: Type, n: nat): (r: Option<(seq<Value>, nat)>)
    decreases e, 1, n
  {
    if n == 0 then Some(([], pos))
    else
      var front := DecodeAll(s, pos, e, n - 1);
      if front.None? then None
      else
        var last := Decode(s, front.value.1, e);
        if last.None? then None else Some((front.value.0 + [last.value.0], last.value.1))
  }

  function DecodeFields(s: seq<uint8>, pos: nat, fs: seq<Type>): (r: Option<(seq<Value>, nat)>)
    decreases fs, 0
  {
    if fs == [] then Some(([], pos))
    else
      var front := DecodeFields(s, pos, fs[..|fs| - 1]);
      if front.None? then None
      else
        var last := Decode(s, front.value.1, fs[|fs| - 1]);
        if last.None? then None else Some((front.value.0 + [last.value.0], last.value.1))
  }

  /** static_cast from an unsigned type of m values to the signed one of the same width. */
  function FromTwos(n: nat, m: int, signed: bool): int {
    if signed && 2 * n >= m then n - m else n
  }

  // ---- records ----

  /** The members of a derived class behind those of its base. */
  lemma {:induction false} FieldsConcat(a: seq<Value>, b: seq<Value>, fs: seq<Type>, gs: seq<Type>)
    requires |a| == |fs| && |b| == |gs|
    ensures EncodeFields(a + b, fs + gs) == EncodeFields(a, fs) + EncodeFields(b, gs)
    ensures FieldsTyped(a + b, fs + gs) <==> FieldsTyped(a, fs) && FieldsTyped(b, gs)
    ensures FieldsOk(fs + gs) <==> FieldsOk(fs) && FieldsOk(gs)
  {
    hide Encode, HasType, TypeOk;
    if b == [] {
      assert a + b == a && fs + gs == fs;
    } else {
      var n := |b| - 1;
      FieldsConcat(a, b[..n], fs, gs[..n]);
      assert (a + b)[..|a + b| - 1] == a + b[..n] && (fs + gs)[..|fs + gs| - 1] == fs + gs[..n];
    }
  }

  lemma Fields1(x: Value, t: Type)
    ensures EncodeFields([x], [t]) == Encode(x, t)
    ensures FieldsTyped([x], [t]) <==> HasType(x, t)
    ensures FieldsCountable([x], [t]) <==> Countable(x, t)
    ensures FieldsOk([t]) <==> TypeOk(t)
  {
    hide Encode, HasType, Countable, TypeOk;
    assert [x][..0] == [] && [t][..0] == [];
    assert EncodeFields([x], [t]) == [] + Encode(x, t);
  }

  lemma Fields2(x: Value, y: Value, t: Type, u: Type)
    ensures EncodeFields([x, y], [t, u]) == Encode(x, t) + Encode(y, u)
    ensures FieldsTyped([x, y], [t, u]) <==> HasType(x, t) && HasType(y, u)
    ensures FieldsCountable([x, y], [t, u]) <==> Countable(x, t) && Countable(y, u)
    ensures FieldsOk([t, u]) <==> TypeOk(t) && TypeOk(u)
  {
    hide Encode, HasType, Countable, TypeOk;
    assert [x, y][..1] == [x] && [t, u][..1] == [t];
    Fields1(x, t);
  }

  lemma Fields3(x: Value, y: Value, z: Value, t: Type, u: Type, v: Type)
    ensures EncodeFields([x, y, z], [t, u, v]) == Encode(x, t) + Encode(y, u) + Encode(z, v)
    ensures FieldsTyped([x, y, z], [t, u, v]) <==> HasType(x, t) && HasType(y, u) && HasType(z, v)
    ensures FieldsCountable([x, y, z], [t, u, v]) <==> Countable(x, t) && Countable(y, u) && Countable(z, v)
    ensures FieldsOk([t, u, v]) <==> TypeOk(t) && TypeOk(u) && TypeOk(v)
  {
    hide Encode, HasType, Countable, TypeOk;
    assert [x, y, z][..2] == [x, y] && [t, u, v][..2] == [t, u];
    Fields2(x, y, t, u);
  }

  lemma Fields4(x: Value, y: Value, z: Value, w: Value, t: Type)
    ensures EncodeFields([x, y, z, w], [t, t, t, t]) == Encode(x, t) + Encode(y, t) + Encode(z, t) + Encode(w, t)
    ensures FieldsTyped([x, y, z, w], [t, t, t, t]) <==>
            HasType(x, t) && HasType(y, t) && HasType(z, t) && HasType(w, t)
    ensures FieldsCountable([x, y, z, w], [t, t, t, t]) <==>
            Countable(x, t) && Countable(y, t) && Countable(z, t) && Countable(w, t)
    ensures FieldsOk([t, t, t, t]) <==> TypeOk(t)
  {
    hide Encode, HasType, Countable, TypeOk;
    assert [x, y, z, w][..3] == [x, y, z] && [t, t, t, t][..3] == [t, t, t];
    Fields3(x, y, z, t, t, t);
  }

  // ---- the bytes on the wire ----

  /** A bool is one byte, 1 for true; an integer its digits of weight 256^k, the least significant first;
      a string its length and its bytes; a container its count and its elements; a record its members. */
  lemma EncodeMeans(v: Value, t: Type)
    requires HasType(v, t)
    ensures t.TBool? ==> Encode(v, t) == if v.b then [1] else [0]
    ensures t.TInt? ==> |Encode(v, t)| == t.width
                        && forall k | 0 <= k < t.width :: Encode(v, t)[k] == v.n / Pow256(k) % 256
    ensures t.TBytes? ==> Encode(v, t) == EncodeVar(|v.bytes|) + v.bytes
    ensures t.TSeq? ==> Encode(v, t) == EncodeVar(|v.elems|) + EncodeAll(v.elems, t.elem)
    ensures t.TRec? ==> Encode(v, t) == EncodeFields(v.elems, t.fields)
  {
    if t.TInt? {
      forall k | 0 <= k < t.width
        ensures Encode(v, t)[k] == v.n / Pow256(k) % 256
      {
        ToLEByte(v.n, t.width, k);
      }
    }
  }

  /** The elements of a container lie one behind the other, first to last. */
  lemma {:induction false} EncodeAllConcat(a: seq<Value>, b: seq<Value>, e: Type)
    ensures EncodeAll(a + b, e) == EncodeAll(a, e) + EncodeAll(b, e)
    ensures |b| == 1 ==> EncodeAll(b, e) == Encode(b[0], e)
  {
    hide Encode;
    if b == [] {
      assert a + b == a;
    } else {
      var n := |b| - 1;
      EncodeAllConcat(a, b[..n], e);
      assert (a + b)[..|a + b| - 1] == a + b[..n];
    }
  }

  // ---- sizes ----

  /** Every value takes at least one byte on the wire. */
  lemma {:induction false} EncodeNonEmpty(v: Value, t: Type)
    requires TypeOk(t) && HasType(v, t)
    ensures |Encode(v, t)| >= 1
    decreases v
  {
    if t.TRec? {
      EncodeNonEmpty(v.elems[|v.elems| - 1], t.fields[|t.fields| - 1]);
    }
  }

  lemma {:induction false} EncodeAllSize(es: seq<Value>, e: Type)
    requires TypeOk(e) && AllTyped(es, e)
    ensures |EncodeAll(es, e)| >= |es|
  {
    if es != [] {
      EncodeNonEmpty(es[|es| - 1], e);
      EncodeAllSize(es[..|es| - 1], e);
    }
  }

  /** Below 2^23 bytes no nested length can overflow its 23-bit code. */
  lemma {:induction false} SmallIsCountable(v: Value, t: Type)
    requires TypeOk(t) && HasType(v, t) && |Encode(v, t)| < VAR_LIMIT
    ensures Countable(v, t)
    decreases v, 1
  {
    match t
    case TSeq(kind, e) =>
      EncodeAllSize(v.elems, e);
      SmallAreCountable(v.elems, e);
    case TRec(fs) =>
      SmallFieldsAreCountable(v.elems, fs);
    case _ =>
  }

  lemma {:induction false} SmallAreCountable(es: seq<Value>, e: Type)
    requires TypeOk(e) && AllTyped(es, e) && |EncodeAll(es, e)| < VAR_LIMIT
    ensures AllCountable(es, e)
    decreases es, 0
  {
    if es != [] {
      SmallAreCountable(es[..|es| - 1], e);
      SmallIsCountable(es[|es| - 1], e);
    }
  }

  lemma {:induction false} SmallFieldsAreCountable(es: seq<Value>, fs: seq<Type>)
    requires FieldsOk(fs) && FieldsTyped(es, fs) && |EncodeFields(es, fs)| < VAR_LIMIT
    ensures FieldsCountable(es, fs)
    decreases es, 0
  {
    if es != [] {
      SmallFieldsAreCountable(es[..|es| - 1], fs[..|fs| - 1]);
      SmallIsCountable(es[|es| - 1], fs[|fs| - 1]);
    }
  }

  // ---- decoding what was encoded ----

  lemma IntDecodes(s: seq<uint8>, p: nat, q: nat, n: int, w: nat, signed: bool)
    requires InRange(n, Pow256(w), signed) && Spans(s, p, q, ToLE(n, w))
    ensures Decode(s, p, TInt(w, signed)) == Some((VInt(n), q))
  {
    FromToLE(n, w);
  }

  lemma BytesDecode(s: seq<uint8>, p: nat, q: nat, bs: seq<uint8>)
    requires |bs| < VAR_LIMIT && Spans(s, p, q, EncodeVar(|bs|) + bs)
    ensures Decode(s, p, TBytes) == Some((VBytes(bs), q))
  {
    var m := p + VarLen(|bs|);
    SpansConcat(s, p, m, q, EncodeVar(|bs|), bs);
    VarRead(s, p, m, |bs|);
  }

  lemma SeqDecodes(s: seq<uint8>, p: nat, m: nat, q: nat, es: seq<Value>, kind: Kind, e: Type)
    requires DecodeVar(s, p) == Some((|es|, m)) && DecodeAll(s, m, e, |es|) == Some((es, q))
    requires Sorted(kind, es)
    ensures Decode(s, p, TSeq(kind, e)) == Some((VSeq(es), q))
  {
    BuildOfSorted(kind, es);
  }

  lemma ScalarDecodes(s: seq<uint8>, p: nat, q: nat, v: Value, t: Type)
    requires !t.TSeq? && !t.TRec? && HasType(v, t) && Countable(v, t)
    requires Spans(s, p, q, Encode(v, t))
    ensures Decode(s, p, t) == Some((v, q))
  {
    match t
    case TBool =>
      SpansIndex(s, p, q, Encode(v, t), 0);
    case TInt(w, signed) =>
      IntDecodes(s, p, q, v.n, w, signed);
    case TBytes =>
      BytesDecode(s, p, q, v.bytes);
  }

  predicate Sendable(v: Value, t: Type) {
    TypeOk(t) && HasType(v, t) && Countable(v, t)
  }

  predicate SendableAll(es: seq<Value>, e: Type) {
    TypeOk(e) && AllTyped(es, e) && AllCountable(es, e)
  }

  predicate SendableFields(es: seq<Value>, fs: seq<Type>) {
    FieldsOk(fs) && FieldsTyped(es, fs) && FieldsCountable(es, fs)
  }

  /** operator>> undoes operator<<: wherever the encoding of a well-typed value stands in a buffer,
      decoding there yields that value and stops right behind it. */
  lemma {:induction false} RoundTrip(s: seq<uint8>, p: nat, q: nat, v: Value, t: Type)
    requires Sendable(v, t) && Spans(s, p, q, Encode(v, t))
    ensures Decode(s, p, t) == Some((v, q))
    decreases v, 1
  {
    if t.TSeq? {
      var m := p + VarLen(|v.elems|);
      SpansConcat(s, p, m, q, EncodeVar(|v.elems|), EncodeAll(v.elems, t.elem));
      VarRead(s, p, m, |v.elems|);
      RoundTripAll(s, m, q, v.elems, t.elem);
      SeqDecodes(s, p, m, q, v.elems, t.kind, t.elem);
    } else if t.TRec? {
      RoundTripFields(s, p, q, v.elems, t.fields);
    } else {
      ScalarDecodes(s, p, q, v, t);
    }
  }

  lemma {:induction false} RoundTripAll(s: seq<uint8>, p: nat, q: nat, es: seq<Value>, e: Type)
    requires SendableAll(es, e) && Spans(s, p, q, EncodeAll(es, e))
    ensures DecodeAll(s, p, e, |es|) == Some((es, q))
    decreases es, 0
  {
    hide Encode, Decode, DecodeAll, HasType, Countable, TypeOk;
    if es == [] {
      NothingDecodes(s, p, e);
    } else {
      var n := |es| - 1;
      var m := p + |EncodeAll(es[..n], e)|;
      SpansConcat(s, p, m, q, EncodeAll(es[..n], e), Encode(es[n], e));
      RoundTripAll(s, p, m, es[..n], e);
      RoundTrip(s, m, q, es[n], e);
      DecodeAllNext(s, p, m, q, es, e);
    }
  }

  lemma NothingDecodes(s: seq<uint8>, p: nat, e: Type)
    ensures DecodeAll(s, p, e, 0) == Some(([], p))
  {
  }

  lemma DecodeAllNext(s: seq<uint8>, p: nat, m: nat, q: nat, es: seq<Value>, e: Type)
    requires es != [] && DecodeAll(s, p, e, |es| - 1) == Some((es[..|es| - 1], m))
    requires Decode(s, m, e) == Some((es[|es| - 1], q))
    ensures DecodeAll(s, p, e, |es|) == Some((es, q))
  {
    assert es == es[..|es| - 1] + [es[|es| - 1]];
  }

  lemma {:induction false} RoundTripFields(s: seq<uint8>, p: nat, q: nat, es: seq<Value>, fs: seq<Type>)
    requires SendableFields(es, fs) && Spans(s, p, q, EncodeFields(es, fs))
    ensures DecodeFields(s, p, fs) == Some((es, q))
    decreases es, 0
  {
    hide Encode, Decode, HasType, Countable, TypeOk;
    if es == [] {
      assert p == q;
    } else {
      var n := |es| - 1;
      var m := p + |EncodeFields(es[..n], fs[..n])|;
      SpansConcat(s, p, m, q, EncodeFields(es[..n], fs[..n]), Encode(es[n], fs[n]));
      RoundTripFields(s, p, m, es[..n], fs[..n]);
      RoundTrip(s, m, q, es[n], fs[n]);
      assert es == es[..n] + [es[n]];
    }
  }

  /** A set or map keyed by doubles, or by a type with an operator< of its own, round-trips too: its
      elements come back in the order they were written, and inserting them by any order in which they
      ascend rebuilds it. */
  lemma RoundTripBy(s: seq<uint8>, p: nat, q: nat, es: seq<Value>, e: Type, less: (Value, Value) -> bool)
    requires SendableAll(es, e) && |es| < VAR_LIMIT && Ascending(less, es)
    requires Spans(s, p, q, EncodeVar(|es|) + EncodeAll(es, e))
    ensures DecodeVar(s, p).Some?
    ensures var (count, m) := DecodeVar(s, p).value;
            var body := DecodeAll(s, m, e, count);
            body.Some? && BuildBy(less, body.value.0) == es && body.value.1 == q
  {
    hide EncodeVar, DecodeVar, Encode, EncodeAll, DecodeAll;
    var m := p + |EncodeVar(|es|)|;
    SpansConcat(s, p, m, q, EncodeVar(|es|), EncodeAll(es, e));
    VarRead(s, p, m, |es|);
    RoundTripAll(s, m, q, es, e);
    BuildOfAscending(less, es);
  }

  /** The code is uniquely decodable: two values of one type that can start the same bytes are
      the same value. */
  lemma PrefixFree(a: Value, b: Value, t: Type, x: seq<uint8>, y: seq<uint8>)
    requires Sendable(a, t) && Sendable(b, t)
    requires Encode(a, t) + x == Encode(b, t) + y
    ensures a == b && x == y
  {
    var s := Encode(a, t) + x;
    assert s[..|Encode(a, t)|] == Encode(a, t) && s[..|Encode(b, t)|] == Encode(b, t);
    RoundTrip(s, 0, |Encode(a, t)|, a, t);
    RoundTrip(s, 0, |Encode(b, t)|, b, t);
    assert x == s[|Encode(a, t)|..] && y == s[|Encode(b, t)|..];
  }

  // ---- decoding bytes nobody encoded ----

  /** Whatever bytes arrive, a decode that stays inside the buffer moves the cursor forward and
      yields a well-typed value: integers in range, sets and maps strictly sorted without
      duplicate keys, all lengths encodable again. */
  lemma {:induction false} DecodeSound(s: seq<uint8>, pos: nat, t: Type)
    requires TypeOk(t) && pos <= |s| && Decode(s, pos, t).Some?
    ensures var (v, next) := Decode(s, pos, t).value;
            HasType(v, t) && Countable(v, t) && pos < next <= |s|
    decreases t, 0
  {
    match t
    case TBool =>
    case TInt(w, signed) =>
      FromLEBound(s[pos..pos + w]);
    case TBytes =>
    case TSeq(kind, e) =>
      var head := DecodeVar(s, pos).value;
      DecodeAllSound(s, head.1, e, head.0);
      BuildTyped(kind, DecodeAll(s, head.1, e, head.0).value.0, e);
    case TRec(fs) =>
      DecodeFieldsSound(s, pos, fs);
  }

  lemma BuildTyped(kind: Kind, xs: seq<Value>, e: Type)
    requires AllTyped(xs, e) && AllCountable(xs, e)
    ensures AllTyped(Build(kind, xs), e) && AllCountable(Build(kind, xs), e)
    ensures Sorted(kind, Build(kind, xs)) && |Build(kind, xs)| <= |xs|
  {
    BuildSound(kind, xs);
    AllTypedForall(xs, e);
    AllTypedForall(Build(kind, xs), e);
  }

  lemma {:induction false} DecodeAllSound(s: seq<uint8>, pos: nat, e: Type, n: nat)
    requires TypeOk(e) && pos <= |s| && DecodeAll(s, pos, e, n).Some?
    ensures var (es, next) := DecodeAll(s, pos, e, n).value;
            |es| == n && pos + n <= next <= |s| && AllTyped(es, e) && AllCountable(es, e)
    decreases e, 1, n
  {
    if n > 0 {
      DecodeAllSound(s, pos, e, n - 1);
      DecodeSound(s, DecodeAll(s, pos, e, n - 1).value.1, e);
      var es := DecodeAll(s, pos, e, n).value.0;
      assert es[..n - 1] == DecodeAll(s, pos, e, n - 1).value.0;
    }
  }

  lemma {:induction false} DecodeFieldsSound(s: seq<uint8>, pos: nat, fs: seq<Type>)
    requires FieldsOk(fs) && pos <= |s| && DecodeFields(s, pos, fs).Some?
    ensures var (es, next) := DecodeFields(s, pos, fs).value;
            pos + |fs| <= next <= |s| && FieldsTyped(es, fs) && FieldsCountable(es, fs)
    decreases fs, 0
  {
    if fs != [] {
      var n := |fs| - 1;
      DecodeFieldsSound(s, pos, fs[..n]);
      DecodeSound(s, DecodeFields(s, pos, fs[..n]).value.1, fs[n]);
      var es := DecodeFields(s, pos, fs).value.0;
      assert es[..n] == DecodeFields(s, pos, fs[..n]).value.0;
    }
  }
}

// Socket addresses: the unrolled orders of generated structs, and the tagged union of an IPv4, an
// IPv6 and a Unix address with its codec, order, equality and hash.

module Addresses {
  import opened Bytes
  import opened VarInt
  import opened Values
  import opened Wire
  import opened Packers
  import opened Unpackers

  // ---- the generated orders ----

  /** The first n members are equal: a generated operator== for n members. */
  predicate MembersEqual(l: seq<Value>, r: seq<Value>, n: nat)
    requires n <= |l| && n <= |r|
  {
    n == 0 || (MembersEqual(l, r, n - 1) && l[n - 1] == r[n - 1])
  }

  /** A generated operator< for n members: one more alternative for each member, that all before it
      are equal and it is smaller. */
  predicate MembersLess(l: seq<Value>, r: seq<Value>, n: nat)
    requires n <= |l| && n <= |r|
  {
    n > 0 && (MembersLess(l, r, n - 1) || (MembersEqual(l, r, n - 1) && Compare(l[n - 1], r[n - 1]) < 0))
  }

  lemma {:induction false} MembersEqualMeans(l: seq<Value>, r: seq<Value>, n: nat)
    requires n <= |l| && n <= |r|
    ensures MembersEqual(l, r, n) <==> l[..n] == r[..n]
  {
    if n > 0 {
      MembersEqualMeans(l, r, n - 1);
      assert l[..n] == l[..n - 1] + [l[n - 1]] && r[..n] == r[..n - 1] + [r[n - 1]];
    }
  }

  /** How the lexicographic comparison goes on when one more member is added. */
  lemma {:induction false} ComparePush(l: seq<Value>, r: seq<Value>, x: Value, y: Value)
    requires |l| == |r|
    ensures CompareAll(l + [x], r + [y]) == if CompareAll(l, r) != 0 then CompareAll(l, r) else Compare(x, y)
  {
    if l != [] {
      ComparePush(l[1..], r[1..], x, y);
      assert (l + [x])[1..] == l[1..] + [x] && (r + [y])[1..] == r[1..] + [y];
    } else {
      assert CompareAll([x][1..], [y][1..]) == 0;
    }
  }

  /** The unrolled order is the recursive lexicographic one, for any number of members. */
  lemma {:induction false} UnrolledIsLexicographic(l: seq<Value>, r: seq<Value>, n: nat)
    requires n <= |l| && n <= |r|
    ensures MembersLess(l, r, n) <==> CompareAll(l[..n], r[..n]) < 0
    ensures MembersEqual(l, r, n) <==> CompareAll(l[..n], r[..n]) == 0
  {
    MembersEqualMeans(l, r, n);
    CompareAllLaws(l[..n], r[..n]);
    if n > 0 {
      UnrolledIsLexicographic(l, r, n - 1);
      ComparePush(l[..n - 1], r[..n - 1], l[n - 1], r[n - 1]);
      assert l[..n] == l[..n - 1] + [l[n - 1]] && r[..n] == r[..n - 1] + [r[n - 1]];
    }
  }

  // ---- general socket addresses ----

  datatype General =
    | Ip4(ip: uint32, port4: uint16)                        // both in host order
    | Ip6(ip6: seq<uint8>, scope: uint32, port6: uint16)    // the port in network order
    | Unix(path: seq<uint8>)

  predicate GeneralOk(a: General) {
    a.Ip6? ==> |a.ip6| == 16
  }

  /** IpVersion. */
  function Version(a: General): nat {
    match a
    case Ip4(_, _) => 0
    case Ip6(_, _, _) => 1
    case Unix(_) => 2
  }

  /** One of the two uint64_t an in6_addr is compared as. */
  function Half(ip6: seq<uint8>, k: nat): nat
    requires |ip6| == 16 && k < 2
  {
    FromLE(ip6[8 * k..8 * k + 8])
  }

  function In6Less(a: seq<uint8>, b: seq<uint8>): bool
    requires |a| == 16 && |b| == 16
  {
    Half(a, 0) < Half(b, 0) || (Half(a, 0) == Half(b, 0) && Half(a, 1) < Half(b, 1))
  }

  function In6Equal(a: seq<uint8>, b: seq<uint8>): bool
    requires |a| == 16 && |b| == 16
  {
    Half(a, 0) == Half(b, 0) && Half(a, 1) == Half(b, 1)
  }

  /** operator==: the same kind of address with equal members. */
  predicate Equal(a: General, b: General)
    requires GeneralOk(a) && GeneralOk(b)
  {
    match a
    case Ip4(ip, port) => b.Ip4? && ip == b.ip && port == b.port4
    case Ip6(ip6, scope, port) => b.Ip6? && In6Equal(ip6, b.ip6) && port == b.port6 && scope == b.scope
    case Unix(path) => b.Unix? && path == b.path
  }

  predicate LessThan(a: General, b: General)
    requires GeneralOk(a) && GeneralOk(b)
  {
    if Version(a) < Version(b) then true
    else if Version(a) > Version(b) then false
    else
      match a
      case Ip4(ip, port) => ip < b.ip || (ip == b.ip && port < b.port4)
      case Ip6(ip6, scope, port) =>
        || In6Less(ip6, b.ip6)
        || (In6Equal(ip6, b.ip6) && port < b.port6)
        || (In6Equal(ip6, b.ip6) && port == b.port6 && scope < b.scope)
      case Unix(path) => CompareBytes(path, b.path) < 0
  }

  lemma HalvesDecide(a: seq<uint8>, b: seq<uint8>)
    requires |a| == 16 && |b| == 16
    ensures In6Equal(a, b) <==> a == b
  {
    hide FromLE, ToLE;
    ToFromLE(a[0..8]);
    ToFromLE(a[8..16]);
    ToFromLE(b[0..8]);
    ToFromLE(b[8..16]);
    assert a == a[0..8] + a[8..16] && b == b[0..8] + b[8..16];
  }

  /** operator== is equality of addresses. */
  lemma EqualIsSame(a: General, b: General)
    requires GeneralOk(a) && GeneralOk(b)
    ensures Equal(a, b) <==> a == b
  {
    if a.Ip6? && b.Ip6? { HalvesDecide(a.ip6, b.ip6); }
  }

  /** The order is total and strict, and what it cannot tell apart is equal. */
  lemma OrderIsTotal(a: General, b: General)
    requires GeneralOk(a) && GeneralOk(b)
    ensures !(LessThan(a, b) && LessThan(b, a))
    ensures !LessThan(a, b) && !LessThan(b, a) <==> Equal(a, b)
  {
    if a.Unix? && b.Unix? { CompareBytesLaws(a.path, b.path); }
  }

  lemma OrderIsTransitive(a: General, b: General, c: General)
    requires GeneralOk(a) && GeneralOk(b) && GeneralOk(c) && LessThan(a, b) && LessThan(b, c)
    ensures LessThan(a, c)
  {
    if a.Unix? && c.Unix? { CompareBytesTrans(a.path, b.path, c.path); }
  }

  // ---- which address is smaller ----

  /** The members in the order they are compared, behind the kind of the address. */
  function Members(a: General): seq<Value>
    requires GeneralOk(a)
  {
    match a
    case Ip4(ip, port) => [VInt(0), VInt(ip), VInt(port)]
    case Ip6(ip6, scope, port) =>
      [VInt(1), VInt(FromLE(ip6[0..8])), VInt(FromLE(ip6[8..16])), VInt(port), VInt(scope)]
    case Unix(path) => [VInt(2), VBytes(path)]
  }

  lemma CompareCons(x: Value, a: seq<Value>, y: Value, b: seq<Value>)
    ensures CompareAll([x] + a, [y] + b) == if Compare(x, y) != 0 then Compare(x, y) else CompareAll(a, b)
  {
    assert ([x] + a)[1..] == a && ([y] + b)[1..] == b;
  }

  lemma CompareLists(x: int, a: seq<Value>, y: int, b: seq<Value>)
    ensures CompareAll([VInt(x)] + a, [VInt(y)] + b) < 0 <==> x < y || (x == y && CompareAll(a, b) < 0)
  {
    CompareCons(VInt(x), a, VInt(y), b);
    CompareMeans(VInt(x), VInt(y));
    CompareLaws(VInt(x), VInt(y));
  }

  /** The order is the lexicographic one: first the kind, then the members one after the other. */
  lemma LessIsLexicographic(a: General, b: General)
    requires GeneralOk(a) && GeneralOk(b)
    ensures LessThan(a, b) <==> CompareAll(Members(a), Members(b)) < 0
  {
    hide Compare, CompareAll, FromLE;
    NothingIsEqual();
    var x, y := Members(a), Members(b);
    assert x == [x[0]] + x[1..] && y == [y[0]] + y[1..];
    CompareLists(x[0].n, x[1..], y[0].n, y[1..]);
    match (a, b)
    case (Ip4(ip, port), Ip4(ip', port')) =>
      assert x[1..] == [x[1]] + [x[2]] && y[1..] == [y[1]] + [y[2]];
      CompareLists(ip, [x[2]], ip', [y[2]]);
      assert [x[2]] == [x[2]] + [] && [y[2]] == [y[2]] + [];
      CompareLists(port, [], port', []);
    case (Ip6(_, _, _), Ip6(_, _, _)) =>
      assert x[1..] == [x[1]] + x[2..] && y[1..] == [y[1]] + y[2..];
      CompareLists(x[1].n, x[2..], y[1].n, y[2..]);
      assert x[2..] == [x[2]] + x[3..] && y[2..] == [y[2]] + y[3..];
      CompareLists(x[2].n, x[3..], y[2].n, y[3..]);
      assert x[3..] == [x[3]] + [x[4]] && y[3..] == [y[3]] + [y[4]];
      CompareLists(x[3].n, [x[4]], y[3].n, [y[4]]);
      assert [x[4]] == [x[4]] + [] && [y[4]] == [y[4]] + [];
      CompareLists(x[4].n, [], y[4].n, []);
    case (Unix(path), Unix(path')) =>
      assert x[1..] == [x[1]] + [] && y[1..] == [y[1]] + [];
      CompareCons(x[1], [], y[1], []);
      PathsCompare(path, path');
    case _ =>
  }

  lemma NothingIsEqual()
    ensures CompareAll([], []) == 0
  {
  }

  lemma PathsCompare(p: seq<uint8>, q: seq<uint8>)
    ensures Compare(VBytes(p), VBytes(q)) == CompareBytes(p, q)
  {
  }

  /** In words of the addresses themselves: IPv4 before IPv6 before Unix; IPv4 by ip and then by port,
      as one 48-bit number; IPv6 by its two halves, then by port, then by scope; paths by their first
      different byte. */
  lemma OrderMeans(a: General, b: General)
    requires GeneralOk(a) && GeneralOk(b)
    ensures a.Ip4? && !b.Ip4? ==> LessThan(a, b) && !LessThan(b, a)
    ensures a.Ip6? && b.Unix? ==> LessThan(a, b) && !LessThan(b, a)
    ensures a.Ip4? && b.Ip4? ==> (LessThan(a, b) <==> a.ip * 0x1_0000 + a.port4 < b.ip * 0x1_0000 + b.port4)
    ensures a.Ip6? && b.Ip6? ==>
            (LessThan(a, b) <==>
             var x, y := FromLE(a.ip6[0..8]), FromLE(b.ip6[0..8]);
             var z, w := FromLE(a.ip6[8..16]), FromLE(b.ip6[8..16]);
             || x < y
             || (x == y && (z < w
             || (z == w && (a.port6 < b.port6
             || (a.port6 == b.port6 && a.scope < b.scope))))))
    ensures a.Unix? && b.Unix? ==> (LessThan(a, b) <==> SmallerBytes(a.path, b.path))
  {
    hide FromLE, CompareBytes;
    if a.Unix? && b.Unix? { CompareBytesMeans(a.path, b.path); }
  }

  // ---- hashing ----

  /** What GetHash gives to the hash function of its kind: a number, the first 22 bytes of a
      SocketAddress6, or the path. */
  datatype Hashed = Number(n: nat) | Layout(bytes: seq<uint8>) | Text(s: seq<uint8>)

  function HashedOf(a: General): Hashed
    requires GeneralOk(a)
  {
    match a
    case Ip4(ip, port) => Number(ip * 0x1_0000 + port)
    case Ip6(ip6, scope, port) => Layout((ip6 + ToLE(scope, 4) + ToLE(port, 2) + [0, 0])[..22])
    case Unix(path) => Text(path)
  }

  /** Equal addresses hash the same bytes, and only they do: nothing that distinguishes two addresses
      is left out of what is hashed. */
  lemma HashedIsExact(a: General, b: General)
    requires GeneralOk(a) && GeneralOk(b)
    ensures HashedOf(a) == HashedOf(b) <==> Equal(a, b)
  {
    EqualIsSame(a, b);
    if a.Ip6? && b.Ip6? && HashedOf(a) == HashedOf(b) {
      Parts(a.ip6, ToLE(a.scope, 4), ToLE(a.port6, 2));
      Parts(b.ip6, ToLE(b.scope, 4), ToLE(b.port6, 2));
      Pow256Values();
      FromToLE(a.scope, 4);
      FromToLE(b.scope, 4);
      FromToLE(a.port6, 2);
      FromToLE(b.port6, 2);
    }
  }

  /** What the hash function is given, spelt out: for IPv4 the ip above the sixteen bits of the port; for
      IPv6 the address, the scope and the port as they lie in memory. */
  lemma HashedMeans(a: General)
    requires GeneralOk(a)
    ensures a.Ip4? ==> HashedOf(a).Number? && HashedOf(a).n / 0x1_0000 == a.ip && HashedOf(a).n % 0x1_0000 == a.port4
    ensures a.Ip6? ==>
            && HashedOf(a).Layout? && |HashedOf(a).bytes| == 22 && HashedOf(a).bytes[..16] == a.ip6
            && FromLE(HashedOf(a).bytes[16..20]) == a.scope && FromLE(HashedOf(a).bytes[20..]) == a.port6
    ensures a.Unix? ==> HashedOf(a) == Text(a.path)
  {
    if a.Ip6? {
      Parts(a.ip6, ToLE(a.scope, 4), ToLE(a.port6, 2));
      Pow256Values();
      FromToLE(a.scope, 4);
      FromToLE(a.port6, 2);
    }
  }

  lemma Parts(x: seq<uint8>, y: seq<uint8>, z: seq<uint8>)
    requires |x| == 16 && |y| == 4 && |z| == 2
    ensures var s := (x + y + z + [0, 0])[..22]; s[..16] == x && s[16..20] == y && s[20..] == z
  {
  }

  // ---- the codec ----

  function Reversed(s: seq<uint8>): (r: seq<uint8>)
    ensures |r| == |s|
  {
    if s == [] then [] else Reversed(s[1..]) + [s[0]]
  }

  lemma {:induction false} ReversedPush(s: seq<uint8>, x: uint8)
    ensures Reversed(s + [x]) == [x] + Reversed(s)
  {
    if s != [] {
      ReversedPush(s[1..], x);
      assert (s + [x])[1..] == s[1..] + [x];
    }
  }

  lemma {:induction false} ReversedAt(s: seq<uint8>, k: nat)
    requires k < |s|
    ensures Reversed(s)[k] == s[|s| - 1 - k]
  {
    if k < |s| - 1 {
      ReversedAt(s[1..], k);
    }
  }

  lemma {:induction false} ReversedTwice(s: seq<uint8>)
    ensures Reversed(Reversed(s)) == s
  {
    if s != [] {
      ReversedTwice(s[1..]);
      ReversedPush(Reversed(s[1..]), s[0]);
    }
  }

  /** htonl, htons and their inverses: the w bytes of n in the other order. */
  function Swap(n: nat, w: nat): nat {
    FromLE(Reversed(ToLE(n, w)))
  }

  lemma SwapTwice(n: nat, w: nat)
    requires n < Pow256(w)
    ensures Swap(n, w) < Pow256(w) && Swap(Swap(n, w), w) == n
    ensures ToLE(Swap(n, w), w) == Reversed(ToLE(n, w))
  {
    var s := ToLE(n, w);
    FromLEBound(Reversed(s));
    ToFromLE(Reversed(s));
    ReversedTwice(s);
    FromToLE(n, w);
  }

  function PayloadType(version: nat): Type {
    if version == 0 then TRec([UINT32, UINT16])
    else if version == 1 then TRec([WORDS, UINT32, UINT16])
    else TRec([TBytes])
  }

  function Word32(ip6: seq<uint8>, k: nat): nat
    requires |ip6| == 16 && k < 4
  {
    FromLE(ip6[4 * k..4 * k + 4])
  }

  function Payload(a: General): Value
    requires GeneralOk(a)
  {
    match a
    case Ip4(ip, port) => VSeq([VInt(Swap(ip, 4)), VInt(Swap(port, 2))])
    case Ip6(ip6, scope, port) =>
      VSeq([Words(ip6), VInt(scope), VInt(port)])
    case Unix(path) => VSeq([VBytes(path)])
  }

  function Words(ip6: seq<uint8>): Value
    requires |ip6| == 16
  {
    VSeq([VInt(Word32(ip6, 0)), VInt(Word32(ip6, 1)), VInt(Word32(ip6, 2)), VInt(Word32(ip6, 3))])
  }

  const WORDS := TRec([UINT32, UINT32, UINT32, UINT32])

  /** The four words of an in6_addr are its sixteen bytes, as they lie in memory. */
  lemma WordsEncode(ip6: seq<uint8>)
    requires |ip6| == 16
    ensures Encode(Words(ip6), WORDS) == ip6
    ensures HasType(Words(ip6), WORDS) && Countable(Words(ip6), WORDS)
  {
    hide Encode, EncodeFields, HasType, FieldsTyped, Countable, FieldsCountable, Word32;
    WordEncodes(ip6, 0);
    WordEncodes(ip6, 1);
    WordEncodes(ip6, 2);
    WordEncodes(ip6, 3);
    Record4(VInt(Word32(ip6, 0)), VInt(Word32(ip6, 1)), VInt(Word32(ip6, 2)), VInt(Word32(ip6, 3)));
    Quarters(ip6);
  }

  lemma Record4(x: Value, y: Value, z: Value, w: Value)
    requires HasType(x, UINT32) && HasType(y, UINT32) && HasType(z, UINT32) && HasType(w, UINT32)
    requires Countable(x, UINT32) && Countable(y, UINT32) && Countable(z, UINT32) && Countable(w, UINT32)
    ensures Encode(VSeq([x, y, z, w]), WORDS) ==
            Encode(x, UINT32) + Encode(y, UINT32) + Encode(z, UINT32) + Encode(w, UINT32)
    ensures HasType(VSeq([x, y, z, w]), WORDS) && Countable(VSeq([x, y, z, w]), WORDS)
  {
    hide EncodeFields, FieldsTyped, FieldsCountable;
    Fields4(x, y, z, w, UINT32);
  }

  lemma Quarters(s: seq<uint8>)
    requires |s| == 16
    ensures s[0..4] + s[4..8] + s[8..12] + s[12..16] == s
  {
  }

  lemma WordEncodes(ip6: seq<uint8>, k: nat)
    requires |ip6| == 16 && k < 4
    ensures Encode(VInt(Word32(ip6, k)), UINT32) == ip6[4 * k..4 * k + 4]
    ensures HasType(VInt(Word32(ip6, k)), UINT32) && Countable(VInt(Word32(ip6, k)), UINT32)
  {
    ToFromLE(ip6[4 * k..4 * k + 4]);
    FromLEBound(ip6[4 * k..4 * k + 4]);
  }

  /** The bytes of a payload on the wire: an IPv4 address and port most significant byte first; the
      bytes of an IPv6 address as they are, the scope, and the port as it is stored; a path behind
      its length. */
  function PayloadBytes(a: General): seq<uint8>
    requires GeneralOk(a)
  {
    match a
    case Ip4(ip, port) => Reversed(ToLE(ip, 4)) + Reversed(ToLE(port, 2))
    case Ip6(ip6, scope, port) => ip6 + ToLE(scope, 4) + ToLE(port, 2)
    case Unix(path) => EncodeVar(|path|) + path
  }

  predicate Sized(a: General) {
    a.Unix? ==> |a.path| < VAR_LIMIT
  }

  lemma PayloadEncodes(a: General)
    requires GeneralOk(a) && Sized(a)
    ensures HasType(Payload(a), PayloadType(Version(a))) && Countable(Payload(a), PayloadType(Version(a)))
    ensures Encode(Payload(a), PayloadType(Version(a))) == PayloadBytes(a)
  {
    Pow256Values();
    match a
    case Ip4(ip, port) =>
      SwapTwice(ip, 4);
      SwapTwice(port, 2);
      Fields2(VInt(Swap(ip, 4)), VInt(Swap(port, 2)), UINT32, UINT16);
    case Ip6(ip6, scope, port) =>
      WordsEncode(ip6);
      Fields3(Words(ip6), VInt(scope), VInt(port), WORDS, UINT32, UINT16);
    case Unix(path) =>
      Fields1(VBytes(path), TBytes);
  }

  lemma PayloadTypeOk(version: nat)
    ensures TypeOk(PayloadType(version))
  {
    var n := VInt(0);
    Fields4(n, n, n, n, UINT32);
    Fields3(n, n, n, WORDS, UINT32, UINT16);
    Fields2(n, n, UINT32, UINT16);
    Fields1(n, TBytes);
  }

  /** What a typed payload looks like. */
  lemma PayloadShape(version: nat, v: Value)
    requires HasType(v, PayloadType(version))
    ensures v.VSeq?
    ensures version == 0 ==> |v.elems| == 2 && HasType(v.elems[0], UINT32) && HasType(v.elems[1], UINT16)
    ensures version == 1 ==>
      && |v.elems| == 3 && HasType(v.elems[0], WORDS)
      && HasType(v.elems[1], UINT32) && HasType(v.elems[2], UINT16)
    ensures version > 1 ==> |v.elems| == 1 && v.elems[0].VBytes?
  {
    if version == 0 {
      assert v.elems == [v.elems[0], v.elems[1]];
      Fields2(v.elems[0], v.elems[1], UINT32, UINT16);
    } else if version == 1 {
      assert v.elems == [v.elems[0], v.elems[1], v.elems[2]];
      Fields3(v.elems[0], v.elems[1], v.elems[2], WORDS, UINT32, UINT16);
    } else {
      assert v.elems == [v.elems[0]];
      Fields1(v.elems[0], TBytes);
    }
  }

  /** The member of the union that is built from a payload read back. */
  function FromPayload(version: nat, v: Value): (a: General)
    requires HasType(v, PayloadType(version))
    ensures GeneralOk(a) && Version(a) == if version > 1 then 2 else version
  {
    PayloadShape(version, v);
    Pow256Values();
    if version == 0 then
      SwapTwice(v.elems[0].n, 4);
      SwapTwice(v.elems[1].n, 2);
      Ip4(Swap(v.elems[0].n, 4), Swap(v.elems[1].n, 2))
    else if version == 1 then
      WordsShape(v.elems[0]);
      Ip6(Encode(v.elems[0], WORDS), v.elems[1].n, v.elems[2].n)
    else Unix(v.elems[0].bytes)
  }

  lemma WordsShape(v: Value)
    requires HasType(v, WORDS)
    ensures |Encode(v, WORDS)| == 16
  {
    var es := v.elems;
    assert es == [es[0], es[1], es[2], es[3]];
    Fields4(es[0], es[1], es[2], es[3], UINT32);
  }

  lemma FromPayloadOf(a: General)
    requires GeneralOk(a) && Sized(a)
    ensures HasType(Payload(a), PayloadType(Version(a))) && FromPayload(Version(a), Payload(a)) == a
  {
    PayloadEncodes(a);
    Pow256Values();
    match a
    case Ip4(ip, port) =>
      SwapTwice(ip, 4);
      SwapTwice(port, 2);
    case Ip6(ip6, scope, port) => WordsEncode(ip6);
    case Unix(path) =>
  }

  function EncodeGeneral(a: General): seq<uint8>
    requires GeneralOk(a)
  {
    ToLE(Version(a), 2) + PayloadBytes(a)
  }

  /** The bytes on the wire, one by one: two for the tag, then for IPv4 the ip and the port with the most
      significant byte first; for IPv6 the sixteen bytes, the scope and the stored port with the least
      significant byte first; for Unix the path behind its length. */
  lemma GeneralBytes(a: General)
    requires GeneralOk(a)
    ensures var s := EncodeGeneral(a);
            && |s| >= 2 && s[0] == (if a.Ip4? then 0 else if a.Ip6? then 1 else 2) && s[1] == 0
    ensures a.Ip4? ==>
            var s := EncodeGeneral(a);
            && |s| == 8 && s[2] == a.ip / 0x100_0000 % 256 && s[3] == a.ip / 0x1_0000 % 256
            && s[4] == a.ip / 0x100 % 256 && s[5] == a.ip % 256 && s[6] == a.port4 / 256 && s[7] == a.port4 % 256
    ensures a.Ip6? ==>
            var s := EncodeGeneral(a);
            && |s| == 24 && s[2..18] == a.ip6
            && s[18] == a.scope % 256 && s[19] == a.scope / 0x100 % 256
            && s[20] == a.scope / 0x1_0000 % 256 && s[21] == a.scope / 0x100_0000 % 256
            && s[22] == a.port6 % 256 && s[23] == a.port6 / 256
    ensures a.Unix? ==> EncodeGeneral(a)[2..] == EncodeVar(|a.path|) + a.path
  {
    hide ToLE, EncodeVar, Pow256, Reversed;
    TagBytes(Version(a));
    var s := EncodeGeneral(a);
    match a
    case Ip4(ip, port) =>
      FourBytes(ip);
      TwoBytes(port);
      ReversedFour(ToLE(ip, 4));
      ReversedTwo(ToLE(port, 2));
    case Ip6(ip6, scope, port) =>
      FourBytes(scope);
      TwoBytes(port);
    case Unix(_) =>
  }

  lemma TagBytes(version: nat)
    requires version <= 2
    ensures ToLE(version, 2) == [version, 0]
  {
    ToLE2(version);
  }

  lemma TwoBytes(n: uint16)
    ensures ToLE(n, 2) == [n % 256, n / 256]
  {
    ToLE2(n);
  }

  lemma FourBytes(n: nat)
    ensures ToLE(n, 4) == [n % 256, n / 0x100 % 256, n / 0x1_0000 % 256, n / 0x100_0000 % 256]
  {
    hide ToLE;
    ToLEByte(n, 4, 0);
    ToLEByte(n, 4, 1);
    ToLEByte(n, 4, 2);
    ToLEByte(n, 4, 3);
    Pow256Step(0);
    Pow256Step(1);
    Pow256Step(2);
  }

  lemma ReversedFour(s: seq<uint8>)
    requires |s| == 4
    ensures Reversed(s) == [s[3], s[2], s[1], s[0]]
  {
    hide Reversed;
    ReversedAt(s, 0);
    ReversedAt(s, 1);
    ReversedAt(s, 2);
    ReversedAt(s, 3);
  }

  lemma ReversedTwo(s: seq<uint8>)
    requires |s| == 2
    ensures Reversed(s) == [s[1], s[0]]
  {
    hide Reversed;
    ReversedAt(s, 0);
    ReversedAt(s, 1);
  }

  /** None where a read would leave the buffer and for a tag that names no member. */
  function DecodeGeneral(s: seq<uint8>, pos: nat): (r: Option<(General, nat)>)
    requires pos <= |s|
    ensures r.Some? ==> GeneralOk(r.value.0) && Sized(r.value.0) && pos < r.value.1 <= |s|
  {
    var tag := Decode(s, pos, UINT16);
    if tag.None? then None
    else
      var (v, next) := tag.value;
      if v.n < 0 || v.n > 2 then None
      else
        var body := Decode(s, next, PayloadType(v.n));
        if body.None? then None
        else
          PayloadTypeOk(v.n);
          DecodeSound(s, next, PayloadType(v.n));
          PayloadSized(v.n, body.value.0);
          Some((FromPayload(v.n, body.value.0), body.value.1))
  }

  lemma PayloadSized(version: nat, v: Value)
    requires HasType(v, PayloadType(version)) && Countable(v, PayloadType(version))
    ensures Sized(FromPayload(version, v))
  {
    PayloadShape(version, v);
    if version > 1 {
      assert v.elems == [v.elems[0]];
      Fields1(v.elems[0], TBytes);
    }
  }

  /** Any address that was written is read back, whatever surrounds it. */
  lemma GeneralRoundTrip(s: seq<uint8>, p: nat, q: nat, a: General)
    requires GeneralOk(a) && Sized(a) && Spans(s, p, q, EncodeGeneral(a))
    ensures DecodeGeneral(s, p) == Some((a, q))
  {
    var m := p + 2;
    var t := PayloadType(Version(a));
    SpansConcat(s, p, m, q, ToLE(Version(a), 2), PayloadBytes(a));
    Pow256Values();
    IntDecodes(s, p, m, Version(a), 2, false);
    PayloadEncodes(a);
    PayloadTypeOk(Version(a));
    RoundTrip(s, m, q, Payload(a), t);
    FromPayloadOf(a);
  }

  // ---- the object ----

  /** The union: which member is constructed, if any. */
  class GeneralSocketAddress {
    var version: nat
    var member: Option<General>

    /** The tag names the member that is alive. */
    ghost predicate Valid()
      reads this
    {
      member.Some? && GeneralOk(member.value) && version == Version(member.value)
    }

    constructor ()
      ensures Valid() && member == Some(Ip4(0, 0))
    {
      version, member := 0, Some(Ip4(0, 0));
    }

    constructor From(a: General)
      requires GeneralOk(a)
      ensures Valid() && member == Some(a)
    {
      version, member := Version(a), Some(a);
    }

    constructor Copy(a: GeneralSocketAddress)
      requires a.Valid()
      ensures Valid() && member == a.member
    {
      version := a.version;
      member := Some(a.member.value);
    }

    /** The destructor of one kind of member; that kind must be the one that is alive. */
    method Destruct(kind: nat)
      requires member.Some? && Version(member.value) == kind
      modifies this`member
      ensures member == None
    {
      member := None;
    }

    /** Runs the destructor the tag selects. */
    method Destroy()
      requires Valid()
      modifies this`member
      ensures member == None
    {
      if version == 0 {
        Destruct(0);
      } else if version == 1 {
        Destruct(1);
      } else if version == 2 {
        Destruct(2);
      }
    }

    /** Builds a member in the storage, where none may be alive. */
    method Construct(a: General)
      requires member == None && GeneralOk(a) && version == Version(a)
      modifies this`member
      ensures member == Some(a)
    {
      member := Some(a);
    }

    /** Copy assignment, also from the object itself. */
    method Assign(rhs: GeneralSocketAddress)
      requires Valid() && rhs.Valid()
      modifies this
      ensures Valid() && rhs.Valid() && member == old(rhs.member) && rhs.member == old(rhs.member)
    {
      if this == rhs {
        return;
      }
      Destroy();
      version := rhs.version;
      Construct(rhs.member.value);
    }

    method SerializeTo(p: Packer)
      requires Valid() && p.Building() && Sized(member.value)
      requires p.position + |EncodeGeneral(member.value)| + 3 < 0x8000_0000
      modifies p, p.mem
      ensures p.Building() && p.Written() == old(p.Written()) + EncodeGeneral(member.value)
    {
      hide HasType, Encode, TypeOk, Payload, PayloadType, PayloadBytes;
      PayloadEncodes(member.value);
      PayloadTypeOk(version);
      p.PushFixed(version, 2);
      p.PushValue(Payload(member.value), PayloadType(version));
    }

    /** Reads a member into a temporary, then replaces the one that is alive. A tag that names no
        member leaves the object as it was. */
    method SerializeFrom(p: Unpacker)
      requires Valid() && p.position + 2 <= |p.buffer|
      requires var ver := FromLE(p.buffer[p.position..p.position + 2]);
               ver <= 2 ==> Decode(p.buffer, p.position + 2, PayloadType(ver)).Some?
      modifies this, p
      ensures Valid()
      ensures var ver := FromLE(p.buffer[old(p.position)..old(p.position) + 2]);
              if ver <= 2 then DecodeGeneral(p.buffer, old(p.position)) == Some((member.value, p.position))
              else member == old(member) && p.position == old(p.position) + 2
    {
      var ver := p.PopFixed(2, false);
      if ver <= 2 {
        ghost var at := p.position;
        PayloadTypeOk(ver);
        DecodeSound(p.buffer, at, PayloadType(ver));
        var temp := p.PopValue(PayloadType(ver));
        Destroy();
        version := ver;
        Construct(FromPayload(ver, temp));
      }
    }
  }
}

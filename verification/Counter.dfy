// The compile-time counter: increments register overloads, a read walks through them.

module Counter {
  import opened Bytes

  // ---- bitwise operators on unsigned numbers ----

  function And(a: nat, b: nat): nat {
    if a == 0 || b == 0 then 0 else a % 2 * (b % 2) + 2 * And(a / 2, b / 2)
  }

  /** a & ~b. */
  function AndNot(a: nat, b: nat): nat {
    if a == 0 then 0 else a % 2 * (1 - b % 2) + 2 * AndNot(a / 2, b / 2)
  }

  function Pow2(k: nat): (p: nat)
    ensures p > 0
  {
    if k == 0 then 1 else 2 * Pow2(k - 1)
  }

  /** The largest power of two that divides m. */
  function LowBit(m: nat): (b: nat)
    requires m > 0
    ensures 0 < b <= m
  {
    if m % 2 == 1 then 1 else 2 * LowBit(m / 2)
  }

  lemma {:induction false} AndSelf(a: nat)
    ensures And(a, a) == a && AndNot(a, a) == 0
  {
    if a != 0 {
      AndSelf(a / 2);
    }
  }

  /** The two key expressions of COUNTER_INC, (n + 1) & ~n and (n + 1) & n, split n + 1 into its
      lowest set bit and the rest. */
  lemma {:induction false} KeySplits(n: nat)
    ensures AndNot(n + 1, n) == LowBit(n + 1)
    ensures And(n + 1, n) == n + 1 - LowBit(n + 1)
  {
    if n % 2 == 0 {
      assert (n + 1) / 2 == n / 2 && (n + 1) % 2 == 1;
      AndSelf(n / 2);
      if n == 0 {
        assert And(1, 0) == 0;
      } else {
        assert And(n + 1, n) == (n + 1) % 2 * (n % 2) + 2 * And((n + 1) / 2, n / 2);
      }
    } else {
      var h := n / 2;
      assert n == 2 * h + 1 && (n + 1) / 2 == h + 1 && (n + 1) % 2 == 0;
      KeySplits(h);
    }
  }

  // ---- the registered overloads ----

  /** CounterCrumb overloads for one tag: (rank, accumulator) -> result. The generic template
      answers every other call with the accumulator itself. */
  type Overloads = map<(nat, nat), nat>

  function Crumb(o: Overloads, rank: nat, acc: nat): nat {
    if (rank, acc) in o then o[(rank, acc)] else acc
  }

  /** The nest of crumb calls from rank 2^(k-1) down to rank 1, innermost first. */
  function ReadFrom(o: Overloads, k: nat, acc: nat): nat
    decreases k
  {
    if k == 0 then acc else ReadFrom(o, k - 1, Crumb(o, Pow2(k - 1), acc))
  }

  /** COUNTER_READ with the ranks below 2^k; the source has k = 8. */
  function Read(o: Overloads, k: nat): nat {
    ReadFrom(o, k, 0)
  }

  const RANKS: nat := 8

  function KeyOf(n: nat): (nat, nat) {
    (AndNot(n + 1, n), And(n + 1, n))
  }

  /** COUNTER_INC; None when the overload it declares exists already, which does not compile. */
  function Inc(o: Overloads, k: nat): Option<Overloads> {
    var n := Read(o, k);
    if KeyOf(n) in o then None else Some(o[KeyOf(n) := n + 1])
  }

  function Increments(k: nat, n: nat): Option<Overloads>
    decreases n
  {
    if n == 0 then Some(map[])
    else
      var o := Increments(k, n - 1);
      if o.None? then None else Inc(o.value, k)
  }

  // ---- the greedy read counts ----

  /** Exactly the numbers 1 .. n are registered, each under its own key. */
  ghost predicate Registered(o: Overloads, n: nat) {
    && (forall m: nat {:trigger KeyOf(m)} :: KeyOf(m) in o <==> m < n)
    && (forall m: nat {:trigger KeyOf(m)} :: m < n ==> o[KeyOf(m)] == m + 1)
    && (forall key <- o :: exists m: nat :: m < n && key == KeyOf(m))
  }

  lemma {:induction false} LowBitOfSum(h: nat, j: nat)
    ensures LowBit(h * Pow2(j + 1) + Pow2(j)) == Pow2(j)
    decreases j
  {
    var m := h * Pow2(j + 1) + Pow2(j);
    if j == 0 {
      assert m == 2 * h + 1;
    } else {
      var half := h * Pow2(j) + Pow2(j - 1);
      assert m == 2 * half by { assert h * (2 * Pow2(j)) == 2 * (h * Pow2(j)); }
      LowBitOfSum(h, j - 1);
    }
  }

  /** The key of number n, whose successor is an odd multiple 2h + 1 of 2^j: rank 2^j, and the ranks
      above it already spelled. */
  lemma KeyMeans(n: nat, h: nat, j: nat)
    requires n + 1 == h * Pow2(j + 1) + Pow2(j)
    ensures KeyOf(n) == (Pow2(j), h * Pow2(j + 1))
  {
    LowBitOfSum(h, j);
    KeySplits(n);
  }

  /** Different numbers register different keys: a key's halves add up to its number. */
  lemma KeyIsOwn(a: nat, b: nat)
    requires KeyOf(a) == KeyOf(b)
    ensures a == b
  {
    KeySplits(a);
    KeySplits(b);
  }

  /** At rank 2^j with the multiple acc of 2^(j+1), the crumb adds the rank exactly when that does
      not pass n. */
  lemma CrumbIsGreedy(o: Overloads, n: nat, h: nat, j: nat)
    requires Registered(o, n)
    ensures var acc := h * Pow2(j + 1);
            Crumb(o, Pow2(j), acc) == if acc + Pow2(j) <= n then acc + Pow2(j) else acc
  {
    var acc := h * Pow2(j + 1);
    var m := acc + Pow2(j);
    KeyMeans(m - 1, h, j);
  }

  /** The descent from rank 2^(k-1) with a multiple acc of 2^k not above n ends at the largest
      number that agrees: n itself, or acc + 2^k - 1 when n lies beyond. */
  lemma {:induction false} DescentReaches(o: Overloads, n: nat, k: nat, h: nat)
    requires Registered(o, n) && h * Pow2(k) <= n
    ensures ReadFrom(o, k, h * Pow2(k)) == if n < h * Pow2(k) + Pow2(k) then n else h * Pow2(k) + Pow2(k) - 1
    decreases k
  {
    hide Registered, Crumb;
    if k > 0 {
      var acc := h * Pow2(k);
      var half := Pow2(k - 1);
      CrumbIsGreedy(o, n, h, k - 1);
      Halves(h, half);
      if acc + half <= n {
        DescentReaches(o, n, k - 1, 2 * h + 1);
      } else {
        DescentReaches(o, n, k - 1, 2 * h);
      }
    }
  }

  lemma Halves(h: nat, half: nat)
    ensures (2 * h) * half == h * (2 * half) && (2 * h + 1) * half == h * (2 * half) + half
  {
  }

  /** A read returns the number of increments, up to the largest number the ranks can spell. */
  lemma ReadCounts(o: Overloads, n: nat, k: nat)
    requires Registered(o, n)
    ensures Read(o, k) == if n < Pow2(k) then n else Pow2(k) - 1
  {
    DescentReaches(o, n, k, 0);
  }

  lemma IncRegisters(o: Overloads, n: nat, k: nat)
    requires Registered(o, n) && Read(o, k) == n
    ensures Inc(o, k).Some? && Registered(Inc(o, k).value, n + 1)
  {
    var o' := o[KeyOf(n) := n + 1];
    forall m: nat
      ensures KeyOf(m) in o' <==> m < n + 1
      ensures m < n + 1 ==> o'[KeyOf(m)] == m + 1
    {
      if KeyOf(m) == KeyOf(n) {
        KeyIsOwn(m, n);
      }
    }
  }

  /** The counter is exact. With k ranks the first 2^k increments compile, each declaring a new
      overload, and after n < 2^k of them a read gives n. The increment after those declares its
      overload a second time and does not compile: for the source, the 257th. */
  lemma {:induction false} CounterCounts(k: nat, n: nat)
    ensures Increments(k, n).Some? <==> n <= Pow2(k)
    ensures n <= Pow2(k) ==> Registered(Increments(k, n).value, n)
    ensures n <= Pow2(k) ==> Read(Increments(k, n).value, k) == if n < Pow2(k) then n else n - 1
    decreases n
  {
    if n == 0 {
      ReadCounts(map[], 0, k);
    } else {
      CounterCounts(k, n - 1);
      if n - 1 <= Pow2(k) {
        var o := Increments(k, n - 1).value;
        ReadCounts(o, n - 1, k);
        if n - 1 < Pow2(k) {
          IncRegisters(o, n - 1, k);
          ReadCounts(Increments(k, n).value, n, k);
        } else {
          assert KeyOf(n - 2) in o;
        }
      }
    }
  }

  lemma SourceLimits()
    ensures Increments(RANKS, 256).Some? && Read(Increments(RANKS, 256).value, RANKS) == 255
    ensures Increments(RANKS, 257).None?
  {
    assert Pow2(8) == 2 * Pow2(7) == 4 * Pow2(6) == 8 * Pow2(5) == 16 * Pow2(4) == 32 * Pow2(3) == 64 * Pow2(2);
    CounterCounts(RANKS, 256);
    CounterCounts(RANKS, 257);
  }
}

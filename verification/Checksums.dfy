/**
 The checksum of module 124 of defaults/react-with-addons.js: Adler-32, section 8.2 of RFC 1950, over the 16-bit
 code units of a string, with unrolled loops and the modulus taken once for every 4096 of them.
 */
module Checksums {
  import opened Bytes

  type codeunit = n: int | 0 <= n < 0x1_0000

  /** The integers that JavaScript numbers represent exactly, without gaps. */
  type safeint = n: int | -0x20_0000_0000_0000 < n < 0x20_0000_0000_0000

  const MOD: safeint := 65521

  datatype Sums = Sums(s1: nat, s2: nat)

  /** The two sums of Adler-32, taken modulo 65521 at every unit. */
  function Adler(s: seq<codeunit>): (r: Sums)
    ensures r.s1 < MOD && r.s2 < MOD
  {
    if s == [] then Sums(1, 0)
    else
      var before := Adler(s[..|s| - 1]);
      var s1 := (before.s1 + s[|s| - 1]) % MOD;
      Sums(s1, (before.s2 + s1) % MOD)
  }

  function Total(s: seq<codeunit>): nat {
    if s == [] then 0 else s[0] + Total(s[1..])
  }

  /** The first unit counts as often as there are units, the last one once. */
  function Weighted(s: seq<codeunit>): nat {
    if s == [] then 0 else |s| * s[0] + Weighted(s[1..])
  }

  lemma {:induction false} TotalLast(s: seq<codeunit>, x: codeunit)
    ensures Total(s + [x]) == Total(s) + x && Weighted(s + [x]) == Weighted(s) + Total(s) + x
  {
    if s == [] {
      assert s + [x] == [x] && [x][1..] == [];
    } else {
      assert (s + [x])[1..] == s[1..] + [x];
      TotalLast(s[1..], x);
      OnceMore(|s|, s[0]);
    }
  }

  lemma OnceMore(n: nat, x: codeunit)
    ensures (n + 1) * x == n * x + x
  {
  }

  lemma AddedModulo(x: int, a: int, y: int)
    requires a == x % 65521
    ensures (a + y) % 65521 == (x + y) % 65521
  {
  }

  /** The sums of section 8.2 of RFC 1950, in closed form. */
  lemma {:induction false} AdlerIs(s: seq<codeunit>)
    ensures Adler(s).s1 == (1 + Total(s)) % 65521
    ensures Adler(s).s2 == (|s| + Weighted(s)) % 65521
  {
    if s != [] {
      var front, last := s[..|s| - 1], s[|s| - 1];
      AdlerIs(front);
      assert s == front + [last];
      TotalLast(front, last);
      AddedModulo(1 + Total(front), Adler(front).s1, last);
      AddedModulo(|front| + Weighted(front), Adler(front).s2, 1 + Total(s));
      AddedModulo(1 + Total(s), Adler(s).s1, Adler(front).s2);
    }
  }

  /** `t` and `n` are the sums so far, with the modulus still to be taken. */
  predicate Sum(s: seq<codeunit>, r: nat, t: int, n: int) {
    r <= |s| && t % MOD == Adler(s[..r]).s1 && n % MOD == Adler(s[..r]).s2
  }

  lemma ModAdd(x: int, y: int, c: int)
    requires x % MOD == y % MOD
    ensures (x + c) % MOD == (y + c) % MOD
  {
  }

  lemma SumNext(s: seq<codeunit>, r: nat, t: int, n: int)
    requires Sum(s, r, t, n) && r < |s|
    ensures Sum(s, r + 1, t + s[r], n + (t + s[r]))
  {
    var before := Adler(s[..r]);
    assert s[..r + 1][..r] == s[..r];
    ModAdd(t, before.s1, s[r]);
    var t' := t + s[r];
    var s1 := (before.s1 + s[r]) % MOD;
    ModAdd(n, before.s2, t');
    ModAdd(t', s1, before.s2);
  }

  lemma SumTaken(s: seq<codeunit>, r: nat, t: int, n: int)
    requires Sum(s, r, t, n)
    ensures Sum(s, r, t % MOD, n % MOD)
  {
  }

  /** Bounds on the sums after j units without modulus. */
  predicate Bounded(j: nat, t: int, n: int) {
    0 <= t <= 65520 + 65535 * j && 0 <= n <= 65520 + 268500000 * j
  }

  /** Adds four units; every sum on the way is a safe integer. */
  method AddFour(s: seq<codeunit>, r: nat, t0: safeint, n0: safeint, ghost j: nat) returns (t: safeint, n: safeint)
    requires Sum(s, r, t0, n0) && Bounded(j, t0, n0) && j + 4 <= 4096 && r + 4 <= |s|
    ensures Sum(s, r + 4, t, n) && Bounded(j + 4, t, n)
  {
    t, n := t0, n0;
    SumNext(s, r, t, n);
    t := t + s[r];
    var sum: safeint := t;
    SumNext(s, r + 1, t, n + sum);
    t := t + s[r + 1];
    sum := sum + t;
    SumNext(s, r + 2, t, n + sum);
    t := t + s[r + 2];
    sum := sum + t;
    SumNext(s, r + 3, t, n + sum);
    t := t + s[r + 3];
    sum := sum + t;
    n := n + sum;
  }

  /** Adds the units up to k, four at a time, and takes the modulus. */
  method AddBlock(s: seq<codeunit>, from: nat, k: nat, t0: safeint, n0: safeint)
    returns (r: nat, t: safeint, n: safeint)
    requires Sum(s, from, t0, n0) && 0 <= t0 < MOD && 0 <= n0 < MOD
    requires from <= k <= from + 4096 && k <= |s| && (k - from) % 4 == 0
    ensures r == k && Sum(s, k, t, n) && 0 <= t < MOD && 0 <= n < MOD
  {
    r, t, n := from, t0, n0;
    while r < k
      invariant from <= r <= k && (k - r) % 4 == 0 && Sum(s, r, t, n) && Bounded(r - from, t, n)
    {
      t, n := AddFour(s, r, t, n, r - from);
      r := r + 4;
    }
    SumTaken(s, r, t, n);
    t, n := t % MOD, n % MOD;
  }

  /** Adds the last units, of which there are less than four, and takes the modulus. */
  method AddRest(s: seq<codeunit>, from: nat, t0: safeint, n0: safeint) returns (t: safeint, n: safeint)
    requires Sum(s, from, t0, n0) && 0 <= t0 < MOD && 0 <= n0 < MOD && from <= |s| < from + 4
    ensures t == Adler(s).s1 && n == Adler(s).s2
  {
    var r := from;
    t, n := t0, n0;
    while r < |s|
      invariant from <= r <= |s| && Sum(s, r, t, n) && Bounded(r - from, t, n)
    {
      SumNext(s, r, t, n);
      t := t + s[r];
      n := n + t;
      r := r + 1;
    }
    assert s[..r] == s;
    t, n := t % MOD, n % MOD;
  }

  /** The checksum, as a signed 32-bit integer.  Every number computed on the way is a safe integer. */
  method Checksum(s: seq<codeunit>) returns (checksum: int)
    requires |s| < 0x8000_0000
    ensures checksum == ToInt32(Adler(s).s2 * 0x1_0000 + Adler(s).s1)
  {
    var t: safeint, n: safeint := 1, 0;
    var r, l := 0, |s|;
    var m := l - l % 4;
    assert s[..0] == [];
    while r < m
      invariant 0 <= r <= m && r % 4 == 0 && 0 <= t < MOD && 0 <= n < MOD && Sum(s, r, t, n)
    {
      r, t, n := AddBlock(s, r, if r + 4096 < m then r + 4096 else m, t, n);
    }
    t, n := AddRest(s, r, t, n);
    checksum := Or(t, ToInt32(n * 0x1_0000));
    OrIsSum(t, n);
  }

  // ---------- joining the sums ----------

  /** The bits of a word. */
  const WORD: nat := 32

  /** Inclusive or of the lowest `width` bits. */
  function OrBits(a: nat, b: nat, width: nat): nat {
    if width == 0 then 0
    else (if a % 2 == 1 || b % 2 == 1 then 1 else 0) + 2 * OrBits(a / 2, b / 2, width - 1)
  }

  /** `a | b`. */
  function Or(a: int, b: int): int {
    ToInt32(OrBits(a % 0x1_0000_0000, b % 0x1_0000_0000, WORD))
  }

  lemma {:induction false} OrZero(n: nat, width: nat)
    requires n < Pow2(width)
    ensures OrBits(0, n, width) == n
  {
    if width > 0 {
      OrZero(n / 2, width - 1);
    }
  }

  /** Numbers without common bits are joined by adding them. */
  lemma {:induction false} OrDisjoint(t: nat, n: nat, low: nat, high: nat)
    requires t < Pow2(low) && n < Pow2(high)
    ensures OrBits(t, n * Pow2(low), low + high) == t + n * Pow2(low)
  {
    if low == 0 {
      OrZero(n, high);
    } else {
      var b := n * Pow2(low - 1);
      assert n * Pow2(low) == 2 * b;
      OrDisjoint(t / 2, n, low - 1, high);
    }
  }

  lemma Power2Of16()
    ensures Pow2(16) == 0x1_0000
  {
    assert Pow2(4) == 16 && Pow2(8) == 256 && Pow2(12) == 4096;
  }

  lemma ShiftedWord(n: nat)
    requires n < 0x1_0000
    ensures ToInt32(n * 0x1_0000) % 0x1_0000_0000 == n * 0x1_0000
  {
  }

  /** The words that are joined have no bits in common. */
  lemma OrOfWords(t: nat, n: nat)
    requires t < 0x1_0000 && n < 0x1_0000
    ensures OrBits(t, n * 0x1_0000, WORD) == n * 0x1_0000 + t
  {
    Power2Of16();
    OrDisjoint(t, n, WORD / 2, WORD / 2);
  }

  lemma OrByWords(a: int, b: int, x: nat, y: nat, z: nat)
    requires x == a % 0x1_0000_0000 && y == b % 0x1_0000_0000 && OrBits(x, y, WORD) == z
    ensures Or(a, b) == ToInt32(z)
  {
  }

  lemma OrIsSum(t: nat, n: nat)
    requires t < 0x1_0000 && n < 0x1_0000
    ensures Or(t, ToInt32(n * 0x1_0000)) == ToInt32(n * 0x1_0000 + t)
  {
    var y, z := n * 0x1_0000, n * 0x1_0000 + t;
    ShiftedWord(n);
    OrOfWords(t, n);
    OrByWords(t, ToInt32(y), t, y, z);
  }
}

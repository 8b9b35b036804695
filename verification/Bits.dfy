/**
 Bit-level arithmetic on naturals: the masking of uo_hashtbl's probe sequence and the
 round-up-to-a-power-of-two trick of uo_util and uo_stack.
 */
module Bits {

  const WORD := 0x1_0000_0000_0000_0000
  const HALF_WORD := 0x8000_0000_0000_0000

  /** A 64-bit unsigned machine word. */
  type Word = w: int | 0 <= w < WORD

  ghost function Pow2(k: nat): (p: nat)
    ensures p >= 1
  {
    if k == 0 then 1 else 2 * Pow2(k - 1)
  }

  ghost predicate IsPow2(n: nat) {
    exists k: nat :: n == Pow2(k)
  }

  /** Bitwise conjunction. */
  function And(a: nat, b: nat): nat {
    if a == 0 || b == 0 then 0
    else (if a % 2 == 1 && b % 2 == 1 then 1 else 0) + 2 * And(a / 2, b / 2)
  }

  /** Bitwise disjunction. */
  function Or(a: nat, b: nat): nat {
    if a == 0 then b
    else if b == 0 then a
    else (if a % 2 == 1 || b % 2 == 1 then 1 else 0) + 2 * Or(a / 2, b / 2)
  }

  /** Right shift. */
  function Shr(n: nat, s: nat): nat
    decreases s
  {
    if s == 0 then n else Shr(n / 2, s - 1)
  }

  /** Bit i of n, counted from the least significant. */
  ghost predicate Bit(n: nat, i: nat)
    decreases i
  {
    if i == 0 then n % 2 == 1 else Bit(n / 2, i - 1)
  }

  /** The number of significant bits of n. */
  ghost function Len(n: nat): nat {
    if n == 0 then 0 else 1 + Len(n / 2)
  }

  // ----- masking

  lemma MulAtLeast(e: nat, m: nat)
    requires e >= 1
    ensures e * m >= m
  {
  }

  lemma ModUnique(x: nat, q: nat, m: nat, r: nat)
    requires m > 0 && r < m && x == q * m + r
    ensures x % m == r
  {
    var d, t := x / m, x % m;
    assert x == d * m + t;
    if d < q {
      MulAtLeast(q - d, m);
    } else if q < d {
      MulAtLeast(d - q, m);
    }
  }

  lemma HalveMod(x: nat, p: nat)
    requires p > 0
    ensures x % (2 * p) == 2 * ((x / 2) % p) + x % 2
  {
    var h := x / 2;
    var q, r := h / p, h % p;
    assert h == q * p + r;
    assert q * (2 * p) == 2 * (q * p);
    ModUnique(x, q, 2 * p, 2 * r + x % 2);
  }

  /** Masking with capacity - 1 is reduction modulo the capacity when that is a power of two. */
  lemma {:induction false} MaskIsMod(x: nat, k: nat)
    ensures And(x, Pow2(k) - 1) == x % Pow2(k)
  {
    if x == 0 {
      ModUnique(0, 0, Pow2(k), 0);
    } else if k == 0 {
      ModUnique(x, x, 1, 0);
    } else {
      var p := Pow2(k - 1);
      MaskIsMod(x / 2, k - 1);
      HalveMod(x, p);
      assert (2 * p - 1) / 2 == p - 1 && (2 * p - 1) % 2 == 1;
    }
  }

  // ----- rounding up to a power of two

  lemma {:induction false} BitOr(a: nat, b: nat, i: nat)
    ensures Bit(Or(a, b), i) <==> Bit(a, i) || Bit(b, i)
    decreases i
  {
    if a == 0 {
      BitHigh(0, i);
    } else if b == 0 {
      BitHigh(0, i);
    } else if i > 0 {
      BitOr(a / 2, b / 2, i - 1);
      assert Or(a, b) / 2 == Or(a / 2, b / 2);
    }
  }

  lemma {:induction false} BitShr(n: nat, s: nat, i: nat)
    ensures Bit(Shr(n, s), i) <==> Bit(n, i + s)
    decreases s
  {
    if s > 0 {
      BitShr(n / 2, s - 1, i);
    }
  }

  lemma {:induction false} BitHigh(n: nat, i: nat)
    requires Len(n) <= i
    ensures !Bit(n, i)
    decreases i
  {
    if i > 0 {
      BitHigh(n / 2, i - 1);
    }
  }

  lemma {:induction false} BitTop(n: nat)
    requires n > 0
    ensures Bit(n, Len(n) - 1)
  {
    if n > 1 {
      BitTop(n / 2);
    }
  }

  lemma {:induction false} BitOfOnes(t: nat, i: nat)
    ensures Bit(Pow2(t) - 1, i) <==> i < t
    decreases i
  {
    if t == 0 {
      BitHigh(0, i);
    } else if i > 0 {
      BitOfOnes(t - 1, i - 1);
      assert (Pow2(t) - 1) / 2 == Pow2(t - 1) - 1;
    }
  }

  /** Two numbers with the same bits are equal. */
  lemma {:induction false} BitsDetermine(a: nat, b: nat)
    requires forall i: nat :: Bit(a, i) <==> Bit(b, i)
    ensures a == b
    decreases a + b
  {
    assert Bit(a, 0) <==> Bit(b, 0);
    if a + b > 0 {
      forall i: nat
        ensures Bit(a / 2, i) <==> Bit(b / 2, i)
      {
        assert Bit(a, i + 1) <==> Bit(b, i + 1);
      }
      BitsDetermine(a / 2, b / 2);
    }
  }

  lemma {:induction false} LenBounds(n: nat)
    ensures n < Pow2(Len(n))
    ensures n > 0 ==> Pow2(Len(n) - 1) <= n
  {
    if n > 0 {
      LenBounds(n / 2);
    }
  }

  lemma {:induction false} Pow2Monotone(a: nat, b: nat)
    requires a <= b
    ensures Pow2(a) <= Pow2(b)
    decreases b
  {
    if a < b {
      Pow2Monotone(a, b - 1);
    }
  }

  lemma Pow2Words()
    ensures Pow2(63) == HALF_WORD && Pow2(64) == WORD
  {
    assert Pow2(8) == 0x100;
    assert Pow2(16) == 0x1_0000;
    assert Pow2(24) == 0x100_0000;
    assert Pow2(32) == 0x1_0000_0000;
    assert Pow2(40) == 0x100_0000_0000;
    assert Pow2(48) == 0x1_0000_0000_0000;
    assert Pow2(56) == 0x100_0000_0000_0000;
  }

  /** Bit i of n is set exactly when m has a set bit among the w positions from i upwards. */
  ghost predicate Smeared(m: nat, n: nat, w: nat) {
    forall i: nat :: Bit(n, i) <==> SetWithin(m, i, w)
  }

  ghost predicate SetWithin(m: nat, i: nat, w: nat) {
    exists j: nat :: i <= j < i + w && Bit(m, j)
  }

  /** One line of the smearing: n |= n >> w doubles the window. */
  lemma SmearStep(m: nat, n: nat, w: nat)
    requires Smeared(m, n, w)
    ensures Smeared(m, Or(n, Shr(n, w)), 2 * w)
  {
    forall i: nat
      ensures Bit(Or(n, Shr(n, w)), i) <==> SetWithin(m, i, 2 * w)
    {
      BitOr(n, Shr(n, w), i);
      BitShr(n, w, i);
      assert Bit(n, i) <==> SetWithin(m, i, w);
      assert Bit(n, i + w) <==> SetWithin(m, i + w, w);
      if SetWithin(m, i, 2 * w) {
        var j: nat :| i <= j < i + 2 * w && Bit(m, j);
        assert j < i + w || i + w <= j < i + w + w;
      }
    }
  }

  /** Once the window covers the word, smearing has filled every position below the top bit. */
  lemma SmearedOut(m: nat, n: nat)
    requires Smeared(m, n, 64) && Len(m) <= 64
    ensures n == Pow2(Len(m)) - 1
  {
    forall i: nat
      ensures Bit(n, i) <==> Bit(Pow2(Len(m)) - 1, i)
    {
      BitOfOnes(Len(m), i);
      assert Bit(n, i) <==> SetWithin(m, i, 64);
      if i < Len(m) {
        BitTop(m);
      } else {
        forall j: nat | i <= j
          ensures !Bit(m, j)
        {
          BitHigh(m, j);
        }
      }
    }
    BitsDetermine(n, Pow2(Len(m)) - 1);
  }

  lemma LenOfWord(m: Word)
    ensures Len(m) <= 64
    ensures Len(m) == 64 <==> m >= HALF_WORD
  {
    LenBounds(m);
    Pow2Words();
    if Len(m) > 64 {
      Pow2Monotone(64, Len(m) - 1);
    } else if Len(m) < 64 {
      Pow2Monotone(Len(m), 63);
    }
  }

  /** p is the least power of two that is at least n. */
  ghost predicate IsCeilPow2(n: nat, p: nat) {
    IsPow2(p) && n <= p && forall k: nat :: n <= Pow2(k) ==> p <= Pow2(k)
  }

  lemma CeilFromLen(n: nat)
    requires n >= 1
    ensures IsCeilPow2(n, Pow2(Len(n - 1)))
  {
    LenBounds(n - 1);
    forall k: nat | n <= Pow2(k)
      ensures Pow2(Len(n - 1)) <= Pow2(k)
    {
      if k < Len(n - 1) {
        Pow2Monotone(k, Len(n - 1) - 1);
      } else {
        Pow2Monotone(Len(n - 1), k);
      }
    }
  }

  lemma SmearedAtFirst(m: nat)
    ensures Smeared(m, m, 1)
  {
    forall i: nat
      ensures Bit(m, i) <==> SetWithin(m, i, 1)
    {
      if Bit(m, i) {
        assert i <= i < i + 1;
      }
    }
  }

  /**
   Round up to a power of two, with the wrap-around of the 64-bit decrement and increment.
   The least power of two at least n is returned exactly when 1 <= n <= 2^63; otherwise 0.
   */
  method CeilPow2(n: Word) returns (r: Word)
    ensures 1 <= n <= HALF_WORD ==> IsCeilPow2(n, r)
    ensures n == 0 || n > HALF_WORD ==> r == 0
  {
    var m: Word := if n == 0 then WORD - 1 else n - 1;
    var s: nat := m;
    hide Smeared, Or, Shr;
    SmearedAtFirst(m);
    SmearStep(m, s, 1);
    s := Or(s, Shr(s, 1));
    SmearStep(m, s, 2);
    s := Or(s, Shr(s, 2));
    SmearStep(m, s, 4);
    s := Or(s, Shr(s, 4));
    SmearStep(m, s, 8);
    s := Or(s, Shr(s, 8));
    SmearStep(m, s, 16);
    s := Or(s, Shr(s, 16));
    SmearStep(m, s, 32);
    s := Or(s, Shr(s, 32));
    LenOfWord(m);
    SmearedOut(m, s);
    assert Pow2(Len(m)) <= WORD by {
      Pow2Words();
      Pow2Monotone(Len(m), 64);
    }
    assert s == WORD - 1 <==> Len(m) == 64 by {
      Pow2Words();
      if Len(m) < 64 {
        Pow2Monotone(Len(m), 63);
      }
    }
    if n >= 1 {
      CeilFromLen(n);
    }
    r := if s == WORD - 1 then 0 else s + 1;
  }
}

/** Alignment arithmetic of the allocator: CalculatePadding
    (Arena/Arena.cpp:119-124) and the bit mask it relies on. */
module Alignment {

  /** `n` is 1, 2, 4, 8, ...: the alignments the allocator accepts. */
  predicate IsPowerOfTwo(n: nat)
    decreases n
  {
    n == 1 || (n >= 2 && n % 2 == 0 && IsPowerOfTwo(n / 2))
  }

  /** Bitwise AND of two unbounded naturals, bit by bit from the lowest. */
  function BitAnd(x: nat, y: nat): (r: nat)
    ensures r <= x && r <= y
    decreases x
  {
    if x == 0 || y == 0 then 0
    else 2 * BitAnd(x / 2, y / 2) + (if x % 2 == 1 && y % 2 == 1 then 1 else 0)
  }

  /** Splitting off the lowest bit: x mod 2m is twice (x/2 mod m) plus x's lowest bit. */
  lemma HalvingRemainder(x: nat, m: nat)
    requires m > 0
    ensures x % (2 * m) == 2 * ((x / 2) % m) + x % 2
  {
    var q, r := x / 2, x % 2;
    var k, s := q / m, q % m;
    assert x == 2 * m * k + (2 * s + r) by {
      assert x == 2 * q + r;
      assert q == m * k + s;
    }
    assert 0 <= 2 * s + r < 2 * m;
    DivModUnique(x, 2 * m, k, 2 * s + r);
  }

  /** Division with remainder has exactly one solution. */
  lemma DivModUnique(x: nat, d: nat, k: nat, t: nat)
    requires d > 0 && t < d && x == d * k + t
    ensures x % d == t && x / d == k
  {
    var k', t' := x / d, x % d;
    assert x == d * k' + t';
    assert d * (k - k') == t' - t;
    ProductBelowFactor(d, k - k');
  }

  /** A multiple of `d` strictly between `-d` and `d` is zero. */
  lemma ProductBelowFactor(d: int, m: int)
    requires d > 0 && -d < d * m < d
    ensures m == 0
  {
  }

  /** For a power of two `n`, masking with `n - 1` keeps exactly the remainder
      modulo `n`: the identity `ptr & (alignment - 1) == ptr % alignment`
      that CalculatePadding depends on. */
  lemma {:induction false} MaskIsRemainder(x: nat, n: nat)
    requires IsPowerOfTwo(n)
    ensures BitAnd(x, n - 1) == x % n
  {
    if n == 1 {
    } else if x == 0 {
    } else {
      var m := n / 2;
      assert (n - 1) / 2 == m - 1 && (n - 1) % 2 == 1;
      MaskIsRemainder(x / 2, m);
      assert BitAnd(x, n - 1) == 2 * ((x / 2) % m) + x % 2;
      HalvingRemainder(x, m);
    }
  }

  /** CalculatePadding: the distance from `addr` up to the next multiple of
      `alignment`, computed as the source does, through the mask
      `alignment - 1`. */
  function CalculatePadding(addr: nat, alignment: nat): (padding: nat)
    requires IsPowerOfTwo(alignment)
    ensures padding < alignment
    ensures (addr + padding) % alignment == 0
    ensures padding == 0 <==> addr % alignment == 0
  {
    var mask := alignment - 1;
    var misalignment := BitAnd(addr, mask);
    PaddingAligns(addr, alignment, misalignment);
    if misalignment > 0 then alignment - misalignment else 0
  }

  /** What CalculatePadding's mask computes, and why the padding it derives aligns. */
  lemma PaddingAligns(addr: nat, alignment: nat, misalignment: nat)
    requires IsPowerOfTwo(alignment) && misalignment == BitAnd(addr, alignment - 1)
    ensures misalignment == addr % alignment
    ensures misalignment > 0 ==> (addr + (alignment - misalignment)) % alignment == 0
  {
    MaskIsRemainder(addr, alignment);
    if misalignment > 0 {
      RoundUpIsMultiple(addr, alignment);
    }
  }

  /** Adding `d - addr % d` to `addr` reaches the next multiple of `d`. */
  lemma RoundUpIsMultiple(addr: nat, d: nat)
    requires d > 0 && addr % d > 0
    ensures (addr + (d - addr % d)) % d == 0
  {
    var k := addr / d;
    assert addr == d * k + addr % d;
    assert d * (k + 1) == d * k + d;
    DivModUnique(addr + (d - addr % d), d, k + 1, 0);
  }

  /** The padding is the least offset that aligns `addr`: no smaller
      non-negative offset lands on a multiple of `alignment`. */
  lemma PaddingIsMinimal(addr: nat, alignment: nat, q: nat)
    requires IsPowerOfTwo(alignment)
    requires q < CalculatePadding(addr, alignment)
    ensures (addr + q) % alignment != 0
  {
    PaddingAligns(addr, alignment, BitAnd(addr, alignment - 1));
    BelowNextMultiple(addr, alignment, q);
  }

  /** Between a non-multiple `addr` of `d` and the next multiple there is none. */
  lemma BelowNextMultiple(addr: nat, d: nat, q: nat)
    requires d > 0 && addr % d > 0 && q < d - addr % d
    ensures (addr + q) % d != 0
  {
    var k, r := addr / d, addr % d;
    assert addr == d * k + r;
    DivModUnique(addr + q, d, k, r + q);
  }

  /** A power of two divides every power of two at least as large. */
  lemma {:induction false} PowerDivides(n: nat, m: nat)
    requires IsPowerOfTwo(n) && IsPowerOfTwo(m) && n <= m
    ensures m % n == 0
    decreases n
  {
    if n > 1 {
      PowerDivides(n / 2, m / 2);
      var k := (m / 2) / (n / 2);
      assert m == n * k;
      DivModUnique(m, n, k, 0);
    }
  }

  /** When `n` divides `m`, reducing modulo `m` first keeps the remainder
      modulo `n`. */
  lemma ModMod(x: nat, m: nat, n: nat)
    requires n > 0 && m > 0 && m % n == 0
    ensures (x % m) % n == x % n
  {
    var q, r := x / m, x % m;
    var k := m / n;
    var a, b := r / n, r % n;
    var j := k * q + a;
    assert x == n * j + b by {
      assert m == n * k;
      assert m * q == n * (k * q) by {
        assert m * q == (n * k) * q;
      }
      assert n * j == n * (k * q) + n * a;
      assert x == m * q + r;
      assert r == n * a + b;
    }
    DivModUnique(x, n, j, b);
  }

  /** 2^32, the number of values of uint32_t, is a power of two. */
  lemma Uint32RangeIsPowerOfTwo()
    ensures IsPowerOfTwo(0x1_0000_0000)
  {
    assert IsPowerOfTwo(0x1_0000);
    assert IsPowerOfTwo(0x100_0000);
  }

  /** CalculatePadding casts the address to uint32_t before masking; for any
      power-of-two alignment a uint32_t can hold, that cast does not change
      the padding. */
  lemma TruncationKeepsPadding(addr: nat, alignment: nat)
    requires IsPowerOfTwo(alignment) && alignment < 0x1_0000_0000
    ensures CalculatePadding(addr % 0x1_0000_0000, alignment) == CalculatePadding(addr, alignment)
  {
    Uint32RangeIsPowerOfTwo();
    PowerDivides(alignment, 0x1_0000_0000);
    ModMod(addr, 0x1_0000_0000, alignment);
    PaddingAligns(addr, alignment, BitAnd(addr, alignment - 1));
    PaddingAligns(addr % 0x1_0000_0000, alignment, BitAnd(addr % 0x1_0000_0000, alignment - 1));
  }
}

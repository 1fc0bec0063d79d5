/** The mask form of "round up to a multiple" that the allocators use, on unbounded
    two's complement integers. */
module Alignment {

  function Abs(x: int): nat { if x < 0 then -x else x }

  /** Bitwise and of two unbounded two's complement integers. */
  function And(x: int, y: int): int
    decreases Abs(x) + Abs(y)
  {
    if x == 0 || y == 0 then 0
    else if x == -1 then y
    else if y == -1 then x
    else 2 * And(x / 2, y / 2) + (x % 2) * (y % 2)
  }

  /** Bitwise complement. */
  function Not(x: int): int { -x - 1 }

  function Pow2(k: nat): (p: nat)
    ensures p > 0
  {
    if k == 0 then 1 else 2 * Pow2(k - 1)
  }

  ghost predicate IsPow2(a: int) { exists k: nat :: a == Pow2(k) }

  /** `(size + align - 1) & ~(align - 1)` */
  function AlignTo(size: int, align: int): int { And(size + align - 1, Not(align - 1)) }

  ghost predicate IsLeastMultiple(r: int, align: int, size: int)
    requires align > 0
  {
    && r % align == 0 && size <= r
    && forall m :: m % align == 0 && size <= m ==> r <= m
  }

  lemma AndUnfold(x: int, y: int)
    ensures And(x, y) == 2 * And(x / 2, y / 2) + (x % 2) * (y % 2)
  {
    if x == -1 || y == -1 {
      assert And(x / 2, y / 2) == if x == -1 then y / 2 else x / 2;
    }
  }

  /** A mask and its complement split every integer in two. */
  lemma {:induction false} AndSplit(x: int, m: int)
    ensures And(x, m) + And(x, Not(m)) == x
    decreases Abs(x) + Abs(m)
  {
    AndUnfold(x, m);
    AndUnfold(x, Not(m));
    if x != 0 && x != -1 && m != 0 && m != -1 {
      AndSplit(x / 2, m / 2);
      assert Not(m) / 2 == Not(m / 2) && Not(m) % 2 == 1 - m % 2;
      assert (x % 2) * (m % 2) + (x % 2) * (1 - m % 2) == x % 2;
    } else if m == 0 || m == -1 {
      assert Not(m) == -1 || Not(m) == 0;
    }
  }

  /** A non-negative mask keeps at most its own bits. */
  lemma {:induction false} AndBounds(x: int, m: nat)
    ensures 0 <= And(x, m) <= m
    decreases m
  {
    AndUnfold(x, m);
    if m > 0 {
      AndBounds(x / 2, m / 2);
      assert 0 <= (x % 2) * (m % 2) <= m % 2;
    }
  }

  /** For every alignment at all, power of two or not, the result covers the request. */
  lemma AlignToBounds(size: int, align: int)
    requires align > 0
    ensures size <= AlignTo(size, align) <= size + align - 1
  {
    AndSplit(size + align - 1, align - 1);
    AndBounds(size + align - 1, align - 1);
  }

  lemma ModDouble(x: int, p: int)
    requires p > 0
    ensures x % (2 * p) == 2 * ((x / 2) % p) + x % 2
  {
    var q, r := (x / 2) / p, (x / 2) % p;
    assert x / 2 == q * p + r;
    assert x == q * (2 * p) + (2 * r + x % 2);
    ModUnique(x, 2 * p, q, 2 * r + x % 2);
  }

  lemma MulSign(k: int, d: int)
    requires d > 0
    ensures k >= 1 ==> k * d >= d
    ensures k <= -1 ==> k * d <= -d
  {
    if k >= 1 { assert (k - 1) * d >= 0; }
    if k <= -1 { assert (-k - 1) * d >= 0; }
  }

  lemma ModUnique(x: int, d: int, q: int, r: int)
    requires d > 0 && 0 <= r < d && x == q * d + r
    ensures x % d == r && x / d == q
  {
    var q', r' := x / d, x % d;
    assert x == q' * d + r';
    assert (q - q') * d == r' - r;
    MulSign(q - q', d);
  }

  lemma HalfMask(p: int)
    ensures Not(2 * p - 1) / 2 == Not(p - 1) && Not(2 * p - 1) % 2 == 0
  {
  }

  /** Masking with the complement of 2^k - 1 drops the remainder modulo 2^k. */
  lemma {:induction false} MaskDropsRemainder(x: int, k: nat)
    ensures And(x, Not(Pow2(k) - 1)) == x - x % Pow2(k)
    decreases k
  {
    if k == 0 {
      assert Not(Pow2(0) - 1) == -1;
    } else {
      var p := Pow2(k - 1);
      AndUnfold(x, Not(2 * p - 1));
      HalfMask(p);
      MaskDropsRemainder(x / 2, k - 1);
      ModDouble(x, p);
    }
  }

  lemma LeastMultipleFromBounds(r: int, align: int, size: int)
    requires align > 0 && r % align == 0 && size <= r < size + align
    ensures IsLeastMultiple(r, align, size)
  {
    forall m | m % align == 0 && size <= m
      ensures r <= m
    {
      var a, b := m / align, r / align;
      assert m == a * align && r == b * align;
      assert (b - a) * align == r - m;
      MulSign(b - a, align);
    }
  }

  lemma WithoutRemainder(x: int, d: int, r: int)
    requires d > 0 && r == x - x % d
    ensures r % d == 0
  {
    ModUnique(r, d, x / d, 0);
  }

  lemma AlignToLeast(size: int, align: int)
    requires align > 0 && IsPow2(align)
    ensures IsLeastMultiple(AlignTo(size, align), align, size)
  {
    var k: nat :| align == Pow2(k);
    var x, r := size + align - 1, AlignTo(size, align);
    MaskDropsRemainder(x, k);
    WithoutRemainder(x, align, r);
    AlignToBounds(size, align);
    LeastMultipleFromBounds(r, align, size);
  }

  lemma AndNotSelf(b: int)
    ensures And(b, Not(b)) == 0
    decreases Abs(b)
  {
    if b != 0 && b != -1 {
      AndUnfold(b, Not(b));
      AndNotSelf(b / 2);
      assert Not(b) / 2 == Not(b / 2) && Not(b) % 2 == 1 - b % 2;
    }
  }

  /** `a & -a` is `a` only when `a` is a power of two. */
  lemma {:induction false} LowestBit(a: int)
    requires a > 0 && And(a, -a) == a
    ensures IsPow2(a)
    decreases a
  {
    AndUnfold(a, -a);
    if a % 2 == 1 {
      assert (-a) / 2 == Not(a / 2) && (-a) % 2 == 1;
      AndNotSelf(a / 2);
      assert a == Pow2(0);
    } else {
      assert (-a) / 2 == -(a / 2) && (-a) % 2 == 0;
      LowestBit(a / 2);
      var k: nat :| a / 2 == Pow2(k);
      assert a == Pow2(k + 1);
    }
  }

  lemma OneByte(align: int)
    requires align > 0 && AlignTo(1, align) % align == 0
    ensures IsPow2(align)
  {
    AlignToBounds(1, align);
    var r := AlignTo(1, align);
    if r < align { ModUnique(r, align, 0, r); }
    LowestBit(align);
  }

  /** The mask form is "least multiple not below" for every size exactly when the alignment
      is a power of two; for any other alignment a request of one byte already shows it. */
  lemma AlignToExact(align: int)
    requires align > 0
    ensures (forall size :: IsLeastMultiple(AlignTo(size, align), align, size)) <==> IsPow2(align)
    ensures !IsPow2(align) ==> !IsLeastMultiple(AlignTo(1, align), align, 1)
  {
    if IsPow2(align) {
      forall size ensures IsLeastMultiple(AlignTo(size, align), align, size) { AlignToLeast(size, align); }
    } else {
      var works := forall size :: IsLeastMultiple(AlignTo(size, align), align, size);
      assert works ==> IsLeastMultiple(AlignTo(1, align), align, 1);
      if IsLeastMultiple(AlignTo(1, align), align, 1) { OneByte(align); }
    }
  }

  /** Rounding an already aligned size changes nothing. */
  lemma AlignToMultiple(size: int, align: int)
    requires align > 0 && IsPow2(align) && size % align == 0
    ensures AlignTo(size, align) == size
  {
    AlignToLeast(size, align);
  }

  /** Bits masked away are gone. */
  lemma {:induction false} MaskClears(x: int, m: nat)
    ensures And(And(x, Not(m)), m) == 0
    decreases m
  {
    if m > 0 {
      var z := And(x, Not(m));
      AndUnfold(x, Not(m));
      assert Not(m) / 2 == Not(m / 2) && Not(m) % 2 == 1 - m % 2;
      var low := (x % 2) * (1 - m % 2);
      assert 0 <= low <= 1 && low * (m % 2) == 0;
      assert z / 2 == And(x / 2, Not(m / 2)) && z % 2 == low;
      AndUnfold(z, m);
      MaskClears(x / 2, m / 2);
    }
  }

  /** Adding a mask to an integer without its bits sets them, and masking clears them again. */
  lemma {:induction false} AddMask(y: int, m: nat)
    requires And(y, m) == 0
    ensures And(y + m, Not(m)) == y
    decreases m
  {
    if m > 0 {
      AndUnfold(y, m);
      AndBounds(y / 2, m / 2);
      assert (y % 2) * (m % 2) == 0 && And(y / 2, m / 2) == 0;
      OneBit(y % 2, m % 2);
      assert (y + m) / 2 == y / 2 + m / 2 && (y + m) % 2 == y % 2 + m % 2;
      AddMask(y / 2, m / 2);
      AndUnfold(y + m, Not(m));
      assert Not(m) / 2 == Not(m / 2) && Not(m) % 2 == 1 - m % 2;
    }
  }

  lemma OneBit(a: int, b: int)
    requires 0 <= a <= 1 && 0 <= b <= 1 && a * b == 0
    ensures a + b <= 1 && (a + b) * (1 - b) == a
  {
  }

  /** The sizes the mask form leaves alone, for every alignment. */
  lemma AlignToFixed(size: int, align: int)
    requires align > 0
    ensures AlignTo(size, align) == size <==> And(size, align - 1) == 0
  {
    MaskClears(size + align - 1, align - 1);
    if And(size, align - 1) == 0 { AddMask(size, align - 1); }
  }

  /** Rounding twice is rounding once, for every alignment. */
  lemma AlignToTwice(size: int, align: int)
    requires align > 0
    ensures AlignTo(AlignTo(size, align), align) == AlignTo(size, align)
  {
    MaskClears(size + align - 1, align - 1);
    AlignToFixed(AlignTo(size, align), align);
  }

  lemma {:induction false} LowestBitDivides(a: int) returns (n: nat)
    requires a > 0
    ensures n > 0 && And(a, -a) > 0 && And(a, -a) * n == a
    decreases a
  {
    AndUnfold(a, -a);
    if a % 2 == 1 {
      assert (-a) / 2 == Not(a / 2) && (-a) % 2 == 1;
      AndNotSelf(a / 2);
      n := a;
    } else {
      assert (-a) / 2 == -(a / 2) && (-a) % 2 == 0;
      n := LowestBitDivides(a / 2);
      TwiceTimes(And(a / 2, -(a / 2)), n);
    }
  }

  /** For an alignment that is no power of two, some whole number of rounded one-byte units is
      rounded up once more. */
  lemma UnitsRoundedAgain(align: int) returns (n: nat)
    requires align > 0 && !IsPow2(align)
    ensures n > 0 && AlignTo(1, align) > 0 && AlignTo(1, align) * n == align && AlignTo(align, align) > align
  {
    n := LowestBitDivides(align);
    AndSplit(align, align - 1);
    if And(align, -align) == align { LowestBit(align); }
    AlignToFixed(align, align);
    AlignToBounds(align, align);
  }

  lemma MultipleOfMultiple(x: int, m: int, d: int)
    requires m > 0 && d > 0 && x % m == 0 && m % d == 0
    ensures x % d == 0
  {
    var p, q := x / m, m / d;
    assert x == p * m && m == q * d;
    assert x == (p * q) * d;
    ModUnique(x, d, p * q, 0);
  }

  lemma TimesTwice(q: int, e: int)
    ensures q * (2 * e) == 2 * (q * e)
  {
  }

  lemma HalfDivides(p: int, d: int, q: int)
    requires d > 0 && d % 2 == 0 && 2 * p == q * d
    ensures p % (d / 2) == 0
  {
    var e := d / 2;
    TimesTwice(q, e);
    ModUnique(p, e, q, 0);
  }

  lemma TimesOdd(q: int, e: int)
    ensures q * (2 * e + 1) == 2 * (q * e) + q
  {
  }

  lemma TwiceTimes(h: int, d: int)
    ensures (2 * h) * d == 2 * (h * d)
  {
  }

  lemma OddDivides(p: int, d: int, q: int)
    requires d > 0 && d % 2 == 1 && 2 * p == q * d
    ensures p % d == 0
  {
    var e, h := d / 2, q / 2;
    TimesOdd(q, e);
    assert q == 2 * h;
    TwiceTimes(h, d);
    ModUnique(p, d, h, 0);
  }

  lemma DividesOne(d: int)
    requires d > 0 && 1 % d == 0
    ensures d == 1
  {
    if d > 1 { ModUnique(1, d, 0, 1); }
  }

  /** Only powers of two divide a power of two. */
  lemma {:induction false} DivisorOfPow2(d: int, k: nat)
    requires d > 0 && Pow2(k) % d == 0
    ensures IsPow2(d)
    decreases k
  {
    if k == 0 {
      DividesOne(d);
      assert d == Pow2(0);
    } else {
      var p, q := Pow2(k - 1), Pow2(k) / d;
      assert 2 * p == q * d;
      if d % 2 == 0 {
        HalfDivides(p, d, q);
        DivisorOfPow2(d / 2, k - 1);
        var j: nat :| d / 2 == Pow2(j);
        assert d == Pow2(j + 1);
      } else {
        OddDivides(p, d, q);
        DivisorOfPow2(d, k - 1);
      }
    }
  }

  lemma ModAdd(x: int, y: int, d: int)
    requires d > 0 && x % d == 0 && y % d == 0
    ensures (x + y) % d == 0 && (x - y) % d == 0
  {
    var p, q := x / d, y / d;
    assert x == p * d && y == q * d;
    assert x + y == (p + q) * d && x - y == (p - q) * d;
    ModUnique(x + y, d, p + q, 0);
    ModUnique(x - y, d, p - q, 0);
  }
}

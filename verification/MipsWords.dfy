/** 32-bit words as numbers, and the C operations on them that the encoder and the decoder use. */
module MipsWords {

  import opened Bytes

  /** A C int. Its right shift by n is division by 2^n rounded down, which is what / does. */
  type int32 = x: int | -0x8000_0000 <= x < 0x8000_0000

  /** The bit pattern of an int, or of any number computed with wrap-around. */
  function Word(x: int): word {
    x % TWO32
  }

  /** The int with the bit pattern of x. */
  function Wrap(x: int): int32 {
    (x + 0x8000_0000) % TWO32 - 0x8000_0000
  }

  function Pow2(n: nat): nat
    ensures Pow2(n) > 0
  {
    if n == 0 then 1 else 2 * Pow2(n - 1)
  }

  /** Bitwise or. */
  function Or(a: nat, b: nat): nat
    decreases a
  {
    if a == 0 then b
    else if b == 0 then a
    else (if a % 2 == 1 || b % 2 == 1 then 1 else 0) + 2 * Or(a / 2, b / 2)
  }

  // ---------------------------------------------------------------------------------------------
  // Fields of an or
  // ---------------------------------------------------------------------------------------------

  /** w without its n lowest bits, and those bits, taken off one by one. */
  ghost function Shr(w: nat, n: nat): nat {
    if n == 0 then w else Shr(w / 2, n - 1)
  }

  ghost function Low(w: nat, n: nat): nat {
    if n == 0 then 0 else w % 2 + 2 * Low(w / 2, n - 1)
  }

  lemma {:induction false} ShrLow(w: nat, n: nat)
    ensures Shr(w, n) * Pow2(n) + Low(w, n) == w && Low(w, n) < Pow2(n)
    decreases n
  {
    if n > 0 {
      ShrLow(w / 2, n - 1);
      TimesPower(Shr(w, n), n);
      JoinHalves(w, Shr(w, n) * Pow2(n), Shr(w, n) * Pow2(n - 1), Low(w / 2, n - 1));
    }
  }

  lemma TimesPower(h: nat, n: nat)
    requires n > 0
    ensures h * Pow2(n) == 2 * (h * Pow2(n - 1)) && Pow2(n) == 2 * Pow2(n - 1)
  {
    var p := Pow2(n - 1);
    assert h * (2 * p) == 2 * (h * p);
  }

  lemma JoinHalves(w: nat, top: nat, half: nat, low: nat)
    requires top == 2 * half && half + low == w / 2
    ensures top + (w % 2 + 2 * low) == w
  {
  }

  lemma OneMore(q: int, q': int, d: nat)
    requires q < q'
    ensures q * d + d <= q' * d
  {
    assert q * d + d == (q + 1) * d;
  }

  lemma DivisionIsUnique(q: int, r: int, q': int, r': int, d: int)
    requires d > 0 && 0 <= r < d && 0 <= r' < d && q * d + r == q' * d + r'
    ensures q == q' && r == r'
  {
    if q < q' {
      OneMore(q, q', d);
    } else if q' < q {
      OneMore(q', q, d);
    }
  }

  /** Taking bits off one by one is division by a power of two. */
  lemma ShrIsDivision(w: nat, p: nat, n: nat)
    requires p == Pow2(n)
    ensures w / p == Shr(w, n) && w % p == Low(w, n)
  {
    ShrLow(w, n);
    hide *;
    var q, r := w / p, w % p;
    assert q * p + r == w;
    DivisionIsUnique(q, r, Shr(w, n), Low(w, n), p);
  }

  lemma {:induction false} OrShr(a: nat, b: nat, n: nat)
    ensures Shr(Or(a, b), n) == Or(Shr(a, n), Shr(b, n))
    decreases n
  {
    if n > 0 {
      OrShr(a / 2, b / 2, n - 1);
      assert Or(a, b) / 2 == Or(a / 2, b / 2);
    }
  }

  lemma {:induction false} OrLow(a: nat, b: nat, n: nat)
    ensures Low(Or(a, b), n) == Or(Low(a, n), Low(b, n))
    decreases n
  {
    if n > 0 {
      OrLow(a / 2, b / 2, n - 1);
      assert Or(a, b) / 2 == Or(a / 2, b / 2);
      OrDoubled(Low(a / 2, n - 1), a % 2, Low(b / 2, n - 1), b % 2);
    }
  }

  lemma OrDoubled(x: nat, i: nat, y: nat, j: nat)
    requires i < 2 && j < 2
    ensures Or(i + 2 * x, j + 2 * y) == (if i == 1 || j == 1 then 1 else 0) + 2 * Or(x, y)
  {
    assert (i + 2 * x) / 2 == x && (i + 2 * x) % 2 == i;
    assert (j + 2 * y) / 2 == y && (j + 2 * y) % 2 == j;
  }

  /** A field of an or is the or of the fields. p and m are the powers of two that place and size it. */
  lemma OrField(a: nat, b: nat, p: nat, m: nat, lo: nat, width: nat)
    requires p == Pow2(lo) && m == Pow2(width)
    ensures (Or(a, b) / p) % m == Or((a / p) % m, (b / p) % m)
  {
    OrShr(a, b, lo);
    OrLow(Shr(a, lo), Shr(b, lo), width);
    ShrIsDivision(a, p, lo);
    ShrIsDivision(b, p, lo);
    ShrIsDivision(Or(a, b), p, lo);
    ShrIsDivision(Shr(a, lo), m, width);
    ShrIsDivision(Shr(b, lo), m, width);
    ShrIsDivision(Shr(Or(a, b), lo), m, width);
  }

  lemma {:induction false} OrBounded(a: nat, b: nat, n: nat)
    requires a < Pow2(n) && b < Pow2(n)
    ensures Or(a, b) < Pow2(n)
    decreases n
  {
    if n > 0 {
      OrBounded(a / 2, b / 2, n - 1);
    }
  }

  /** Bits below a multiple of a power of two are simply added. */
  lemma {:induction false} OrBelow(h: nat, x: nat, n: nat)
    requires x < Pow2(n)
    ensures Or(h * Pow2(n), x) == h * Pow2(n) + x
    decreases n
  {
    if n == 0 {
      assert h * 1 == h;
    } else {
      TimesPower(h, n);
      OrBelow(h, x / 2, n - 1);
      OrDoubled(h * Pow2(n - 1), 0, x / 2, x % 2);
      hide *;
    }
  }
}

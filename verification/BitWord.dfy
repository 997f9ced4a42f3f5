/** 64-bit words as the bitmap uses them: shifts, masks and bitwise operators, and what they do to single bits. */
module BitWord {
  import opened Bits

  type Word = w: int | 0 <= w < 0x1_0000_0000_0000_0000

  function Complement(w: Word): Word {
    WORD_LIMIT - 1 - w
  }

  function Or(a: nat, b: nat): nat {
    if a == 0 then b else if b == 0 then a
    else (if a % 2 == 1 || b % 2 == 1 then 1 else 0) + 2 * Or(a / 2, b / 2)
  }

  function And(a: nat, b: nat): nat {
    if a == 0 || b == 0 then 0
    else (if a % 2 == 1 && b % 2 == 1 then 1 else 0) + 2 * And(a / 2, b / 2)
  }

  /** w << n: bits shifted beyond bit 63 are lost. */
  function Shl(w: Word, n: nat): Word
    decreases n
  {
    if n == 0 then w else Shl(2 * w % WORD_LIMIT, n - 1)
  }

  /** w >> n */
  function Shr(w: nat, n: nat): nat
    decreases n
  {
    if n == 0 then w else Shr(w / 2, n - 1)
  }

  /** The position of the lowest set bit (BSF). */
  function Bsf(w: nat): nat
    requires w > 0
  {
    if w % 2 == 1 then 0 else 1 + Bsf(w / 2)
  }

  // -------- Single bits

  lemma {:induction false} OrBit(a: nat, b: nat, j: nat)
    ensures Bit(Or(a, b), j) == (Bit(a, j) || Bit(b, j))
    decreases j
  {
    if a == 0 {
      ZeroBit(j);
    } else if b == 0 {
      ZeroBit(j);
    } else if j > 0 {
      OrBit(a / 2, b / 2, j - 1);
    }
  }

  lemma {:induction false} AndBit(a: nat, b: nat, j: nat)
    ensures Bit(And(a, b), j) == (Bit(a, j) && Bit(b, j))
    decreases j
  {
    if a == 0 || b == 0 {
      ZeroBit(j);
    } else if j > 0 {
      AndBit(a / 2, b / 2, j - 1);
    }
  }

  lemma {:induction false} HighBit(w: nat, n: nat, j: nat)
    requires w < Pow2(n) && n <= j
    ensures !Bit(w, j)
    decreases n
  {
    if n == 0 {
      ZeroBit(j);
    } else {
      HighBit(w / 2, n - 1, j - 1);
    }
  }

  /** The complement within `n` bits. */
  lemma {:induction false} ComplementBit(w: nat, n: nat, j: nat)
    requires w < Pow2(n) && j < n
    ensures Bit(Pow2(n) - 1 - w, j) == !Bit(w, j)
    decreases n
  {
    var c: nat := Pow2(n) - 1 - w;
    assert c / 2 == Pow2(n - 1) - 1 - w / 2 && (c % 2 == 1) == (w % 2 == 0);
    if j > 0 {
      ComplementBit(w / 2, n - 1, j - 1);
    }
  }

  /** The word with the lowest `k` bits set. */
  lemma {:induction false} LowBits(k: nat, j: nat)
    ensures Bit(Pow2(k) - 1, j) == (j < k)
  {
    if k == 0 {
      ZeroBit(j);
    } else {
      assert (Pow2(k) - 1) / 2 == Pow2(k - 1) - 1 && (Pow2(k) - 1) % 2 == 1;
      if j > 0 { LowBits(k - 1, j - 1); }
    }
  }

  lemma {:induction false} ShrBit(w: nat, n: nat, j: nat)
    ensures Bit(Shr(w, n), j) == Bit(w, j + n)
    decreases n
  {
    if n > 0 {
      ShrBit(w / 2, n - 1, j);
    }
  }

  lemma Quotient(w: nat, d: nat, q: nat, r: nat)
    requires d > 0 && r < d && w == q * d + r
    ensures w % d == r
  {
    var t := w / d;
    assert t * d + w % d == q * d + r;
    assert (t - q) * d == r - w % d;
    ProductGap(d, t - q);
  }

  lemma ModHalf(w: nat, n: nat)
    requires n > 0
    ensures w % Pow2(n) % 2 == w % 2
    ensures w % Pow2(n) / 2 == w / 2 % Pow2(n - 1)
  {
    var h := Pow2(n - 1);
    var q := w / 2 / h;
    var m := w / 2 % h;
    assert w / 2 == q * h + m;
    assert w == 2 * (w / 2) + w % 2;
    assert w == q * (2 * h) + (2 * m + w % 2);
    Quotient(w, 2 * h, q, 2 * m + w % 2);
  }

  lemma {:induction false} ModBit(w: nat, n: nat, j: nat)
    requires j < n
    ensures Bit(w % Pow2(n), j) == Bit(w, j)
    decreases n
  {
    ModHalf(w, n);
    if j > 0 {
      ModBit(w / 2, n - 1, j - 1);
    }
  }

  lemma DoubleBit(w: Word, j: nat)
    requires j < 64
    ensures Bit(2 * w % WORD_LIMIT, j) == (j > 0 && Bit(w, j - 1))
  {
    var d := 2 * w % WORD_LIMIT;
    assert d % 2 == 0;
    if j > 0 {
      assert d / 2 == w % (WORD_LIMIT / 2);
      ModBit(w, 63, j - 1);
      PowersOfTwo();
    }
  }

  lemma {:induction false} ShlBit(w: Word, n: nat, j: nat)
    requires j < 64
    ensures Bit(Shl(w, n), j) == (j >= n && Bit(w, j - n))
    decreases n
  {
    if n > 0 {
      var d := 2 * w % WORD_LIMIT;
      ShlBit(d, n - 1, j);
      if j >= n - 1 { DoubleBit(w, j - (n - 1)); }
    }
  }

  lemma {:induction false} BsfIsLowest(w: nat)
    requires w > 0
    ensures Bit(w, Bsf(w))
    ensures forall j :: 0 <= j < Bsf(w) ==> !Bit(w, j)
  {
    if w % 2 == 0 {
      BsfIsLowest(w / 2);
      forall j | 0 <= j < Bsf(w) ensures !Bit(w, j) {
        if j > 0 { assert !Bit(w / 2, j - 1); }
      }
    }
  }

  lemma BsfInWord(w: Word)
    requires w > 0
    ensures Bsf(w) < 64 && Bit(w, Bsf(w))
    ensures forall j :: 0 <= j < Bsf(w) ==> !Bit(w, j)
  {
    BsfIsLowest(w);
    PowersOfTwo();
    if Bsf(w) >= 64 { HighBit(w, 64, Bsf(w)); }
  }

  // -------- Words

  lemma {:induction false} OrBound(a: nat, b: nat, n: nat)
    requires a < Pow2(n) && b < Pow2(n)
    ensures Or(a, b) < Pow2(n)
    decreases n
  {
    if n > 0 && a > 0 && b > 0 {
      OrBound(a / 2, b / 2, n - 1);
    }
  }

  lemma {:induction false} AndBound(a: nat, b: nat)
    ensures And(a, b) <= a
  {
    if a > 0 && b > 0 {
      AndBound(a / 2, b / 2);
    }
  }

  lemma {:induction false} ShrBound(w: nat, n: nat)
    ensures Shr(w, n) <= w
    decreases n
  {
    if n > 0 {
      ShrBound(w / 2, n - 1);
    }
  }

  function OrWord(a: Word, b: Word): (r: Word)
    ensures forall j: nat :: Bit(r, j) == (Bit(a, j) || Bit(b, j))
  {
    PowersOfTwo();
    OrBound(a, b, 64);
    assert forall j: nat :: Bit(Or(a, b), j) == (Bit(a, j) || Bit(b, j)) by {
      forall j: nat ensures Bit(Or(a, b), j) == (Bit(a, j) || Bit(b, j)) { OrBit(a, b, j); }
    }
    Or(a, b)
  }

  function AndWord(a: Word, b: Word): (r: Word)
    ensures forall j: nat :: Bit(r, j) == (Bit(a, j) && Bit(b, j))
  {
    AndBound(a, b);
    assert forall j: nat :: Bit(And(a, b), j) == (Bit(a, j) && Bit(b, j)) by {
      forall j: nat ensures Bit(And(a, b), j) == (Bit(a, j) && Bit(b, j)) { AndBit(a, b, j); }
    }
    And(a, b)
  }

  function ShrWord(w: Word, n: nat): (r: Word)
    ensures forall j: nat :: Bit(r, j) == Bit(w, j + n)
  {
    ShrBound(w, n);
    assert forall j: nat :: Bit(Shr(w, n), j) == Bit(w, j + n) by {
      forall j: nat ensures Bit(Shr(w, n), j) == Bit(w, j + n) { ShrBit(w, n, j); }
    }
    Shr(w, n)
  }

  function ShlWord(w: Word, n: nat): (r: Word)
    ensures forall j: nat :: Bit(r, j) == (j < 64 && j >= n && Bit(w, j - n))
  {
    assert forall j: nat :: Bit(Shl(w, n), j) == (j < 64 && j >= n && Bit(w, j - n)) by {
      forall j: nat ensures Bit(Shl(w, n), j) == (j < 64 && j >= n && Bit(w, j - n)) {
        if j < 64 {
          ShlBit(w, n, j);
        } else {
          PowersOfTwo();
          HighBit(Shl(w, n), 64, j);
        }
      }
    }
    Shl(w, n)
  }

  function NotWord(w: Word): (r: Word)
    ensures forall j: nat :: j < 64 ==> Bit(r, j) == !Bit(w, j)
  {
    PowersOfTwo();
    assert forall j: nat :: j < 64 ==> Bit(Complement(w), j) == !Bit(w, j) by {
      forall j: nat | j < 64 ensures Bit(Complement(w), j) == !Bit(w, j) { ComplementBit(w, 64, j); }
    }
    Complement(w)
  }

  /** mask(bit): one bit of the word. */
  function Mask(bit: nat): Word {
    var k := bit % 64;
    Pow2Monotone(k, 63);
    PowersOfTwo();
    Pow2(k)
  }

  /** mask(bit) - 1: the bits below. */
  function Below(bit: nat): (r: Word)
    ensures r == Mask(bit) - 1
    ensures forall j: nat :: Bit(r, j) == (j < bit % 64)
  {
    var m: Word := Mask(bit) - 1;
    assert forall j: nat :: Bit(m, j) == (j < bit % 64) by {
      forall j: nat ensures Bit(m, j) == (j < bit % 64) { LowBits(bit % 64, j); }
    }
    m
  }

  /** ~mask(bit) + 1: the bit and the bits above. */
  function From(bit: nat): (r: Word)
    requires bit % 64 != 0
    ensures r == Complement(Mask(bit)) + 1
    ensures forall j: nat :: j < 64 ==> Bit(r, j) == (j >= bit % 64)
  {
    assert Complement(Mask(bit)) + 1 == NotWord(Below(bit));
    NotWord(Below(bit))
  }

  /** Byte `k` of a word replaced by all ones or all zeros. */
  function FillByte(w: Word, k: nat, ones: bool): (r: Word)
    requires k < 8
    ensures forall j: nat :: j < 64 ==> Bit(r, j) == if j / 8 == k then ones else Bit(w, j)
  {
    var byte := ShlWord(0xff, 8 * k);
    assert forall j: nat :: Bit(0xff, j) == (j < 8) by {
      forall j: nat ensures Bit(0xff, j) == (j < 8) { assert Pow2(8) == 0x100; LowBits(8, j); }
    }
    if ones then OrWord(w, byte) else AndWord(w, NotWord(byte))
  }
}

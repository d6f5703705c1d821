/** The operators of C on unsigned words, bit by bit, and what they are in arithmetic. */
module Bits {
  type Word = x: int | 0 <= x < 0x1_0000_0000

  function Pow2(n: nat): (p: nat)
    ensures p > 0
  {
    if n == 0 then 1 else 2 * Pow2(n - 1)
  }

  function Bit(a: nat): (i: nat)
    ensures i < 2
  {
    a % 2
  }

  function Half(a: nat): nat
  {
    a / 2
  }

  /** The bits from `n` up. */
  function High(a: nat, n: nat): (h: nat)
    ensures h <= a
  {
    if n == 0 then a else High(Half(a), n - 1)
  }

  /** The bits below `n`. */
  function Low(a: nat, n: nat): (l: nat)
    ensures l < Pow2(n)
  {
    if n == 0 then 0 else Bit(a) + 2 * Low(Half(a), n - 1)
  }

  function And(a: nat, b: nat): nat
    decreases a
  {
    if a == 0 then 0 else (if Bit(a) == 1 && Bit(b) == 1 then 1 else 0) + 2 * And(Half(a), Half(b))
  }

  function Or(a: nat, b: nat): nat
    decreases a + b
  {
    if a == 0 && b == 0 then 0 else (if Bit(a) == 1 || Bit(b) == 1 then 1 else 0) + 2 * Or(Half(a), Half(b))
  }

  function Shl(a: Word, n: nat): Word
    decreases n
  {
    if n == 0 then a else Shl(2 * a % 0x1_0000_0000, n - 1)
  }

  function Shr(a: Word, n: nat): Word
  {
    High(a, n)
  }

  lemma {:induction false} Twice(p: nat, h: nat)
    ensures 2 * p * h == 2 * (p * h) == p * (2 * h)
  {
  }

  lemma {:induction false} Parts(a: nat, n: nat)
    ensures a == Pow2(n) * High(a, n) + Low(a, n)
  {
    if n > 0 {
      Parts(a / 2, n - 1);
      Twice(Pow2(n - 1), High(a / 2, n - 1));
    }
  }

  /** Shifting left multiplies, where nothing falls out. */
  lemma {:induction false} ShlTimes(a: Word, n: nat)
    requires Pow2(n) * a < 0x1_0000_0000
    ensures Shl(a, n) == Pow2(n) * a
    decreases n
  {
    if n > 0 {
      var p := Pow2(n - 1);
      Twice(p, a);
      assert p * (2 * a) >= 2 * a;
      ShlTimes(2 * a, n - 1);
    }
  }

  lemma {:induction false} AndZero(a: nat)
    ensures And(a, 0) == 0
  {
    if a > 0 {
      AndZero(a / 2);
    }
  }

  /** A mask of `n` ones keeps the bits below `n`. */
  lemma {:induction false} AndMask(a: nat, n: nat)
    ensures And(a, Pow2(n) - 1) == Low(a, n)
  {
    if n == 0 {
      AndZero(a);
    } else {
      AndMask(a / 2, n - 1);
      assert (Pow2(n) - 1) / 2 == Pow2(n - 1) - 1 && (Pow2(n) - 1) % 2 == 1;
    }
  }

  /** A mask of the one bit `n` keeps that bit. */
  lemma {:induction false} AndBit(a: nat, n: nat)
    ensures And(a, Pow2(n)) == if High(a, n) % 2 == 1 then Pow2(n) else 0
  {
    if n == 0 {
      AndZero(a / 2);
    } else {
      AndBit(a / 2, n - 1);
    }
  }

  lemma {:induction false} OrZero(a: nat)
    ensures Or(a, 0) == a && Or(0, a) == a
  {
    if a > 0 {
      OrZero(a / 2);
    }
  }

  lemma {:induction false} PartsStep(a: nat, n: nat)
    requires n > 0
    ensures High(a, n) == High(Half(a), n - 1) && Low(a, n) == Bit(a) + 2 * Low(Half(a), n - 1)
  {
  }

  lemma {:induction false} PartsZero(a: nat)
    ensures High(a, 0) == a && Low(a, 0) == 0
  {
  }

  lemma {:induction false} OrStep(a: nat, b: nat)
    ensures Half(Or(a, b)) == Or(Half(a), Half(b)) && Bit(Or(a, b)) == Or(Bit(a), Bit(b))
  {
    OrZero(0);
  }

  lemma {:induction false} OrJoin(i: nat, a: nat, j: nat, b: nat)
    requires i < 2 && j < 2
    ensures Or(i + 2 * a, j + 2 * b) == Or(i, j) + 2 * Or(a, b)
  {
    assert (i + 2 * a) / 2 == a && (j + 2 * b) / 2 == b;
    OrZero(0);
  }

  /** The bits of a disjunction are those of its operands. */
  lemma {:induction false} OrParts(a: nat, b: nat, n: nat)
    ensures High(Or(a, b), n) == Or(High(a, n), High(b, n))
    ensures Low(Or(a, b), n) == Or(Low(a, n), Low(b, n))
    decreases n
  {
    hide *;
    if n == 0 {
      PartsZero(a);
      PartsZero(b);
      PartsZero(Or(a, b));
      OrZero(0);
    } else {
      PartsStep(a, n);
      PartsStep(b, n);
      PartsStep(Or(a, b), n);
      OrStep(a, b);
      OrParts(Half(a), Half(b), n - 1);
      OrJoin(Bit(a), Low(Half(a), n - 1), Bit(b), Low(Half(b), n - 1));
    }
  }

  lemma {:induction false} OrBound(a: nat, b: nat, n: nat)
    requires a < Pow2(n) && b < Pow2(n)
    ensures Or(a, b) < Pow2(n)
  {
    if n > 0 {
      OrBound(a / 2, b / 2, n - 1);
    }
  }

  /** Where the bits do not overlap, a disjunction is a sum. */
  lemma {:induction false} OrDisjoint(a: nat, b: nat, n: nat)
    requires Low(a, n) == 0 && b < Pow2(n)
    ensures Or(a, b) == a + b
  {
    if n > 0 {
      OrDisjoint(a / 2, b / 2, n - 1);
    } else {
      OrZero(a);
    }
  }

  /** Splitting a word at a bit. */
  lemma {:induction false} Split(w: nat, high: nat, low: nat, n: nat)
    requires w == Pow2(n) * high + low && low < Pow2(n)
    ensures High(w, n) == high && Low(w, n) == low
  {
    if n > 0 {
      Twice(Pow2(n - 1), high);
      Split(w / 2, high, low / 2, n - 1);
    }
  }

  /** The bits from `n` up, or below `n`, of four words joined. */
  lemma {:induction false} JoinedParts(a: nat, b: nat, c: nat, d: nat, n: nat)
    ensures var w := Or(Or(Or(a, b), c), d);
            && High(w, n) == Or(Or(Or(High(a, n), High(b, n)), High(c, n)), High(d, n))
            && Low(w, n) == Or(Or(Or(Low(a, n), Low(b, n)), Low(c, n)), Low(d, n))
  {
    hide Or, Low, High;
    OrParts(Or(Or(a, b), c), d, n);
    OrParts(Or(a, b), c, n);
    OrParts(a, b, n);
  }

  lemma {:induction false} OddStays(a: nat, b: nat)
    ensures a % 2 == 1 ==> Or(a, b) % 2 == 1
  {
    OrStep(a, b);
  }

  // ---------------------------------------------------------------- The constants of the headers

  lemma {:induction false} Powers()
    ensures Pow2(4) == 0x10 && Pow2(10) == 0x400 && Pow2(16) == 0x1_0000
    ensures Pow2(31) == 0x8000_0000 && Pow2(32) == 0x1_0000_0000
  {
    PowerSum(4, 6);
    PowerSum(10, 6);
    PowerSum(16, 10);
    PowerSum(26, 5);
    PowerSum(26, 6);
    assert Pow2(4) == 0x10 && Pow2(5) == 0x20 && Pow2(6) == 0x40;
  }

  lemma {:induction false} PowerSum(m: nat, n: nat)
    ensures Pow2(m + n) == Pow2(m) * Pow2(n)
  {
    if n > 0 {
      PowerSum(m, n - 1);
    }
  }

  lemma {:induction false} Low4(w: nat)
    ensures Low(w, 4) == w % 0x10
  {
    hide *;
    Powers();
    Parts(w, 4);
  }

  lemma {:induction false} Low10(w: nat)
    ensures Low(w, 10) == w % 0x400
  {
    hide *;
    Powers();
    Parts(w, 10);
  }

  lemma {:induction false} High10(w: nat)
    ensures High(w, 10) == w / 0x400
  {
    hide *;
    Powers();
    Parts(w, 10);
  }

  lemma {:induction false} High16(w: nat)
    ensures High(w, 16) == w / 0x1_0000
  {
    hide *;
    Powers();
    Parts(w, 16);
  }

  lemma {:induction false} High31(w: nat)
    ensures High(w, 31) == w / 0x8000_0000
  {
    hide *;
    Powers();
    Parts(w, 31);
  }

  lemma {:induction false} Mask4(w: nat)
    ensures And(w, 0xF) == Low(w, 4)
  {
    hide *;
    Powers();
    AndMask(w, 4);
  }

  lemma {:induction false} Mask10(w: nat)
    ensures And(w, 0x3FF) == Low(w, 10)
  {
    hide *;
    Powers();
    AndMask(w, 10);
  }

  lemma {:induction false} Mask31(w: Word)
    ensures And(w, 0x8000_0000) == 0x8000_0000 <==> High(w, 31) == 1
  {
    hide *;
    Powers();
    AndBit(w, 31);
    High31(w);
  }

  /** Field `n` bits wide from bit `at` on: what the shift and the mask of C take out of a word. */
  function Field(w: Word, at: nat, n: nat): (f: nat)
  {
    And(Shr(w, at), Pow2(n) - 1)
  }

  lemma {:induction false} FieldAt(w: Word, above: nat, f: nat, below: nat, at: nat, n: nat)
    requires w == Pow2(at) * (Pow2(n) * above + f) + below && below < Pow2(at) && f < Pow2(n)
    ensures Field(w, at, n) == f
  {
    hide And, High, Low, Pow2;
    Split(w, Pow2(n) * above + f, below, at);
    AndMask(Shr(w, at), n);
    Split(Pow2(n) * above + f, above, f, n);
  }

  lemma {:induction false} MorePowers()
    ensures Pow2(0) == 1 && Pow2(1) == 2 && Pow2(6) == 0x40 && Pow2(8) == 0x100 && Pow2(9) == 0x200
    ensures Pow2(24) == 0x100_0000 && Pow2(25) == 0x200_0000
  {
    PowerSum(8, 8);
    PowerSum(16, 8);
    PowerSum(16, 9);
    assert Pow2(6) == 0x40 && Pow2(8) == 4 * Pow2(6) && Pow2(9) == 8 * Pow2(6);
  }

  /** The bytes of a word, the least significant first. */
  lemma {:induction false} ByteFields(w: Word, b0: nat, b1: nat, b2: nat, b3: nat)
    requires b0 < 0x100 && b1 < 0x100 && b2 < 0x100 && b3 < 0x100
    requires w == b0 + 0x100 * b1 + 0x1_0000 * b2 + 0x100_0000 * b3
    ensures Field(w, 0, 8) == b0 && Field(w, 8, 8) == b1 && Field(w, 16, 8) == b2 && Field(w, 24, 8) == b3
  {
    hide *;
    Powers();
    MorePowers();
    FieldAt(w, b1 + 0x100 * b2 + 0x1_0000 * b3, b0, 0, 0, 8);
    FieldAt(w, b2 + 0x100 * b3, b1, b0, 8, 8);
    FieldAt(w, b3, b2, b0 + 0x100 * b1, 16, 8);
    FieldAt(w, 0, b3, b0 + 0x100 * b1 + 0x1_0000 * b2, 24, 8);
  }

  /** A disjunction of words is a word. */
  lemma {:induction false} OrWord(a: Word, b: Word)
    ensures Or(a, b) < 0x1_0000_0000
  {
    hide *;
    Powers();
    OrBound(a, b, 32);
  }
}

/** The bit operations of fenwick_tree.h on 32-bit words, against the arithmetic of `FenwickTree`. */
module MachineWords {
  import opened Products
  import opened FenwickTree

  /** `i & -i` obeys the recursion of `LowBit`, and `i & (i - 1)` takes it away. */
  lemma LowBitOfWord(x: bv32)
    requires x != 0
    ensures x & -x == if x & 1 == 1 then 1 else ((x >> 1) & -(x >> 1)) << 1
    ensures x & (x - 1) == x - (x & -x)
  {
  }

  /** One more binary digit. */
  function Append(w: bv32, d: bool): bv32 {
    if d then (w << 1) | 1 else w << 1
  }

  /** The machine word with the binary digits of n. */
  function Word(n: nat): bv32 {
    if n == 0 then 0 else Append(Word(n / 2), n % 2 == 1)
  }

  /** The b lowest bits set. */
  function Ones(b: nat): bv32 {
    if b == 0 then 0 else Append(Ones(b - 1), true)
  }

  predicate Under(w: bv32, m: bv32) {
    w | m == m
  }

  lemma Appended(w: bv32, m: bv32, d: bool)
    requires Under(w, m)
    ensures Under(Append(w, d), Append(m, true))
  {
    Shifted(w, m);
    if d { AppendedOne(w, m); } else { AppendedZero(w, m); }
  }

  lemma AppendedOne(w: bv32, m: bv32)
    requires ((w << 1) | 1) | ((m << 1) | 1) == (m << 1) | 1
    ensures Under(Append(w, true), Append(m, true))
  {
  }

  lemma AppendedZero(w: bv32, m: bv32)
    requires (w << 1) | ((m << 1) | 1) == (m << 1) | 1
    ensures Under(Append(w, false), Append(m, true))
  {
  }

  lemma Shifted(w: bv32, m: bv32)
    requires w | m == m
    ensures ((w << 1) | 1) | ((m << 1) | 1) == (m << 1) | 1
    ensures (w << 1) | ((m << 1) | 1) == (m << 1) | 1
  {
  }

  lemma WordDigits(n: nat)
    ensures Word(n) == Append(Word(n / 2), n % 2 == 1)
  {
  }

  lemma OnesDigits(b: nat)
    ensures Ones(b + 1) == Append(Ones(b), true)
  {
  }

  lemma {:induction false} WordFits(n: nat, b: nat)
    requires n < Pow2(b)
    ensures Under(Word(n), Ones(b))
  {
    hide Append, Under, Word, Ones;
    if b == 0 {
      NoDigits();
    } else {
      WordFits(n / 2, b - 1);
      WordDigits(n);
      OnesDigits(b - 1);
      Appended(Word(n / 2), Ones(b - 1), n % 2 == 1);
    }
  }

  lemma NoDigits()
    ensures Under(Word(0), Ones(0))
  {
  }

  lemma TopClear(n: nat)
    requires n < 0x8000_0000
    ensures Word(n) & 0x8000_0000 == 0
  {
    assert Pow2(8) == 0x100 && Ones(8) == 0xFF;
    assert Pow2(16) == 0x1_0000 && Ones(16) == 0xFFFF;
    assert Pow2(24) == 0x100_0000 && Ones(24) == 0xFF_FFFF;
    assert Pow2(31) == 0x8000_0000;
    assert Ones(31) == 0x7FFF_FFFF;
    WordFits(n, 31);
  }

  lemma DigitsApart(w: bv32, d: bool)
    requires w & 0x8000_0000 == 0
    ensures Append(w, d) >> 1 == w && (Append(w, d) & 1 == 1 <==> d)
    ensures d ==> Append(w, d) != 0
  {
  }

  /** `lowbit` on the words the code computes with: for 31-bit p, `i & -i` is its lowest set bit. */
  lemma {:induction false} LowBitIsWord(p: nat)
    requires 0 < p < 0x8000_0000
    ensures Word(p) != 0 && Word(LowBit(p)) == Word(p) & -Word(p)
  {
    hide Append, Word;
    TopClear(p / 2);
    WordDigits(p);
    DigitsApart(Word(p / 2), p % 2 == 1);
    if p % 2 == 0 {
      LowBitIsWord(p / 2);
      WordDigits(2 * LowBit(p / 2));
      Shifts(Word(LowBit(p / 2)));
      Shifts(Word(p / 2));
    } else { WordOne(); }
    LowBitOfWord(Word(p));
  }

  lemma WordOne()
    ensures Word(1) == 1
  {
  }

  lemma Shifts(w: bv32)
    ensures Append(w, false) == w << 1
    ensures w & 0x8000_0000 == 0 && w != 0 ==> w << 1 != 0
  {
  }
}

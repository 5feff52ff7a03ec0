// 64-bit machine words, their bits, and the arithmetic facts that let one word
// stand for the same bit of 64 rows at once.
module Words {

  const WORD_MOD: nat := 0x1_0000_0000_0000_0000

  type Word = w: int | 0 <= w < 0x1_0000_0000_0000_0000

  const ALL_ONES: Word := 0xFFFF_FFFF_FFFF_FFFF

  function Pow2(n: nat): (p: nat)
    ensures p > 0
  {
    if n == 0 then 1 else 2 * Pow2(n - 1)
  }

  /** Bit i of a natural number, bit 0 being the least significant. */
  predicate Bit(w: nat, i: nat)
    decreases i
  {
    if i == 0 then w % 2 == 1 else Bit(w / 2, i - 1)
  }

  /** Logical shift right. */
  function Shr(w: nat, k: nat): (r: nat)
    ensures r <= w
    decreases k
  {
    if k == 0 then w else Shr(w / 2, k - 1)
  }

  /** The number whose bits are given, least significant first. */
  function Value(bits: seq<bool>): nat {
    if bits == [] then 0 else (if bits[0] then 1 else 0) + 2 * Value(bits[1..])
  }

  lemma {:induction false} ValueBits(bits: seq<bool>, i: nat)
    ensures Value(bits) < Pow2(|bits|)
    ensures Bit(Value(bits), i) == (i < |bits| && bits[i])
    decreases |bits|, i
  {
    if bits == [] {
      if i > 0 { ValueBits(bits, i - 1); }
    } else {
      assert Value(bits) / 2 == Value(bits[1..]);
      ValueBits(bits[1..], if i == 0 then 0 else i - 1);
    }
  }

  lemma Pow2Of64()
    ensures Pow2(64) == WORD_MOD
  {
    Pow2Plus8(0); Pow2Plus8(8); Pow2Plus8(16); Pow2Plus8(24);
    Pow2Plus8(32); Pow2Plus8(40); Pow2Plus8(48); Pow2Plus8(56);
  }

  lemma Pow2Plus8(n: nat)
    ensures Pow2(n + 8) == 256 * Pow2(n)
  {
    assert Pow2(n + 2) == 4 * Pow2(n);
    assert Pow2(n + 4) == 16 * Pow2(n);
    assert Pow2(n + 6) == 64 * Pow2(n);
  }

  /** A word is determined by its low n bits when it is below 2^n. */
  lemma {:induction false} BitsDetermine(a: nat, b: nat, n: nat)
    requires a < Pow2(n) && b < Pow2(n)
    requires forall i | 0 <= i < n :: Bit(a, i) == Bit(b, i)
    ensures a == b
    decreases n
  {
    if n > 0 {
      assert Bit(a, 0) == Bit(b, 0);
      forall i | 0 <= i < n - 1 ensures Bit(a / 2, i) == Bit(b / 2, i) {
        assert Bit(a, i + 1) == Bit(b, i + 1);
      }
      BitsDetermine(a / 2, b / 2, n - 1);
    }
  }

  lemma WordsEqual(a: Word, b: Word)
    requires forall i | 0 <= i < 64 :: Bit(a, i) == Bit(b, i)
    ensures a == b
  {
    Pow2Of64();
    BitsDetermine(a, b, 64);
  }

  /** Packs one bit per row into a word: row r in bit r. */
  function Pack(bits: seq<bool>): (w: Word)
    requires |bits| == 64
    ensures forall i | 0 <= i < 64 :: Bit(w, i) == bits[i]
  {
    assert Value(bits) < WORD_MOD by { Pow2Of64(); ValueBits(bits, 0); }
    assert forall i | 0 <= i < 64 :: Bit(Value(bits), i) == bits[i] by {
      forall i | 0 <= i < 64 ensures Bit(Value(bits), i) == bits[i] { ValueBits(bits, i); }
    }
    Value(bits)
  }

  function And(a: Word, b: Word): (w: Word)
    ensures forall i | 0 <= i < 64 :: Bit(w, i) == (Bit(a, i) && Bit(b, i))
  {
    Pack(seq(64, i requires i >= 0 => Bit(a, i) && Bit(b, i)))
  }

  function Or(a: Word, b: Word): (w: Word)
    ensures forall i | 0 <= i < 64 :: Bit(w, i) == (Bit(a, i) || Bit(b, i))
  {
    Pack(seq(64, i requires i >= 0 => Bit(a, i) || Bit(b, i)))
  }

  function Xor(a: Word, b: Word): (w: Word)
    ensures forall i | 0 <= i < 64 :: Bit(w, i) == (Bit(a, i) != Bit(b, i))
  {
    Pack(seq(64, i requires i >= 0 => Bit(a, i) != Bit(b, i)))
  }

  function Bic(a: Word, b: Word): (w: Word)
    ensures forall i | 0 <= i < 64 :: Bit(w, i) == (Bit(a, i) && !Bit(b, i))
  {
    Pack(seq(64, i requires i >= 0 => Bit(a, i) && !Bit(b, i)))
  }

  /** Bitwise complement, which is also subtraction from the all-ones word. */
  function Not(a: Word): (w: Word)
    ensures w == ALL_ONES - a
    ensures forall i | 0 <= i < 64 :: Bit(w, i) == !Bit(a, i)
  {
    assert forall i | 0 <= i < 64 :: Bit(ALL_ONES - a, i) == !Bit(a, i) by {
      Pow2Of64();
      forall i | 0 <= i < 64 ensures Bit(ALL_ONES - a, i) == !Bit(a, i) { ComplementBit(a, 64, i); }
    }
    ALL_ONES - a
  }

  lemma {:induction false} ComplementBit(a: nat, n: nat, i: nat)
    requires i < n && a < Pow2(n)
    ensures Bit(Pow2(n) - 1 - a, i) == !Bit(a, i)
    decreases n
  {
    if i > 0 {
      assert (Pow2(n) - 1 - a) / 2 == Pow2(n - 1) - 1 - a / 2;
      ComplementBit(a / 2, n - 1, i - 1);
    }
  }

  /** Logical shift left of a machine word: the bits pushed out are lost. */
  function Shl(a: Word, k: nat): (w: Word)
    ensures forall i | 0 <= i < 64 :: Bit(w, i) == (i >= k && Bit(a, i - k))
  {
    Pack(seq(64, i requires i >= 0 => i >= k && Bit(a, i - k)))
  }

  lemma ConstantBits(i: nat)
    ensures !Bit(0, i)
    ensures i < 64 ==> Bit(ALL_ONES, i)
    ensures Bit(1, i) == (i == 0)
  {
    ZeroBit(i);
    if i > 0 { ZeroBit(i - 1); }
    if i < 64 { assert Bit(Not(0), i); }
  }

  lemma {:induction false} LowOnes(n: nat, i: nat)
    ensures Bit(Pow2(n) - 1, i) == (i < n)
    decreases n
  {
    if n == 0 {
      ZeroBit(i);
    } else if i > 0 {
      LowOnes(n - 1, i - 1);
    }
  }

  lemma {:induction false} ZeroBit(i: nat)
    ensures !Bit(0, i)
  {
    if i > 0 { ZeroBit(i - 1); }
  }

  // ----- shifts -----

  lemma {:induction false} ShrBit(w: nat, k: nat, i: nat)
    ensures Bit(Shr(w, k), i) == Bit(w, k + i)
    decreases k
  {
    if k > 0 { ShrBit(w / 2, k - 1, i); }
  }

  /** Dropping k bits, written with one bit more or one bit less dropped. */
  lemma {:induction false} ShrStep(w: nat, k: nat)
    ensures Shr(w, k) == 2 * Shr(w, k + 1) + (if Bit(w, k) then 1 else 0)
    decreases k
  {
    if k > 0 { ShrStep(w / 2, k - 1); }
  }

  lemma {:induction false} ShrAll(w: nat, n: nat)
    requires w < Pow2(n)
    ensures Shr(w, n) == 0
    decreases n
  {
    if n > 0 { ShrAll(w / 2, n - 1); }
  }

  /** The low n bits of a number; zero means aligned to 2^n. */
  function Low(w: nat, n: nat): (r: nat)
    ensures r < Pow2(n)
    decreases n
  {
    if n == 0 then 0 else w % 2 + 2 * Low(w / 2, n - 1)
  }

  lemma {:induction false} LowBit(w: nat, n: nat, i: nat)
    ensures Bit(Low(w, n), i) == (i < n && Bit(w, i))
    decreases n, i
  {
    if n == 0 {
      ZeroBit(i);
    } else if i > 0 {
      assert Low(w, n) / 2 == Low(w / 2, n - 1);
      LowBit(w / 2, n - 1, i - 1);
    }
  }

  lemma {:induction false} SplitAt(w: nat, n: nat)
    ensures w == Pow2(n) * Shr(w, n) + Low(w, n)
    decreases n
  {
    if n > 0 {
      SplitAt(w / 2, n - 1);
      Doubled(Pow2(n - 1), Shr(w, n));
    }
  }

  lemma Doubled(p: nat, q: nat)
    ensures (2 * p) * q == 2 * (p * q)
  {
  }

  lemma LowIsMod(w: nat, n: nat)
    ensures Low(w, n) == w % Pow2(n)
  {
    SplitAt(w, n);
    ModUnique(w, Pow2(n), Shr(w, n), Low(w, n));
  }

  lemma MulMono(p: nat, x: int, y: int)
    requires x <= y
    ensures p * x <= p * y
  {
  }

  lemma ModUnique(w: nat, p: nat, q: nat, r: nat)
    requires r < p && w == p * q + r
    ensures w % p == r && w / p == q
  {
    var q', r' := w / p, w % p;
    var d := q - q';
    assert p * d == r' - r by {
      assert w == p * q' + r';
      assert p * q - p * q' == p * d;
    }
    if d >= 1 { assert p * d >= p * 1 by { MulMono(p, 1, d); } }
  }

  lemma {:induction false} ScaledBit(w: nat, k: nat, i: nat)
    ensures Bit(w * Pow2(k), i) == (i >= k && Bit(w, i - k))
    decreases k
  {
    if k > 0 {
      assert w * Pow2(k) == 2 * (w * Pow2(k - 1));
      if i > 0 { ScaledBit(w, k - 1, i - 1); }
    }
  }

  lemma WrappedBit(x: nat, i: nat)
    requires i < 64
    ensures Bit(x % WORD_MOD, i) == Bit(x, i)
  {
    Pow2Of64();
    LowIsMod(x, 64);
    LowBit(x, 64, i);
  }

  /** Shifting left by k multiplies by 2^k modulo 2^64. */
  lemma ShlScales(w: Word, k: nat)
    ensures Shl(w, k) == (w * Pow2(k)) % WORD_MOD
  {
    forall i | 0 <= i < 64 ensures Bit(Shl(w, k), i) == Bit((w * Pow2(k)) % WORD_MOD, i) {
      WrappedBit(w * Pow2(k), i);
      ScaledBit(w, k, i);
    }
    WordsEqual(Shl(w, k), (w * Pow2(k)) % WORD_MOD);
  }

  /** Turning a bit number into a byte offset. */
  lemma ShlByThree(w: Word)
    requires w < 64
    ensures Shl(w, 3) == 8 * w
  {
    ShlScales(w, 3);
    assert Pow2(3) == 8 by { assert Pow2(1) == 2; }
  }

  // ----- ripple-carry addition -----

  predicate Majority(a: bool, b: bool, c: bool) {
    (a && b) || ((a != b) && c)
  }

  /** The carry into position k when a and b are added with carry-in c. */
  predicate Carry(a: nat, b: nat, c: bool, k: nat)
    decreases k
  {
    if k == 0 then c
    else Carry(a / 2, b / 2, Majority(a % 2 == 1, b % 2 == 1, c), k - 1)
  }

  function Int(b: bool): nat {
    if b then 1 else 0
  }

  /** One full-adder position: the next carry is the majority of the two bits and the carry. */
  lemma {:induction false} CarryStep(a: nat, b: nat, c: bool, k: nat)
    ensures Carry(a, b, c, k + 1) == Majority(Bit(a, k), Bit(b, k), Carry(a, b, c, k))
    decreases k
  {
    if k > 0 {
      CarryStep(a / 2, b / 2, Majority(a % 2 == 1, b % 2 == 1, c), k - 1);
    }
  }

  /** Bit k of the sum is the parity of the two bits and the carry. */
  lemma {:induction false} SumBit(a: nat, b: nat, c: bool, k: nat)
    ensures Bit(a + b + Int(c), k) == ((Bit(a, k) != Bit(b, k)) != Carry(a, b, c, k))
    decreases k
  {
    if k > 0 {
      var c' := Majority(a % 2 == 1, b % 2 == 1, c);
      assert (a + b + Int(c)) / 2 == a / 2 + b / 2 + Int(c');
      SumBit(a / 2, b / 2, c', k - 1);
    }
  }

  /** What the carry means: the low k bits of the two addends overflow 2^k. */
  lemma {:induction false} CarryIsOverflow(a: nat, b: nat, c: bool, k: nat)
    ensures Carry(a, b, c, k) == (Low(a, k) + Low(b, k) + Int(c) >= Pow2(k))
    decreases k
  {
    if k > 0 {
      CarryIsOverflow(a / 2, b / 2, Majority(a % 2 == 1, b % 2 == 1, c), k - 1);
    }
  }

  /** Subtraction is addition of the complement with carry-in one; carry-in zero is one less. */
  lemma ComplementSubtracts(a: Word, b: Word)
    ensures (a + Not(b) + 1) % WORD_MOD == (a - b) % WORD_MOD
    ensures (a + Not(b)) % WORD_MOD == (a - b - 1) % WORD_MOD
    ensures (a + Not(b)) % WORD_MOD != (a - b) % WORD_MOD
  {
  }

  // ----- counting -----

  /** How many of the low k bits are set; PopCount is the whole word. */
  function PopUpTo(w: Word, k: nat): nat {
    if k == 0 then 0 else PopUpTo(w, k - 1) + Int(Bit(w, k - 1))
  }

  function PopCount(w: Word): nat {
    PopUpTo(w, 64)
  }

  // ----- signed constants -----

  type Int64 = x: int | -0x8000_0000_0000_0000 <= x < 0x8000_0000_0000_0000

  /** The two's-complement word of a signed constant. */
  function ToWord(x: Int64): Word {
    if x < 0 then x + WORD_MOD else x
  }

  /** Arithmetic shift right of a signed number, one floor-halving per position. */
  function Asr(x: int, k: nat): int
    decreases k
  {
    if k == 0 then x else Asr(x / 2, k - 1)
  }

  lemma {:induction false} AsrBit(x: int, n: nat, i: nat)
    requires i < n && 0 <= x + Pow2(n)
    ensures (Asr(x, i) % 2 == 1) == Bit(if x < 0 then x + Pow2(n) else x, i)
    decreases n
  {
    if i > 0 {
      AsrBit(x / 2, n - 1, i - 1);
      if x < 0 { assert (x + Pow2(n)) / 2 == x / 2 + Pow2(n - 1); }
    }
  }
}

// The in-place 64x64 bit transpose: six butterfly stages over an array of 64 words.
// Stage j pairs row i with row i + 2^j and exchanges half of their bits; it swaps
// bit j of the row number with bit j of the column number.
module BitSlicer {
  import opened Words

  // ----- positions -----

  /** Adding 2^j to a position whose bit j is clear sets that bit and keeps the position in range. */
  lemma {:induction false} SetBit(p: nat, j: nat, n: nat)
    requires j < n && p < Pow2(n) && !Bit(p, j)
    ensures p + Pow2(j) < Pow2(n) && Bit(p + Pow2(j), j)
    decreases j
  {
    if j > 0 {
      assert (p + Pow2(j)) / 2 == p / 2 + Pow2(j - 1);
      SetBit(p / 2, j - 1, n - 1);
    }
  }

  lemma {:induction false} ClearBit(p: nat, j: nat)
    requires Bit(p, j)
    ensures p >= Pow2(j) && !Bit(p - Pow2(j), j)
    decreases j
  {
    if j > 0 {
      ClearBit(p / 2, j - 1);
      assert (p - Pow2(j)) / 2 == p / 2 - Pow2(j - 1);
    }
  }

  /** In a block aligned to 2^(j+1), the upper half has bit j set. */
  lemma {:induction false} BlockBit(b: nat, o: nat, j: nat)
    requires Low(b, j + 1) == 0 && o < 2 * Pow2(j)
    ensures Bit(b + o, j) == (o >= Pow2(j))
    decreases j
  {
    if j > 0 {
      assert (b + o) / 2 == b / 2 + o / 2;
      BlockBit(b / 2, o / 2, j - 1);
    }
  }

  /** An aligned position leaves room for a whole aligned block, and the next block is aligned. */
  lemma {:induction false} BlockFits(b: nat, k: nat, n: nat)
    requires Low(b, k) == 0 && b < Pow2(n) && k <= n
    ensures b + Pow2(k) <= Pow2(n) && Low(b + Pow2(k), k) == 0
    decreases k
  {
    if k > 0 {
      assert (b + Pow2(k)) / 2 == b / 2 + Pow2(k - 1);
      BlockFits(b / 2, k - 1, n - 1);
    } else {
      assert b + 1 <= Pow2(n);
    }
  }

  lemma SixBits()
    ensures Pow2(6) == 64
  {
    assert Pow2(2) == 4;
    assert Pow2(4) == 16;
  }

  /** Bits j and up of c, bits below j of i. */
  function Mix(i: nat, c: nat, j: nat): nat
    decreases j
  {
    if j == 0 then c else 2 * Mix(i / 2, c / 2, j - 1) + i % 2
  }

  /** One stage carries the exchange from bits above j down to bit j. */
  lemma {:induction false} MixStep(i: nat, c: nat, j: nat)
    requires Bit(i, j) == Bit(c, j)
    ensures Mix(i, c, j + 1) == Mix(i, c, j)
    decreases j
  {
    if j > 0 { MixStep(i / 2, c / 2, j - 1); }
  }

  lemma {:induction false} MixStepUp(i: nat, c: nat, j: nat)
    requires !Bit(i, j) && Bit(c, j)
    ensures c >= Pow2(j) && Mix(i + Pow2(j), c - Pow2(j), j + 1) == Mix(i, c, j)
    decreases j
  {
    ClearBit(c, j);
    if j > 0 {
      MixStepUp(i / 2, c / 2, j - 1);
      assert (i + Pow2(j)) / 2 == i / 2 + Pow2(j - 1);
      assert (c - Pow2(j)) / 2 == c / 2 - Pow2(j - 1);
    }
  }

  lemma {:induction false} MixStepDown(i: nat, c: nat, j: nat)
    requires Bit(i, j) && !Bit(c, j)
    ensures i >= Pow2(j) && Mix(i - Pow2(j), c + Pow2(j), j + 1) == Mix(i, c, j)
    decreases j
  {
    ClearBit(i, j);
    if j > 0 {
      MixStepDown(i / 2, c / 2, j - 1);
      assert (i - Pow2(j)) / 2 == i / 2 - Pow2(j - 1);
      assert (c + Pow2(j)) / 2 == c / 2 + Pow2(j - 1);
    }
  }

  lemma {:induction false} MixEnds(i: nat, c: nat, n: nat)
    requires i < Pow2(n) && c < Pow2(n)
    ensures Mix(i, c, n) == i
    decreases n
  {
    if n > 0 { MixEnds(i / 2, c / 2, n - 1); }
  }

  lemma {:induction false} MixInRange(i: nat, c: nat, j: nat, n: nat)
    requires i < Pow2(n) && c < Pow2(n) && j <= n
    ensures Mix(i, c, j) < Pow2(n)
    decreases j
  {
    if j > 0 { MixInRange(i / 2, c / 2, j - 1, n - 1); }
  }

  // ----- stage masks -----

  /** A stage mask selects exactly the columns whose bit j is clear. */
  ghost predicate SelectsLower(mask: Word, j: nat) {
    forall c | 0 <= c < 64 :: Bit(mask, c) == !Bit(c, j)
  }

  /** A word whose complement is itself shifted by 2^j alternates in runs of 2^j bits. */
  lemma {:induction false} AlternatingBit(mask: Word, j: nat, c: nat)
    requires c < 64 && Not(mask) == Shl(mask, Pow2(j))
    ensures Bit(mask, c) == !Bit(c, j)
    decreases c
  {
    var s := Pow2(j);
    assert Bit(Shl(mask, s), c) == (c >= s && Bit(mask, c - s));
    assert Bit(Not(mask), c) == !Bit(mask, c);
    if c >= s {
      AlternatingBit(mask, j, c - s);
      FlipBit(c - s, j);
    } else if Bit(c, j) {
      ClearBit(c, j);
    }
  }

  lemma {:induction false} FlipBit(p: nat, j: nat)
    ensures Bit(p + Pow2(j), j) == !Bit(p, j)
    decreases j
  {
    if j > 0 {
      assert (p + Pow2(j)) / 2 == p / 2 + Pow2(j - 1);
      FlipBit(p / 2, j - 1);
    }
  }

  function StageMask(j: nat): Word
    requires j < 6
  {
    if j == 5 then 0x00000000FFFFFFFF
    else if j == 4 then 0x0000FFFF0000FFFF
    else if j == 3 then 0x00FF00FF00FF00FF
    else if j == 2 then 0x0F0F0F0F0F0F0F0F
    else if j == 1 then 0x3333333333333333
    else 0x5555555555555555
  }

  lemma StageMaskAlternates(j: nat)
    requires j < 6
    ensures Not(StageMask(j)) == Shl(StageMask(j), Pow2(j))
  {
    ShlScales(StageMask(j), Pow2(j));
    Pow2Plus8(0);
    if j < 3 {
      assert Pow2(1) == 2 && Pow2(2) == 4 && Pow2(4) == 16;
    } else if j == 3 {
      assert Pow2(3) == 8 by { assert Pow2(1) == 2; }
    } else {
      Pow2Plus8(8);
      if j == 5 {
        Pow2Plus8(16);
        Pow2Plus8(24);
      }
      assert Pow2(4) == 16 by { assert Pow2(2) == 4; }
    }
  }

  /** The six literal masks are the right ones for their strides. */
  lemma StageMaskSelectsLower(j: nat)
    requires j < 6
    ensures SelectsLower(StageMask(j), j)
  {
    StageMaskAlternates(j);
    hide StageMask;
    forall c | 0 <= c < 64 ensures Bit(StageMask(j), c) == !Bit(c, j) {
      AlternatingBit(StageMask(j), j, c);
    }
  }

  // ----- one butterfly stage -----

  /** The bits that the pair of words (lo, hi) exchanges at distance s. */
  function Exchanged(lo: Word, hi: Word, s: nat, mask: Word): Word {
    And(Xor(Shr(lo, s), hi), mask)
  }

  /** The two words of a pair after the exchange. */
  function LowWord(lo: Word, hi: Word, j: nat): Word
    requires j < 6
  {
    Xor(lo, Shl(Exchanged(lo, hi, Pow2(j), StageMask(j)), Pow2(j)))
  }

  function HighWord(lo: Word, hi: Word, j: nat): Word
    requires j < 6
  {
    Xor(hi, Exchanged(lo, hi, Pow2(j), StageMask(j)))
  }

  function StageAt(a: seq<Word>, j: nat, i: nat): Word
    requires |a| == 64 && j < 6 && i < 64
  {
    if Bit(i, j) then
      ClearBit(i, j);
      HighWord(a[i - Pow2(j)], a[i], j)
    else
      SixBits(); SetBit(i, j, 6);
      LowWord(a[i], a[i + Pow2(j)], j)
  }

  /** The array after the stage of stride 2^j. */
  function Stage(a: seq<Word>, j: nat): (r: seq<Word>)
    requires |a| == 64 && j < 6
  {
    seq(64, i requires 0 <= i < 64 => StageAt(a, j, i))
  }

  /** Bit (i, c) after a stage: where the row and column numbers differ in bit j, both flip it. */
  ghost predicate SwapsBit(a: seq<Word>, after: seq<Word>, j: nat, i: nat, c: nat)
    requires |a| == |after| == 64 && i < 64 && c < 64
  {
    (Bit(i, j) == Bit(c, j) ==> Bit(after[i], c) == Bit(a[i], c))
    && (!Bit(i, j) && Bit(c, j) ==>
          i + Pow2(j) < 64 && c >= Pow2(j) && Bit(after[i], c) == Bit(a[i + Pow2(j)], c - Pow2(j)))
    && (Bit(i, j) && !Bit(c, j) ==>
          i >= Pow2(j) && c + Pow2(j) < 64 && Bit(after[i], c) == Bit(a[i - Pow2(j)], c + Pow2(j)))
  }

  /** A stage swaps bit j of the row number with bit j of the column number. */
  lemma StageSwapsBit(a: seq<Word>, j: nat, i: nat, c: nat)
    requires |a| == 64 && j < 6 && i < 64 && c < 64
    ensures SwapsBit(a, Stage(a, j), j, i, c)
  {
    SixBits();
    if Bit(c, j) { ClearBit(c, j); } else { SetBit(c, j, 6); }
    if Bit(i, j) {
      ClearBit(i, j);
      HighWordBit(a[i - Pow2(j)], a[i], j, c);
    } else {
      SetBit(i, j, 6);
      LowWordBit(a[i], a[i + Pow2(j)], j, c);
    }
  }

  lemma ExchangedBit(lo: Word, hi: Word, j: nat, c: nat)
    requires j < 6 && c < 64
    ensures Bit(Exchanged(lo, hi, Pow2(j), StageMask(j)), c) ==
            (!Bit(c, j) && Bit(lo, Pow2(j) + c) != Bit(hi, c))
  {
    StageMaskSelectsLower(j);
    assert Bit(StageMask(j), c) == !Bit(c, j);
    ShrBit(lo, Pow2(j), c);
    hide StageMask, Shr;
  }

  lemma HighWordBit(lo: Word, hi: Word, j: nat, c: nat)
    requires j < 6 && c < 64
    ensures Bit(c, j) ==> Bit(HighWord(lo, hi, j), c) == Bit(hi, c)
    ensures !Bit(c, j) ==> Bit(HighWord(lo, hi, j), c) == Bit(lo, c + Pow2(j))
  {
    hide StageMask, Exchanged, Pow2;
    ExchangedBit(lo, hi, j, c);
  }

  lemma LowWordBit(lo: Word, hi: Word, j: nat, c: nat)
    requires j < 6 && c < 64
    ensures !Bit(c, j) ==> Bit(LowWord(lo, hi, j), c) == Bit(lo, c)
    ensures Bit(c, j) ==> c >= Pow2(j) && Bit(LowWord(lo, hi, j), c) == Bit(hi, c - Pow2(j))
  {
    hide StageMask, Exchanged, Pow2;
    var s := Pow2(j);
    var x := Exchanged(lo, hi, s, StageMask(j));
    if Bit(c, j) { ClearBit(c, j); }
    assert Bit(Shl(x, s), c) == (c >= s && Bit(x, c - s));
    if c >= s {
      ExchangedBit(lo, hi, j, c - s);
      FlipBit(c - s, j);
    }
  }

  /** Positions k..k+lanes are all lower halves of their pairs. */
  ghost predicate LowerRun(k: nat, lanes: nat, j: nat) {
    forall p | k <= p < k + lanes :: Lower(p, j)
  }

  predicate Lower(p: nat, j: nat) {
    !Bit(p, j) && Bit(p + Pow2(j), j)
  }

  /** Stores a vector of consecutive words. */
  method Store(a: array<Word>, at: nat, v: seq<Word>)
    requires at + |v| <= a.Length
    modifies a
    ensures forall p | 0 <= p < a.Length :: a[p] == if at <= p < at + |v| then v[p - at] else old(a[p])
  {
    forall l | 0 <= l < |v| { a[at + l] := v[l]; }
  }

  /** One vector step: `lanes` words from k on, each with its partner 2^j further. */
  method ButterflyLanes(a: array<Word>, j: nat, k: nat, lanes: nat)
    requires a.Length == 64 && j < 6
    requires lanes <= Pow2(j) && k + lanes + Pow2(j) <= 64 && LowerRun(k, lanes, j)
    modifies a
    ensures forall p | 0 <= p < 64 :: a[p] == AfterVector(old(a[..]), j, k, lanes, p)
  {
    hide LowWord, HighWord, AfterVector, Bit;
    ghost var was := a[..];
    var s := Pow2(j);
    var va, vb := a[k..k + lanes], a[k + s..k + s + lanes];
    var hi := seq(lanes, l requires 0 <= l < lanes => HighWord(va[l], vb[l], j));
    var lo := seq(lanes, l requires 0 <= l < lanes => LowWord(va[l], vb[l], j));
    Store(a, k + s, hi);
    Store(a, k, lo);
    VectorStored(was, a[..], lo, hi, j, k, lanes);
  }

  lemma VectorStored(was: seq<Word>, now: seq<Word>, lo: seq<Word>, hi: seq<Word>, j: nat, k: nat, lanes: nat)
    requires |was| == |now| == 64 && |lo| == |hi| == lanes && j < 6
    requires lanes <= Pow2(j) && k + lanes + Pow2(j) <= 64 && LowerRun(k, lanes, j)
    requires forall l | 0 <= l < lanes ::
        lo[l] == LowWord(was[k..k + lanes][l], was[k + Pow2(j)..k + Pow2(j) + lanes][l], j)
    requires forall l | 0 <= l < lanes ::
        hi[l] == HighWord(was[k..k + lanes][l], was[k + Pow2(j)..k + Pow2(j) + lanes][l], j)
    requires forall p | 0 <= p < 64 ::
               now[p] == if k <= p < k + lanes then lo[p - k]
                         else if k + Pow2(j) <= p < k + Pow2(j) + lanes then hi[p - k - Pow2(j)]
                         else was[p]
    ensures forall p | 0 <= p < 64 :: now[p] == AfterVector(was, j, k, lanes, p)
  {
    hide LowWord, HighWord;
    forall p | 0 <= p < 64 ensures now[p] == AfterVector(was, j, k, lanes, p) {
      VectorWord(was, j, k, lanes, p);
    }
  }

  /** The word at p once the vector step at k is done. */
  function AfterVector(was: seq<Word>, j: nat, k: nat, lanes: nat, p: nat): Word
    requires |was| == 64 && j < 6 && p < 64
  {
    if k <= p < k + lanes || k + Pow2(j) <= p < k + Pow2(j) + lanes then StageAt(was, j, p) else was[p]
  }

  lemma VectorWord(was: seq<Word>, j: nat, k: nat, lanes: nat, p: nat)
    requires |was| == 64 && j < 6 && p < 64
    requires lanes <= Pow2(j) && k + lanes + Pow2(j) <= 64 && LowerRun(k, lanes, j)
    ensures k <= p < k + lanes ==> AfterVector(was, j, k, lanes, p) == LowWord(was[p], was[p + Pow2(j)], j)
    ensures k + Pow2(j) <= p < k + Pow2(j) + lanes ==>
              AfterVector(was, j, k, lanes, p) == HighWord(was[p - Pow2(j)], was[p], j)
  {
    hide LowWord, HighWord;
    if k <= p < k + lanes {
      assert Lower(p, j);
    } else if k + Pow2(j) <= p < k + Pow2(j) + lanes {
      assert Lower(p - Pow2(j), j);
    }
  }

  /** Within a stage: blocks before `block` are done, and in this block the pairs before k are. */
  ghost predicate Progress(was: seq<Word>, now: seq<Word>, j: nat, block: nat, k: nat)
    requires |was| == |now| == 64 && j < 6
  {
    forall p | 0 <= p < 64 :: now[p] == if Done(j, block, k, p) then StageAt(was, j, p) else was[p]
  }

  predicate Done(j: nat, block: nat, k: nat, p: nat) {
    p < k || block + Pow2(j) <= p < k + Pow2(j)
  }

  lemma VectorAdvances(was: seq<Word>, now: seq<Word>, next: seq<Word>, j: nat, block: nat, k: nat, lanes: nat)
    requires |was| == |now| == |next| == 64 && j < 6 && block <= k
    requires k + lanes <= block + Pow2(j) && block + 2 * Pow2(j) <= 64 && LowerRun(k, lanes, j)
    requires Progress(was, now, j, block, k)
    requires forall p | 0 <= p < 64 :: next[p] == AfterVector(now, j, k, lanes, p)
    ensures Progress(was, next, j, block, k + lanes)
  {
    SameStage(was, now, j, k, lanes);
    hide StageAt, LowerRun;
  }

  /** One block of a stage: its lower half in vectors of 2^e words. */
  method RunBlock(a: array<Word>, j: nat, e: nat, block: nat, ghost was: seq<Word>)
    requires a.Length == |was| == 64 && e <= j < 6
    requires Low(block, j + 1) == 0 && block + 2 * Pow2(j) <= 64
    requires Progress(was, a[..], j, block, block)
    modifies a
    ensures Progress(was, a[..], j, block, block + Pow2(j))
  {
    hide StageAt, AfterVector, Bit;
    var k, lanes := block, Pow2(e);
    AlignedZero(e);
    while k < block + Pow2(j)
      invariant block <= k <= block + Pow2(j) && Low(k - block, e) == 0
      invariant Progress(was, a[..], j, block, k)
      decreases block + Pow2(j) - k
    {
      BlockFits(k - block, e, j);
      PairedLanes(block, j, k, lanes);
      ghost var now := a[..];
      ButterflyLanes(a, j, k, lanes);
      VectorAdvances(was, now, a[..], j, block, k, lanes);
      k := k + lanes;
    }
  }

  /** A whole stage; the result does not depend on the lane count 2^e. */
  method RunStage(a: array<Word>, j: nat, e: nat)
    requires a.Length == 64 && e <= j < 6
    modifies a
    ensures a[..] == Stage(old(a[..]), j)
  {
    hide StageAt;
    ghost var was := a[..];
    var block := 0;
    AlignedZero(j + 1);
    SixBits();
    while block < 64
      invariant Low(block, j + 1) == 0 && block <= 64
      invariant Progress(was, a[..], j, block, block)
      decreases 64 - block
    {
      BlockFits(block, j + 1, 6);
      RunBlock(a, j, e, block, was);
      block := block + 2 * Pow2(j);
    }
  }

  lemma {:induction false} AlignedZero(k: nat)
    ensures Low(0, k) == 0
  {
    if k > 0 { AlignedZero(k - 1); }
  }

  lemma SameStage(was: seq<Word>, now: seq<Word>, j: nat, k: nat, lanes: nat)
    requires |was| == |now| == 64 && j < 6
    requires lanes <= Pow2(j) && k + lanes + Pow2(j) <= 64 && LowerRun(k, lanes, j)
    requires forall p | k <= p < k + lanes || k + Pow2(j) <= p < k + Pow2(j) + lanes :: now[p] == was[p]
    ensures forall p | k <= p < k + lanes || k + Pow2(j) <= p < k + Pow2(j) + lanes ::
              StageAt(now, j, p) == StageAt(was, j, p)
  {
    forall p | k <= p < k + lanes || k + Pow2(j) <= p < k + Pow2(j) + lanes
      ensures StageAt(now, j, p) == StageAt(was, j, p)
    {
      if k <= p < k + lanes {
        assert Lower(p, j);
      } else {
        assert Lower(p - Pow2(j), j);
      }
    }
  }

  lemma PairedLanes(block: nat, j: nat, k: nat, lanes: nat)
    requires Low(block, j + 1) == 0 && block <= k && k + lanes <= block + Pow2(j)
    ensures LowerRun(k, lanes, j)
  {
    forall p | k <= p < k + lanes ensures Lower(p, j) {
      BlockBit(block, p - block, j);
      BlockBit(block, p - block + Pow2(j), j);
    }
  }

  // ----- the six stages -----

  /** The transpose: bit c of word i is bit i of word c. */
  function Transpose(a: seq<Word>): (t: seq<Word>)
    requires |a| == 64
    ensures |t| == 64
    ensures forall i, c | 0 <= i < 64 && 0 <= c < 64 :: Bit(t[i], c) == Bit(a[c], i)
  {
    var t := seq(64, i requires 0 <= i < 64 => RowOfBits(a, i));
    assert forall i | 0 <= i < 64 :: t[i] == RowOfBits(a, i);
    t
  }

  function RowOfBits(a: seq<Word>, i: nat): (w: Word)
    requires |a| == 64
    ensures forall c | 0 <= c < 64 :: Bit(w, c) == Bit(a[c], i)
  {
    Pack(seq(64, c requires 0 <= c < 64 => Bit(a[c], i)))
  }

  /** Bits j and up of the row and column numbers have been exchanged. */
  ghost predicate ExchangedDownTo(was: seq<Word>, now: seq<Word>, j: nat)
    requires |was| == |now| == 64
  {
    forall i, c | 0 <= i < 64 && 0 <= c < 64 :: BitMoved(was, now, j, i, c)
  }

  ghost predicate BitMoved(was: seq<Word>, now: seq<Word>, j: nat, i: nat, c: nat)
    requires |was| == |now| == 64 && i < 64 && c < 64
  {
    Mix(i, c, j) < 64 && Bit(now[i], c) == Bit(was[Mix(i, c, j)], Mix(c, i, j))
  }

  lemma StageExchanges(was: seq<Word>, now: seq<Word>, j: nat)
    requires |was| == |now| == 64 && j < 6 && ExchangedDownTo(was, now, j + 1)
    ensures ExchangedDownTo(was, Stage(now, j), j)
  {
    forall i, c | 0 <= i < 64 && 0 <= c < 64 ensures BitMoved(was, Stage(now, j), j, i, c) {
      StageSwapsBit(now, j, i, c);
      SwapMovesBit(was, now, Stage(now, j), j, i, c);
    }
  }

  lemma SwapMovesBit(was: seq<Word>, now: seq<Word>, after: seq<Word>, j: nat, i: nat, c: nat)
    requires |was| == |now| == |after| == 64 && j < 6 && i < 64 && c < 64
    requires ExchangedDownTo(was, now, j + 1) && SwapsBit(now, after, j, i, c)
    ensures BitMoved(was, after, j, i, c)
  {
    MixInRange(i, c, j, 6) by { SixBits(); }
    hide Bit, Mix, Pow2;
    if Bit(i, j) == Bit(c, j) {
      MixStep(i, c, j);
      MixStep(c, i, j);
      assert BitMoved(was, now, j + 1, i, c);
    } else if Bit(c, j) {
      MixStepUp(i, c, j);
      MixStepDown(c, i, j);
      assert BitMoved(was, now, j + 1, i + Pow2(j), c - Pow2(j));
    } else {
      MixStepDown(i, c, j);
      MixStepUp(c, i, j);
      assert BitMoved(was, now, j + 1, i - Pow2(j), c + Pow2(j));
    }
  }

  lemma ExchangeStarts(a: seq<Word>)
    requires |a| == 64
    ensures ExchangedDownTo(a, a, 6)
  {
    SixBits();
    forall i, c | 0 <= i < 64 && 0 <= c < 64 ensures BitMoved(a, a, 6, i, c) {
      MixEnds(i, c, 6);
      MixEnds(c, i, 6);
    }
  }

  lemma ExchangeEnds(was: seq<Word>, now: seq<Word>)
    requires |was| == |now| == 64 && ExchangedDownTo(was, now, 0)
    ensures now == Transpose(was)
  {
    forall i | 0 <= i < 64 ensures now[i] == Transpose(was)[i] {
      forall c | 0 <= c < 64 ensures Bit(now[i], c) == Bit(Transpose(was)[i], c) {
        assert BitMoved(was, now, 0, i, c);
      }
      WordsEqual(now[i], Transpose(was)[i]);
    }
  }

  /** The six butterfly stages compose to the transpose. */
  lemma StagesTranspose(a: seq<Word>)
    requires |a| == 64
    ensures Stage(Stage(Stage(Stage(Stage(Stage(a, 5), 4), 3), 2), 1), 0) == Transpose(a)
  {
    var a5 := Stage(a, 5);
    var a4 := Stage(a5, 4);
    var a3 := Stage(a4, 3);
    var a2 := Stage(a3, 2);
    var a1 := Stage(a2, 1);
    ExchangeStarts(a);
    StageExchanges(a, a, 5);
    StageExchanges(a, a5, 4);
    StageExchanges(a, a4, 3);
    StageExchanges(a, a3, 2);
    StageExchanges(a, a2, 1);
    StageExchanges(a, a1, 0);
    ExchangeEnds(a, Stage(a1, 0));
  }

  /** Transposing twice gives the original words back. */
  lemma TransposeTwice(a: seq<Word>)
    requires |a| == 64
    ensures Transpose(Transpose(a)) == a
  {
    forall i | 0 <= i < 64 ensures Transpose(Transpose(a))[i] == a[i] {
      forall c | 0 <= c < 64 ensures Bit(Transpose(Transpose(a))[i], c) == Bit(a[i], c) {
      }
      WordsEqual(Transpose(Transpose(a))[i], a[i]);
    }
  }

  /** On a machine with 2^e lanes, a stage of stride 2^j uses no more lanes than its stride. */
  function Capped(e: nat, j: nat): (lanes: nat)
    ensures lanes <= e && lanes <= j && (lanes == e || lanes == j)
  {
    if e < j then e else j
  }

  /** The in-place transpose, for any power-of-two vector width. */
  method Transpose64x64(a: array<Word>, e: nat)
    requires a.Length == 64
    modifies a
    ensures a[..] == Transpose(old(a[..]))
  {
    StagesTranspose(a[..]);
    RunStage(a, 5, Capped(e, 5));
    RunStage(a, 4, Capped(e, 4));
    RunStage(a, 3, Capped(e, 3));
    RunStage(a, 2, Capped(e, 2));
    RunStage(a, 1, Capped(e, 1));
    RunStage(a, 0, 0);
  }

  /** Copies the input and transposes the copy; input and output may be the same buffer. */
  method Slice(input: array<Word>, output: array<Word>, e: nat)
    requires input.Length == output.Length == 64
    modifies output
    ensures output[..] == Transpose(old(input[..]))
  {
    forall i | 0 <= i < 64 { output[i] := input[i]; }
    assert output[..] == old(input[..]);
    Transpose64x64(output, e);
  }
}

/** The share encoder `generateVisualCryptography` (index.js:47-80): one
    mask in, two grids of 2x2 sub-pixel patterns out. */
module Encoder {
  import opened Params
  import opened Wrappers
  import opened Patterns

  /** Rows of 0/1 cells; 1 is foreground (text). */
  type Mask = seq<seq<Bit>>

  /** Rows of sub-pixel patterns, one per mask cell. */
  type Share = seq<seq<Pattern>>

  /** The per-cell coin of line 69: `rand(y, x)` is 0 exactly when the
      `Math.random()` call made for cell (y, x) returned less than 0.5. */
  type Coins = (nat, nat) -> Bit

  datatype Shares = Shares(share1: Share, share2: Share)

  /** `mask[0].length` on an empty mask throws a TypeError. */
  datatype EncodeError = EmptyMask

  /** `mask[y][x] === 1` of line 70. A cell beyond the end of a short row
      reads `undefined`, which is not `1`, so it is treated as background. */
  function Pixel(mask: Mask, y: nat, x: nat): Bit
    requires y < |mask|
  {
    if x < |mask[y]| then mask[y][x] else 0
  }

  /** Every row of `s` has exactly `w` cells and there are `h` rows. */
  predicate HasShape<T>(s: seq<seq<T>>, h: nat, w: nat) {
    |s| == h && forall y :: 0 <= y < h ==> |s[y]| == w
  }

  /** The visual secret-sharing invariant, for a share pair of the mask's
      height and the width of its first row: every cell is a family
      pattern; foreground cells hold complementary patterns and background
      cells hold identical ones. */
  ghost predicate EncodesMask(mask: Mask, s1: Share, s2: Share)
    requires |mask| > 0
  {
    && HasShape(s1, |mask|, |mask[0]|)
    && HasShape(s2, |mask|, |mask[0]|)
    && forall y, x :: 0 <= y < |mask| && 0 <= x < |mask[0]| ==>
         && InFamily(s1[y][x])
         && (Pixel(mask, y, x) == 1 ==> s2[y][x] == Complement(s1[y][x]))
         && (Pixel(mask, y, x) != 1 ==> s2[y][x] == s1[y][x])
  }

  /** The encoder. Besides the sharing invariant, it promises that share1
      is the share the coins select on their own, whatever the mask says;
      and that share2 is the share the masked coins select in the same
      way. Masking is a one-to-one relabelling of coin functions
      (MaskingInvolution), so share2 is built exactly as share1 is, from
      coins paired one to one with the original ones. */
  method Encode(mask: Mask, rand: Coins) returns (r: Result<Shares, EncodeError>)
    ensures r.Failure? <==> |mask| == 0
    ensures r.Success? ==> EncodesMask(mask, r.value.share1, r.value.share2)
    ensures r.Success? ==> forall y, x :: 0 <= y < |mask| && 0 <= x < |mask[0]| ==>
      r.value.share1[y][x] == PatternOf(rand(y, x))
    ensures r.Success? ==> forall y, x :: 0 <= y < |mask| && 0 <= x < |mask[0]| ==>
      r.value.share2[y][x] == PatternOf(Xor(rand(y, x), Pixel(mask, y, x)))
    ensures r.Success? ==> r.value.share1 == CoinShare(rand, |mask|, |mask[0]|)
    ensures r.Success? ==> r.value.share2 == CoinShare(Masked(mask, rand), |mask|, |mask[0]|)
  {
    if |mask| == 0 {
      return Failure(EmptyMask);
    }
    var h := |mask|;
    var w := |mask[0]|;
    var share1: Share := [];
    var share2: Share := [];
    var y := 0;
    while y < h
      invariant 0 <= y <= h
      invariant HasShape(share1, y, w) && HasShape(share2, y, w)
      invariant forall yy, x :: 0 <= yy < y && 0 <= x < w ==>
        CellEncoded(mask, rand, share1[yy][x], share2[yy][x], yy, x)
    {
      var row1: seq<Pattern> := [];
      var row2: seq<Pattern> := [];
      var x := 0;
      while x < w
        invariant 0 <= x <= w
        invariant |row1| == x && |row2| == x
        invariant forall xx :: 0 <= xx < x ==> CellEncoded(mask, rand, row1[xx], row2[xx], y, xx)
      {
        var pixel := Pixel(mask, y, x);
        var coin := rand(y, x);
        if pixel == 1 {
          row1 := row1 + [PatternOf(coin)];
          row2 := row2 + [PatternOf(1 - coin)];
        } else {
          row1 := row1 + [PatternOf(coin)];
          row2 := row2 + [PatternOf(coin)];
        }
        x := x + 1;
      }
      share1 := share1 + [row1];
      share2 := share2 + [row2];
      y := y + 1;
    }
    forall y | 0 <= y < h
      ensures share1[y] == CoinShare(rand, h, w)[y]
      ensures share2[y] == CoinShare(Masked(mask, rand), h, w)[y]
    {
    }
    r := Success(Shares(share1, share2));
  }

  /** The share a coin function selects on its own: cell (y, x) holds
      `patterns[rand(y, x)]`, as share1 does on line 71 and line 74. */
  function CoinShare(rand: Coins, h: nat, w: nat): (s: Share)
    ensures HasShape(s, h, w)
  {
    seq(h, (y: int) requires 0 <= y < h =>
      seq(w, (x: int) requires 0 <= x < w => PatternOf(rand(y, x))))
  }

  /** The coins share2 is selected by: each coin XOR its cell's mask bit,
      that is `1 - rand` on foreground cells (line 72) and `rand` on
      background ones (line 75). Coins beyond the mask are kept. */
  function Masked(mask: Mask, rand: Coins): Coins {
    (y: nat, x: nat) => MaskedCoin(mask, rand, y, x)
  }

  function MaskedCoin(mask: Mask, rand: Coins, y: nat, x: nat): Bit {
    if y < |mask| then Xor(rand(y, x), Pixel(mask, y, x)) else rand(y, x)
  }

  /** Masking the coins twice gives them back, so masking pairs coin
      functions one to one, and the share the doubly masked coins select
      is share1 again: share1 and share2 are the same construction applied
      to coin functions that correspond one to one. */
  lemma {:induction false} MaskingInvolution(mask: Mask, rand: Coins, h: nat, w: nat)
    ensures forall y: nat, x: nat :: Masked(mask, Masked(mask, rand))(y, x) == rand(y, x)
    ensures CoinShare(Masked(mask, Masked(mask, rand)), h, w) == CoinShare(rand, h, w)
  {
    var back := Masked(mask, Masked(mask, rand));
    forall y: nat, x: nat
      ensures back(y, x) == rand(y, x)
    {
    }
    var s, t := CoinShare(back, h, w), CoinShare(rand, h, w);
    forall y | 0 <= y < h
      ensures s[y] == t[y]
    {
      forall x | 0 <= x < w
        ensures s[y][x] == t[y][x]
      {
        assert back(y, x) == rand(y, x);
      }
    }
  }

  function Xor(a: Bit, b: Bit): Bit {
    if a == b then 0 else 1
  }

  /** What the loop body of lines 68-76 establishes for one cell. */
  ghost predicate CellEncoded(mask: Mask, rand: Coins, p1: Pattern, p2: Pattern, y: nat, x: nat)
    requires y < |mask|
  {
    && p1 == PatternOf(rand(y, x))
    && p2 == PatternOf(Xor(rand(y, x), Pixel(mask, y, x)))
  }

  /** The mask as the encoder reads it: the height of `mask`, the width of
      its first row, and short rows padded with background. */
  function Normalize(mask: Mask): (m: Mask)
    requires |mask| > 0
    ensures HasShape(m, |mask|, |mask[0]|)
    ensures forall y, x :: 0 <= y < |mask| && 0 <= x < |mask[0]| ==> m[y][x] == Pixel(mask, y, x)
  {
    seq(|mask|, (y: int) requires 0 <= y < |mask| =>
      seq(|mask[0]|, (x: int) requires 0 <= x < |mask[0]| => Pixel(mask, y, x)))
  }

  /** A rectangular mask is its own normalisation. */
  lemma NormalizeRectangular(mask: Mask)
    requires |mask| > 0 && HasShape(mask, |mask|, |mask[0]|)
    ensures Normalize(mask) == mask
  {
    var m := Normalize(mask);
    forall y | 0 <= y < |mask|
      ensures m[y] == mask[y]
    {
    }
  }

  /** Cell-level decoding of a share pair: a cell is foreground exactly
      when the stacked patterns cover the whole block. */
  function Recover(s1: Share, s2: Share, h: nat, w: nat): (m: Mask)
    requires HasShape(s1, h, w) && HasShape(s2, h, w)
    ensures HasShape(m, h, w)
  {
    seq(h, (y: int) requires 0 <= y < h =>
      seq(w, (x: int) requires 0 <= x < w => if Or(s1[y][x], s2[y][x]) == Full() then 1 else 0))
  }

  /** Decoding undoes encoding: any share pair that satisfies the sharing
      invariant stacks back to the (normalised) mask. */
  lemma RecoverEncoded(mask: Mask, s1: Share, s2: Share)
    requires |mask| > 0 && EncodesMask(mask, s1, s2)
    ensures Recover(s1, s2, |mask|, |mask[0]|) == Normalize(mask)
  {
    var h, w := |mask|, |mask[0]|;
    var m, n := Recover(s1, s2, h, w), Normalize(mask);
    forall y | 0 <= y < h
      ensures m[y] == n[y]
    {
      forall x | 0 <= x < w
        ensures m[y][x] == n[y][x]
      {
        StackedFamily(s1[y][x], s2[y][x]);
      }
    }
  }
}

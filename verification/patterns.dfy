/** The 2x2 sub-pixel patterns of the (2,2) visual secret-sharing scheme
    (index.js:53-62). */
module Patterns {
  import opened Params

  /** A 2x2 block of sub-pixels; `aRC` is row R, column C, and `true`
      stands for the source's `1` (dark). */
  datatype Pattern = Pattern(a00: bool, a01: bool, a10: bool, a11: bool)
  {
    /** `pattern[py][px] === 1` of the source. */
    predicate At(py: nat, px: nat)
      requires py < SUBPIXEL && px < SUBPIXEL
    {
      if py == 0 then (if px == 0 then a00 else a01)
      else (if px == 0 then a10 else a11)
    }
  }

  /** `patterns[0]` = [[0,1],[1,0]] and `patterns[1]` = [[1,0],[0,1]]. */
  function P0(): Pattern { Pattern(false, true, true, false) }
  function P1(): Pattern { Pattern(true, false, false, true) }

  /** The pattern with every sub-pixel dark, and with none dark. */
  function Full(): Pattern { Pattern(true, true, true, true) }
  function Empty(): Pattern { Pattern(false, false, false, false) }

  /** The family every share cell is drawn from. */
  predicate InFamily(p: Pattern) {
    p == P0() || p == P1()
  }

  function Count(b: bool): nat {
    if b then 1 else 0
  }

  /** Number of dark sub-pixels of a pattern. */
  function Ones(p: Pattern): nat {
    Count(p.a00) + Count(p.a01) + Count(p.a10) + Count(p.a11)
  }

  /** Sub-pixel-wise OR: what two stacked transparencies show. */
  function Or(p: Pattern, q: Pattern): Pattern {
    Pattern(p.a00 || q.a00, p.a01 || q.a01, p.a10 || q.a10, p.a11 || q.a11)
  }

  /** Sub-pixel-wise AND: the sub-pixels dark in both patterns. */
  function And(p: Pattern, q: Pattern): Pattern {
    Pattern(p.a00 && q.a00, p.a01 && q.a01, p.a10 && q.a10, p.a11 && q.a11)
  }

  /** Sub-pixel-wise complement. */
  function Complement(p: Pattern): Pattern {
    Pattern(!p.a00, !p.a01, !p.a10, !p.a11)
  }

  /** `patterns[rand]`: the pattern a coin selects. The two coins select
      the two different family members, which are each other's complement. */
  function PatternOf(b: Bit): (p: Pattern)
    ensures InFamily(p)
    ensures Complement(p) == (if b == 0 then P1() else P0()) != p
  {
    if b == 0 then P0() else P1()
  }

  /** The two family members are each half dark, are each other's
      complement, and together cover the whole block without overlapping. */
  lemma PatternFamily(p: Pattern)
    requires InFamily(p)
    ensures Ones(p) == 2
    ensures InFamily(Complement(p)) && Complement(p) != p
    ensures Or(p, Complement(p)) == Full()
    ensures And(p, Complement(p)) == Empty()
  {
  }

  /** Only complementary family members stack to a fully dark block; equal
      ones leave exactly the pattern's own two sub-pixels dark. */
  lemma StackedFamily(p: Pattern, q: Pattern)
    requires InFamily(p) && InFamily(q)
    ensures Or(p, q) == Full() <==> q == Complement(p)
    ensures q == p ==> Ones(Or(p, q)) == 2
  {
  }
}

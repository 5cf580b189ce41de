/**
 What each mask pattern looks like, without its formula: laws that hold of exactly one
 pattern each.
 */
module MaskLaws {
  import opened Zigzag
  import opened Masking

  type Pattern = (nat, nat) -> bool

  predicate SameRight(p: Pattern, x: nat, y: nat) {
    p(x + 1, y) == p(x, y)
  }

  predicate SameDown(p: Pattern, x: nat, y: nat) {
    p(x, y + 1) == p(x, y)
  }

  predicate SameDiagonally(p: Pattern, x: nat, y: nat) {
    p(x, y + 1) == p(x + 1, y)
  }

  /** Of any three neighbours in a row exactly one is inverted. */
  predicate OneInThree(p: Pattern, x: nat, y: nat) {
    && (p(x, y) || p(x + 1, y) || p(x + 2, y))
    && !(p(x, y) && p(x + 1, y)) && !(p(x, y) && p(x + 2, y)) && !(p(x + 1, y) && p(x + 2, y))
  }

  /** Tiles three wide and two high have one value, and neighbouring tiles differ. */
  predicate Tiled(p: Pattern, x: nat, y: nat) {
    p(x, y) == p(3 * (x / 3), 2 * (y / 2)) && p(x + 3, y) != p(x, y) && p(x, y + 2) != p(x, y)
  }

  predicate SixDivides(p: Pattern, x: nat, y: nat) {
    p(x, y) <==> x * y % 6 == 0
  }

  predicate SymmetricPeriod(p: Pattern, x: nat, y: nat) {
    p(x, y) == p(y, x) && p(x + 6, y) == p(x, y)
  }

  /** Rows and columns 0 to 5. */
  predicate Shows(p: Pattern, picture: seq<string>, x: nat, y: nat) {
    |picture| == 6 && (x < 6 && y < 6 ==> |picture[y]| == 6 && p(x, y) == (picture[y][x] == '#'))
  }

  const PICTURE_6 :=
    ["######",
     "###...",
     "##.##.",
     "#.#.#.",
     "#.##.#",
     "#...##"]

  const PICTURE_7 :=
    ["#.#.#.",
     "...###",
     "#...##",
     ".#.#.#",
     "###...",
     ".###.."]

  ghost predicate Lawful(m: nat, p: Pattern)
    requires m < 8
  {
    p(0, 0) &&
    match m
    case 0 => forall x: nat, y: nat :: !SameRight(p, x, y) && !SameDown(p, x, y)
    case 1 => forall x: nat, y: nat :: SameRight(p, x, y) && !SameDown(p, x, y)
    case 2 => forall x: nat, y: nat :: SameDown(p, x, y) && OneInThree(p, x, y)
    case 3 => forall x: nat, y: nat :: SameDiagonally(p, x, y) && OneInThree(p, x, y)
    case 4 => forall x: nat, y: nat :: Tiled(p, x, y)
    case 5 => forall x: nat, y: nat :: SixDivides(p, x, y)
    case 6 => forall x: nat, y: nat :: SymmetricPeriod(p, x, y) && Shows(p, PICTURE_6, x, y)
    case 7 => forall x: nat, y: nat :: SymmetricPeriod(p, x, y) && Shows(p, PICTURE_7, x, y)
  }

  /*---- The laws hold ----*/

  function MaskOf(m: nat): Pattern
    requires m < 8
  {
    (x: nat, y: nat) => Invert(m, x, y)
  }

  lemma Mod6(a: nat, y: nat)
    ensures (a + 6 * y) % 2 == a % 2 && (a + 6 * y) % 3 == a % 3
    ensures a % 6 == 0 <==> a % 2 + a % 3 == 0
  {
  }

  lemma Products(x: nat, y: nat)
    ensures (x + 6) * y == x * y + 6 * y && x * y == y * x
  {
  }

  lemma ProductMask(m: nat, x: nat, y: nat)
    requires 6 <= m < 8
    ensures SymmetricPeriod(MaskOf(m), x, y)
  {
    Products(x, y);
    Mod6(x * y, y);
  }

  function Times(x: nat, y: nat): nat
    requires y < 6
  {
    if y == 0 then 0 else if y == 1 then x else if y == 2 then x + x
    else if y == 3 then x + x + x else if y == 4 then x + x + x + x else x + x + x + x + x
  }

  /** Products of small numbers are sums. */
  lemma SmallProduct(x: nat, y: nat)
    requires y < 6
    ensures x * y == Times(x, y)
  {
  }

  lemma SmallProducts6(x: nat, y: nat)
    ensures Shows(MaskOf(6), PICTURE_6, x, y)
  {
    if x < 6 && y < 6 {
      SmallProduct(x, y);
      SmallMask6(x, y, x * y);
    }
  }

  lemma SmallMask6(x: nat, y: nat, a: nat)
    requires x < 6 && y < 6 && a == Times(x, y)
    ensures |PICTURE_6[y]| == 6 && ((a % 2 + a % 3) % 2 == 0) == (PICTURE_6[y][x] == '#')
  {
  }

  lemma SmallProducts7(x: nat, y: nat)
    ensures Shows(MaskOf(7), PICTURE_7, x, y)
  {
    if x < 6 && y < 6 {
      SmallProduct(x, y);
      SmallMask7(x, y, x * y);
    }
  }

  lemma SmallMask7(x: nat, y: nat, a: nat)
    requires x < 6 && y < 6 && a == Times(x, y)
    ensures |PICTURE_7[y]| == 6 && (((x + y) % 2 + a % 3) % 2 == 0) == (PICTURE_7[y][x] == '#')
  {
  }

  lemma Quotients(x: nat, y: nat)
    ensures (x + 3) / 3 == x / 3 + 1 && 3 * (x / 3) / 3 == x / 3
    ensures (y + 2) / 2 == y / 2 + 1 && 2 * (y / 2) / 2 == y / 2
  {
  }

  lemma Parity(a: nat)
    ensures (a + 1) % 2 != a % 2
  {
  }

  lemma TileMask(x: nat, y: nat)
    ensures Tiled(MaskOf(4), x, y)
  {
    Quotients(x, y);
    var a, b := x / 3, y / 2;
    Parity(a + b);
    assert Invert(4, x, y) == ((a + b) % 2 == 0);
    assert Invert(4, x + 3, y) == ((a + 1 + b) % 2 == 0);
    assert Invert(4, x, y + 2) == ((a + (b + 1)) % 2 == 0);
    assert Invert(4, 3 * a, 2 * b) == ((a + b) % 2 == 0);
    hide Invert;
  }

  lemma LineMasks(m: nat, x: nat, y: nat)
    requires m < 4
    ensures m == 0 ==> !SameRight(MaskOf(m), x, y) && !SameDown(MaskOf(m), x, y)
    ensures m == 1 ==> SameRight(MaskOf(m), x, y) && !SameDown(MaskOf(m), x, y)
    ensures m == 2 ==> SameDown(MaskOf(m), x, y)
    ensures m == 3 ==> SameDiagonally(MaskOf(m), x, y)
  {
    Parity(y);
    Parity(x + y);
  }

  lemma Thirds(a: nat)
    ensures a % 3 == 0 || (a + 1) % 3 == 0 || (a + 2) % 3 == 0
    ensures !(a % 3 == 0 && (a + 1) % 3 == 0) && !(a % 3 == 0 && (a + 2) % 3 == 0)
    ensures !((a + 1) % 3 == 0 && (a + 2) % 3 == 0)
  {
  }

  lemma ThirdMasks(m: nat, x: nat, y: nat)
    requires 2 <= m < 4
    ensures OneInThree(MaskOf(m), x, y)
  {
    var a := if m == 2 then x else x + y;
    Thirds(a);
    assert Invert(m, x, y) == (a % 3 == 0);
    assert Invert(m, x + 1, y) == ((a + 1) % 3 == 0);
    assert Invert(m, x + 2, y) == ((a + 2) % 3 == 0);
    hide Invert;
  }

  lemma SixMask(x: nat, y: nat)
    ensures SixDivides(MaskOf(5), x, y)
  {
    Mod6(x * y, 0);
  }

  lemma CornerInverted(m: nat)
    requires m < 8
    ensures Invert(m, 0, 0)
  {
  }

  lemma LawfulLines(m: nat)
    requires m < 4
    ensures Lawful(m, MaskOf(m))
  {
    CornerInverted(m);
    hide Invert, SameRight, SameDown, SameDiagonally, OneInThree, Tiled, SixDivides, SymmetricPeriod, Shows;
    forall x: nat, y: nat
      ensures m == 0 ==> !SameRight(MaskOf(m), x, y) && !SameDown(MaskOf(m), x, y)
      ensures m == 1 ==> SameRight(MaskOf(m), x, y) && !SameDown(MaskOf(m), x, y)
      ensures m == 2 ==> SameDown(MaskOf(m), x, y) && OneInThree(MaskOf(m), x, y)
      ensures m == 3 ==> SameDiagonally(MaskOf(m), x, y) && OneInThree(MaskOf(m), x, y)
    {
      LineMasks(m, x, y);
      if m >= 2 {
        ThirdMasks(m, x, y);
      }
    }
  }

  lemma LawfulTiles(m: nat, p: Pattern)
    requires m == 4 && p(0, 0) && forall x: nat, y: nat :: Tiled(p, x, y)
    ensures Lawful(m, p)
  {
    hide Tiled;
  }

  lemma LawfulSixths()
    ensures Lawful(5, MaskOf(5))
  {
    CornerInverted(5);
    hide Invert, SameRight, SameDown, SameDiagonally, OneInThree, Tiled, SixDivides, SymmetricPeriod, Shows;
    forall x: nat, y: nat
      ensures SixDivides(MaskOf(5), x, y)
    {
      SixMask(x, y);
    }
  }

  lemma LawfulPicture6()
    ensures Lawful(6, MaskOf(6))
  {
    CornerInverted(6);
    hide Invert, SameRight, SameDown, SameDiagonally, OneInThree, Tiled, SixDivides, SymmetricPeriod, Shows;
    forall x: nat, y: nat
      ensures SymmetricPeriod(MaskOf(6), x, y) && Shows(MaskOf(6), PICTURE_6, x, y)
    {
      ProductMask(6, x, y);
      SmallProducts6(x, y);
    }
  }

  lemma LawfulPicture7()
    ensures Lawful(7, MaskOf(7))
  {
    CornerInverted(7);
    hide Invert, SameRight, SameDown, SameDiagonally, OneInThree, Tiled, SixDivides, SymmetricPeriod, Shows;
    forall x: nat, y: nat
      ensures SymmetricPeriod(MaskOf(7), x, y) && Shows(MaskOf(7), PICTURE_7, x, y)
    {
      ProductMask(7, x, y);
      SmallProducts7(x, y);
    }
  }

  /** Every mask inverts the corner (0, 0) and has its laws. */
  lemma InvertLawful(m: nat)
    requires m < 8
    ensures Lawful(m, MaskOf(m))
  {
    hide Lawful, Invert, Tiled;
    if m < 4 {
      LawfulLines(m);
    } else if m == 4 {
      CornerInverted(m);
      forall x: nat, y: nat
        ensures Tiled(MaskOf(m), x, y)
      {
        TileMask(x, y);
      }
      LawfulTiles(m, MaskOf(m));
    } else if m == 5 {
      LawfulSixths();
    } else if m == 6 {
      LawfulPicture6();
    } else {
      LawfulPicture7();
    }
  }

  /*---- and of nothing else ----*/

  lemma {:induction false} Chequered(m: nat, p: Pattern, q: Pattern, x: nat, y: nat)
    requires m < 2 && Lawful(m, p) && Lawful(m, q)
    ensures p(x, y) == q(x, y)
    decreases x + y
  {
    hide OneInThree, Tiled, SixDivides, SymmetricPeriod, Shows;
    if x > 0 {
      Chequered(m, p, q, x - 1, y);
      assert SameRight(p, x - 1, y) == SameRight(q, x - 1, y);
    } else if y > 0 {
      Chequered(m, p, q, x, y - 1);
      assert SameDown(p, x, y - 1) == SameDown(q, x, y - 1);
    }
  }

  lemma {:induction false} Striped(m: nat, p: Pattern, q: Pattern, x: nat, y: nat)
    requires 2 <= m < 4 && Lawful(m, p) && Lawful(m, q)
    ensures p(x, y) == q(x, y)
    decreases y, x
  {
    hide Tiled, SixDivides, SymmetricPeriod, Shows;
    if y > 0 {
      if m == 2 {
        Striped(m, p, q, x, y - 1);
        assert SameDown(p, x, y - 1) && SameDown(q, x, y - 1);
      } else {
        Striped(m, p, q, x + 1, y - 1);
        assert SameDiagonally(p, x, y - 1) && SameDiagonally(q, x, y - 1);
      }
    } else if x >= 3 {
      Striped(m, p, q, x - 3, y);
      assert OneInThree(p, x - 3, y) && OneInThree(p, x - 2, y);
      assert OneInThree(q, x - 3, y) && OneInThree(q, x - 2, y);
    } else {
      assert OneInThree(p, 0, 0) && OneInThree(q, 0, 0);
    }
  }

  lemma {:induction false} TiledSame(p: Pattern, q: Pattern, x: nat, y: nat)
    requires Lawful(4, p) && Lawful(4, q)
    ensures p(x, y) == q(x, y)
    decreases x + y
  {
    hide SixDivides, SymmetricPeriod, Shows;
    if x >= 3 {
      TiledSame(p, q, x - 3, y);
      assert Tiled(p, x - 3, y) && Tiled(q, x - 3, y);
    } else if y >= 2 {
      TiledSame(p, q, x, y - 2);
      assert Tiled(p, x, y - 2) && Tiled(q, x, y - 2);
    } else {
      assert Tiled(p, x, y) && Tiled(q, x, y);
    }
  }

  lemma {:induction false} PeriodicSame(m: nat, p: Pattern, q: Pattern, x: nat, y: nat)
    requires 6 <= m < 8 && Lawful(m, p) && Lawful(m, q)
    ensures p(x, y) == q(x, y)
    decreases x + y
  {
    hide Tiled, SixDivides, OneInThree;
    if x >= 6 {
      PeriodicSame(m, p, q, x - 6, y);
      assert SymmetricPeriod(p, x - 6, y) && SymmetricPeriod(q, x - 6, y);
    } else if y >= 6 {
      PeriodicSame(m, p, q, y - 6, x);
      assert SymmetricPeriod(p, y - 6, x) && SymmetricPeriod(q, y - 6, x);
      assert SymmetricPeriod(p, x, y) && SymmetricPeriod(q, x, y);
    } else {
      var picture := if m == 6 then PICTURE_6 else PICTURE_7;
      assert Shows(p, picture, x, y) && Shows(q, picture, x, y);
    }
  }

  lemma OnlyOne(m: nat, p: Pattern, q: Pattern, x: nat, y: nat)
    requires m < 8 && Lawful(m, p) && Lawful(m, q)
    ensures p(x, y) == q(x, y)
  {
    hide SameRight, SameDown, SameDiagonally, OneInThree, Tiled, SymmetricPeriod, Shows;
    if m < 2 {
      Chequered(m, p, q, x, y);
    } else if m < 4 {
      Striped(m, p, q, x, y);
    } else if m == 4 {
      TiledSame(p, q, x, y);
    } else if m == 5 {
      assert SixDivides(p, x, y) && SixDivides(q, x, y);
    } else {
      PeriodicSame(m, p, q, x, y);
    }
  }

  /** The pattern of mask m is the only one with its laws. */
  lemma MaskIsOnlyOne(m: nat, p: Pattern, x: nat, y: nat)
    requires m < 8 && Lawful(m, p)
    ensures p(x, y) == Invert(m, x, y)
  {
    hide Invert, Lawful;
    InvertLawful(m);
    OnlyOne(m, p, MaskOf(m), x, y);
  }

  /** Which codeword modules change: whole rows under mask 1, whole columns under mask 2, tiles under mask 4. */
  lemma MaskedModules(g: Grid, f: Grid, size: nat, m: nat, c: Cell)
    requires Square(g, size) && Square(f, size) && m < 8 && Inside(c, size)
    ensures At(f, size, c) ==> At(Masked(g, f, size, m), size, c) == At(g, size, c)
    ensures !At(f, size, c) ==>
              var changed := At(Masked(g, f, size, m), size, c) != At(g, size, c);
              && (forall p: Pattern :: Lawful(m, p) ==> changed == p(c.x, c.y))
              && (m == 1 ==> (changed <==> c.y % 2 == 0))
              && (m == 2 ==> (changed <==> c.x % 3 == 0))
              && (m == 4 ==> (changed <==> (c.x / 3 + c.y / 2) % 2 == 0))
  {
    hide Lawful, Masked;
    forall p: Pattern | Lawful(m, p)
      ensures p(c.x, c.y) == Invert(m, c.x, c.y)
    {
      MaskIsOnlyOne(m, p, c.x, c.y);
    }
  }
}

/** The eight mask patterns, applied to every module that is not a function module. */
module Masking {
  import opened Zigzag

  /** Mask m inverts the module in column x and row y. */
  predicate Invert(m: nat, x: nat, y: nat)
    requires m < 8
  {
    match m
    case 0 => (x + y) % 2 == 0
    case 1 => y % 2 == 0
    case 2 => x % 3 == 0
    case 3 => (x + y) % 3 == 0
    case 4 => (x / 3 + y / 2) % 2 == 0
    case 5 => x * y % 2 + x * y % 3 == 0
    case 6 => (x * y % 2 + x * y % 3) % 2 == 0
    case 7 => ((x + y) % 2 + x * y % 3) % 2 == 0
  }

  function Masked(g: Grid, f: Grid, size: nat, m: nat): (h: Grid)
    requires Square(g, size) && Square(f, size) && m < 8
    ensures Square(h, size)
    ensures forall c :: Inside(c, size) ==>
              At(h, size, c) == (At(g, size, c) != (Invert(m, c.x, c.y) && !At(f, size, c)))
  {
    seq(size, y requires 0 <= y < size =>
      seq(size, x requires 0 <= x < size => g[y][x] != (Invert(m, x, y) && !f[y][x])))
  }

  lemma GridsEqual(g: Grid, h: Grid, size: nat)
    requires Square(g, size) && Square(h, size)
    requires forall c :: Inside(c, size) ==> At(g, size, c) == At(h, size, c)
    ensures g == h
  {
    forall y | 0 <= y < size
      ensures g[y] == h[y]
    {
      forall x | 0 <= x < size
        ensures g[y][x] == h[y][x]
      {
        assert At(g, size, Cell(x, y)) == At(h, size, Cell(x, y));
      }
    }
  }

  /** Masking twice with the same mask does nothing. */
  lemma MaskedTwice(g: Grid, f: Grid, size: nat, m: nat)
    requires Square(g, size) && Square(f, size) && m < 8
    ensures Masked(Masked(g, f, size, m), f, size, m) == g
  {
    hide Masked, Invert;
    GridsEqual(Masked(Masked(g, f, size, m), f, size, m), g, size);
  }
}

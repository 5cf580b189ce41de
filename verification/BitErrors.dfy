/** Counting the places where bit sequences differ. */
module BitErrors {
  import opened Bitwise
  import opened BitBuffers

  function One(b: bool): nat {
    if b then 1 else 0
  }

  /** The number of places where two bit sequences differ. */
  function Flips(u: seq<bool>, v: seq<bool>): nat
    requires |u| == |v|
  {
    if u == [] then 0
    else Flips(u[..|u| - 1], v[..|v| - 1]) + One(u[|u| - 1] != v[|v| - 1])
  }

  lemma NothingFlips()
    ensures Flips([], []) == 0
  {
  }

  lemma FlipsAppend(u: seq<bool>, v: seq<bool>, a: bool, b: bool)
    requires |u| == |v|
    ensures Flips(u + [a], v + [b]) == Flips(u, v) + One(a != b)
  {
    assert (u + [a])[..|u|] == u && (v + [b])[..|v|] == v;
  }

  lemma {:induction false} FlipsSplit(u: seq<bool>, v: seq<bool>, n: nat)
    requires |u| == |v| && n <= |u|
    ensures Flips(u, v) == Flips(u[..n], v[..n]) + Flips(u[n..], v[n..])
    decreases |u|
  {
    if n == |u| {
      assert u[..n] == u && v[..n] == v;
    } else {
      var a, b := u[..|u| - 1], v[..|u| - 1];
      FlipsSplit(a, b, n);
      assert a[..n] == u[..n] && b[..n] == v[..n];
      assert a[n..] == u[n..][..|u| - n - 1] && b[n..] == v[n..][..|u| - n - 1];
    }
  }

  lemma {:induction false} NoFlips(u: seq<bool>, v: seq<bool>)
    requires |u| == |v|
    ensures Flips(u, v) == 0 <==> u == v
  {
    if u != [] {
      NoFlips(u[..|u| - 1], v[..|v| - 1]);
      assert u == u[..|u| - 1] + [u[|u| - 1]] && v == v[..|v| - 1] + [v[|v| - 1]];
    }
  }

  lemma {:induction false} FlipsTriangle(u: seq<bool>, v: seq<bool>, w: seq<bool>)
    requires |u| == |v| == |w|
    ensures Flips(u, w) <= Flips(u, v) + Flips(v, w) && Flips(u, v) == Flips(v, u)
  {
    if u != [] {
      FlipsTriangle(u[..|u| - 1], v[..|v| - 1], w[..|w| - 1]);
    }
  }

  /** The number of ones among the first k bits. */
  function Ones(u: seq<bool>, k: nat): nat
    requires k <= |u|
    decreases k
  {
    if k == 0 then 0 else Ones(u, k - 1) + One(u[k - 1])
  }

  lemma {:induction false} OnesPrefix(u: seq<bool>, v: seq<bool>, k: nat)
    requires k <= |u| && k <= |v| && u[..k] == v[..k]
    ensures Ones(u, k) == Ones(v, k)
  {
    if k > 0 {
      assert u[..k][..k - 1] == u[..k - 1] && v[..k][..k - 1] == v[..k - 1];
      assert u[..k][k - 1] == v[..k][k - 1];
      OnesPrefix(u, v, k - 1);
    }
  }

  /** Numbers differ in the bits that their exclusive or has. */
  lemma {:induction false} FlipsAreOnes(a: nat, b: nat, n: nat)
    ensures Flips(Bits(a, n), Bits(b, n)) == Ones(Bits(Xor(a, b), n), n)
  {
    hide Xor, Flips;
    NothingFlips();
    if n > 0 {
      FlipsAreOnes(a / 2, b / 2, n - 1);
      XorHalves(a, b);
      var u, v, w := Bits(a / 2, n - 1), Bits(b / 2, n - 1), Bits(Xor(a, b) / 2, n - 1);
      FlipsAppend(u, v, a % 2 == 1, b % 2 == 1);
      OnesPrefix(Bits(Xor(a, b), n), w, n - 1);
    }
  }
}

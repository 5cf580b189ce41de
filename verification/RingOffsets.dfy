/**
 Ring members are stored as offsets, each relative to the one before, in 64-bit integers
 that wrap around.
 */
module RingOffsets {

  const UINT64: nat := 0x1_0000_0000_0000_0000

  type uint64 = x: int | 0 <= x < UINT64

  function Total(offsets: seq<uint64>): nat {
    if offsets == [] then 0 else Total(offsets[..|offsets| - 1]) + offsets[|offsets| - 1]
  }

  /** Ring member i lies at the sum of the first i + 1 offsets. */
  function Absolute(offsets: seq<uint64>): (r: seq<uint64>)
    ensures |r| == |offsets|
  {
    seq(|offsets|, i requires 0 <= i < |offsets| => Total(offsets[..i + 1]) % UINT64)
  }

  lemma TotalNext(offsets: seq<uint64>, i: nat)
    requires i < |offsets|
    ensures Total(offsets[..i + 1]) == Total(offsets[..i]) + offsets[i]
    ensures (Total(offsets[..i]) % UINT64 + offsets[i]) % UINT64 == Total(offsets[..i + 1]) % UINT64
  {
    assert offsets[..i + 1][..i] == offsets[..i];
    WrapAdd(Total(offsets[..i]), offsets[i]);
  }

  lemma WrapAdd(a: nat, b: nat)
    ensures (a % UINT64 + b) % UINT64 == (a + b) % UINT64
  {
    var q := a / UINT64;
    assert a + b == (a % UINT64 + b) + q * UINT64;
    WrapMultiple(a % UINT64 + b, q);
  }

  lemma {:induction false} WrapMultiple(a: nat, q: nat)
    ensures (a + q * UINT64) % UINT64 == a % UINT64
    decreases q
  {
    if q > 0 {
      WrapMultiple(a, q - 1);
      assert a + q * UINT64 == (a + (q - 1) * UINT64) + UINT64;
    }
  }

  /** relative_output_offsets_to_absolute */
  method ToAbsolute(off: seq<uint64>) returns (r: seq<uint64>)
    ensures |r| == |off| && forall i :: 0 <= i < |off| ==> r[i] == Total(off[..i + 1]) % UINT64
  {
    var res := new uint64[|off|](i requires 0 <= i < |off| => off[i]);
    if |off| > 0 {
      TotalNext(off, 0);
      assert off[..0] == [];
    }
    var i := 1;
    while i < res.Length
      invariant 1 <= i && (i <= res.Length || res.Length == 0)
      invariant forall k :: 0 <= k < i && k < res.Length ==> res[k] == Total(off[..k + 1]) % UINT64
      invariant forall k :: i <= k < res.Length ==> res[k] == off[k]
    {
      TotalNext(off, i);
      res[i] := (res[i] + res[i - 1]) % UINT64;
      i := i + 1;
    }
    r := res[..];
  }

  /*---- The other direction ----*/

  ghost predicate Ascending(s: seq<uint64>) {
    forall i, j :: 0 <= i < j < |s| ==> s[i] <= s[j]
  }

  /** Inserts x into an ascending sequence, after all elements that are not greater. */
  function Insert(s: seq<uint64>, x: uint64): seq<uint64> {
    if s == [] || s[|s| - 1] <= x then s + [x]
    else Insert(s[..|s| - 1], x) + [s[|s| - 1]]
  }

  lemma {:induction false} InsertHas(s: seq<uint64>, x: uint64)
    ensures multiset(Insert(s, x)) == multiset(s) + multiset{x}
  {
    if !(s == [] || s[|s| - 1] <= x) {
      var init, z := s[..|s| - 1], s[|s| - 1];
      InsertHas(init, x);
      assert s == init + [z];
      assert multiset(Insert(init, x) + [z]) == multiset(Insert(init, x)) + multiset{z};
    }
  }

  lemma AscendingAppend(s: seq<uint64>, z: uint64)
    requires Ascending(s) && forall y :: y in s ==> y <= z
    ensures Ascending(s + [z])
  {
    forall i | 0 <= i < |s|
      ensures s[i] <= z
    {
      assert s[i] in s;
    }
  }

  lemma {:induction false} InsertAscends(s: seq<uint64>, x: uint64)
    requires Ascending(s)
    ensures Ascending(Insert(s, x))
  {
    if s == [] || s[|s| - 1] <= x {
      AscendingAppend(s, x);
    } else {
      var init, z := s[..|s| - 1], s[|s| - 1];
      InsertAscends(init, x);
      InsertHas(init, x);
      forall y | y in Insert(init, x)
        ensures y <= z
      {
        assert y in multiset(Insert(init, x));
      }
      AscendingAppend(Insert(init, x), z);
    }
  }

  lemma LastIsGreatest(s: seq<uint64>)
    requires s != [] && Ascending(s)
    ensures Ascending(s[..|s| - 1]) && (|s| > 1 ==> s[|s| - 2] <= s[|s| - 1])
  {
  }

  lemma InsertLast(s: seq<uint64>, x: uint64)
    requires s == [] || s[|s| - 1] <= x
    ensures Insert(s, x) == s + [x]
  {
  }

  /** The elements in ascending order, as std::sort leaves them. */
  function Sorted(s: seq<uint64>): seq<uint64> {
    if s == [] then [] else Insert(Sorted(s[..|s| - 1]), s[|s| - 1])
  }

  lemma {:induction false} SortedHas(s: seq<uint64>)
    ensures multiset(Sorted(s)) == multiset(s)
  {
    if s != [] {
      hide Insert;
      var init, x := s[..|s| - 1], s[|s| - 1];
      SortedHas(init);
      InsertHas(Sorted(init), x);
      assert s == init + [x];
    }
  }

  lemma {:induction false} SortedAscends(s: seq<uint64>)
    ensures Ascending(Sorted(s))
  {
    if s != [] {
      hide Ascending, Insert;
      SortedAscends(s[..|s| - 1]);
      InsertAscends(Sorted(s[..|s| - 1]), s[|s| - 1]);
    }
  }

  lemma {:induction false} SortedSame(s: seq<uint64>)
    requires Ascending(s)
    ensures Sorted(s) == s
  {
    if s != [] {
      hide Ascending, Insert;
      var init, x := s[..|s| - 1], s[|s| - 1];
      LastIsGreatest(s);
      SortedSame(init);
      InsertLast(init, x);
      assert s == init + [x];
    }
  }

  /** Each absolute index less the one before. */
  function Relative(s: seq<uint64>): (r: seq<uint64>)
    requires Ascending(s)
    ensures |r| == |s|
  {
    seq(|s|, i requires 0 <= i < |s| => if i == 0 then s[0] else s[i] - s[i - 1])
  }

  /** Subtraction of 64-bit integers. */
  function Minus(a: uint64, b: uint64): (r: uint64)
    ensures b <= a ==> r == a - b
  {
    (a - b) % UINT64
  }

  /** The loop that takes differences in place, from the end. */
  method Differences(s: seq<uint64>) returns (r: seq<uint64>)
    requires Ascending(s) && s != []
    ensures r == Relative(s)
  {
    hide Ascending, Minus;
    NextIsGreater(s);
    var res := new uint64[|s|](i requires 0 <= i < |s| => s[i]);
    var i := res.Length - 1;
    while i != 0
      invariant 0 <= i < res.Length
      invariant forall k :: 0 <= k <= i ==> res[k] == s[k]
      invariant forall k :: i < k < res.Length ==> res[k] == s[k] - s[k - 1]
    {
      res[i] := Minus(res[i], res[i - 1]);
      i := i - 1;
    }
    r := res[..];
  }

  /** absolute_output_offsets_to_relative */
  method ToRelative(off: seq<uint64>) returns (r: seq<uint64>)
    ensures Ascending(Sorted(off)) && multiset(Sorted(off)) == multiset(off) && r == Relative(Sorted(off))
    ensures Ascending(off) ==> r == Relative(off)
  {
    hide Ascending, Sorted;
    SortedAscends(off);
    SortedHas(off);
    LengthKept(off);
    if Ascending(off) {
      SortedSame(off);
    }
    if |off| == 0 {
      return [];
    }
    r := Differences(Sorted(off));
  }

  lemma NextIsGreater(s: seq<uint64>)
    requires Ascending(s)
    ensures forall i :: 0 < i < |s| ==> s[i - 1] <= s[i]
  {
  }

  lemma LengthKept(s: seq<uint64>)
    ensures |Sorted(s)| == |s|
  {
    SortedHas(s);
    assert |multiset(Sorted(s))| == |multiset(s)|;
  }

  lemma {:induction false} RelativeTotal(s: seq<uint64>, i: nat)
    requires Ascending(s) && i < |s|
    ensures Total(Relative(s)[..i + 1]) == s[i]
  {
    TotalNext(Relative(s), i);
    if i == 0 {
      assert Relative(s)[..0] == [];
    } else {
      RelativeTotal(s, i - 1);
    }
  }

  /** Making ascending indices relative and then absolute again gives them back. */
  lemma AbsoluteOfRelative(s: seq<uint64>)
    requires Ascending(s)
    ensures Absolute(Relative(s)) == s
  {
    hide Ascending, Relative, Total;
    forall i: nat | i < |s|
      ensures Absolute(Relative(s))[i] == s[i]
    {
      RelativeTotal(s, i);
    }
  }

  lemma {:induction false} TotalMono(offsets: seq<uint64>, i: nat, j: nat)
    requires i <= j <= |offsets|
    ensures Total(offsets[..i]) <= Total(offsets[..j])
  {
    if i < j {
      TotalMono(offsets, i, j - 1);
      TotalNext(offsets, j - 1);
    }
  }

  /** Offsets whose sum does not wrap around are given back as well. */
  lemma RelativeOfAbsolute(offsets: seq<uint64>)
    requires Total(offsets) < UINT64
    ensures Ascending(Absolute(offsets)) && Relative(Absolute(offsets)) == offsets
  {
    hide Total;
    var a := Absolute(offsets);
    assert offsets[..|offsets|] == offsets;
    forall i: nat | i < |offsets|
      ensures a[i] == Total(offsets[..i + 1])
    {
      TotalMono(offsets, i + 1, |offsets|);
    }
    forall i, j | 0 <= i < j < |a|
      ensures a[i] <= a[j]
    {
      TotalMono(offsets, i + 1, j + 1);
    }
    forall i: nat | i < |offsets|
      ensures Relative(a)[i] == offsets[i]
    {
      TotalNext(offsets, i);
      if i == 0 {
        EmptyTotal(offsets);
      }
    }
  }

  lemma EmptyTotal(offsets: seq<uint64>)
    ensures Total(offsets[..0]) == 0
  {
  }
}

/** Integer powers, the shape condition on a network's size and the node count
    of a perfect tree. */
module Powers {

  /** `b ** e` for a non-negative exponent, as Python computes it on ints:
      positive for a positive base, and always 1 for the base 1. */
  function Pow(b: int, e: nat): (p: int)
    ensures b >= 1 ==> p >= 1
    ensures b == 1 ==> p == 1
  {
    if e == 0 then 1 else b * Pow(b, e - 1)
  }

  /** For a base of at least two, a larger exponent gives a strictly larger power. */
  lemma {:induction false} PowStrictlyIncreasing(b: int, d: nat, e: nat)
    requires b >= 2 && d < e
    ensures Pow(b, d) < Pow(b, e)
  {
    if d < e - 1 {
      PowStrictlyIncreasing(b, d, e - 1);
    }
  }

  /** With a factor of at least one, the build terminates exactly when some
      depth satisfies the leaf test `size == processing_factor ** depth` on
      every branch, that is, when `size` is a power of the factor. */
  ghost predicate ValidShape(pf: int, size: int)
  {
    pf >= 1 && exists k: nat :: Pow(pf, k) == size
  }

  /** Dividing a multiple of `b` by `b` gives the other factor back. */
  lemma MulDiv(b: int, x: int)
    requires b >= 1
    ensures (b * x) / b == x
  {
    var q, r := (b * x) / b, (b * x) % b;
    assert b * x == b * q + r && 0 <= r < b;
    assert b * (x - q) == r;
    MulBounds(b, x - q);
  }

  /** A non-zero multiple of `b` is at least `b` away from zero. */
  lemma MulBounds(b: int, d: int)
    requires b >= 1
    ensures d >= 1 ==> b * d >= b
    ensures d <= -1 ==> b * d <= -b
  {
    if d >= 1 {
      assert b * d == b * (d - 1) + b;
    } else if d <= -1 {
      assert b * d == -(b * (-d - 1)) - b;
    }
  }

  /** The depth at which the leaf test first holds: the height of the tree. */
  ghost function Height(pf: int, size: int): nat
    requires ValidShape(pf, size)
  {
    if pf == 1 then 0 else var k: nat :| Pow(pf, k) == size; k
  }

  /** The leaf test `size == pf ** depth` holds at depth Height and at no
      smaller depth. */
  lemma HeightSpec(pf: int, size: int)
    requires ValidShape(pf, size)
    ensures Pow(pf, Height(pf, size)) == size
    ensures forall d: nat :: d < Height(pf, size) ==> Pow(pf, d) != size
  {
    var k: nat :| Pow(pf, k) == size;
    if pf != 1 {
      forall d: nat | d < Height(pf, size)
        ensures Pow(pf, d) != size
      {
        PowStrictlyIncreasing(pf, d, Height(pf, size));
      }
    }
  }

  /** A single neuron: size one is reached at depth zero. */
  lemma HeightOfOne(pf: int)
    requires pf >= 1
    ensures ValidShape(pf, 1) && Height(pf, 1) == 0
  {
    assert Pow(pf, 0) == 1;
    HeightSpec(pf, 1);
  }

  /** One layer of leaves under the root: size `pf` is reached at depth one. */
  lemma HeightOfFactor(pf: int)
    requires pf >= 2
    ensures ValidShape(pf, pf) && Height(pf, pf) == 1
  {
    assert Pow(pf, 0) == 1 && Pow(pf, 1) == pf;
    HeightSpec(pf, pf);
  }

  /** Factor two and size four: two levels below the root. */
  lemma HeightOfFour()
    ensures ValidShape(2, 4) && Height(2, 4) == 2
  {
    assert Pow(2, 0) == 1 && Pow(2, 1) == 2 && Pow(2, 2) == 4;
    HeightSpec(2, 4);
  }

  /** Number of nodes of a perfect `pf`-ary tree of height `n`. */
  function SubtreeSize(pf: nat, n: nat): nat
  {
    if n == 0 then 1 else 1 + pf * SubtreeSize(pf, n - 1)
  }

  /** The geometric series: (pf - 1) * (1 + pf + ... + pf^n) == pf^(n+1) - 1. */
  lemma {:induction false} SubtreeSizeClosedForm(pf: nat, n: nat)
    ensures (pf - 1) * SubtreeSize(pf, n) == Pow(pf, n + 1) - 1
  {
    if n > 0 {
      var below := SubtreeSize(pf, n - 1);
      SubtreeSizeClosedForm(pf, n - 1);
      assert (pf - 1) * below == Pow(pf, n) - 1;
      Regroup(pf - 1, pf, below);
      assert (pf - 1) * SubtreeSize(pf, n) == (pf - 1) + pf * (Pow(pf, n) - 1);
      assert pf * (Pow(pf, n) - 1) == Pow(pf, n + 1) - pf;
    }
  }

  lemma Regroup(a: int, b: int, c: int)
    ensures a * (1 + b * c) == a + b * (a * c)
  {
  }

  /** The node count as a quotient. */
  lemma SubtreeSizeFormula(pf: nat, n: nat)
    requires pf >= 2
    ensures SubtreeSize(pf, n) == (Pow(pf, n + 1) - 1) / (pf - 1)
  {
    SubtreeSizeClosedForm(pf, n);
    MulDiv(pf - 1, SubtreeSize(pf, n));
  }
}

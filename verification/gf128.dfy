/**
  The field GF(2^128) as section 6.3 of NIST SP 800-38D defines it: blocks
  are 128-bit strings whose bit 0 is the leftmost, addition is bitwise
  exclusive or, and the product X • Y is computed by Algorithm 1.

  This is the reference the engine's `multiply` is proved against; it knows
  nothing of the engine's 128-bit integer representation.
 */
module GF128 {

  /** A 128-bit string; bit 0 is the leftmost bit. */
  predicate IsBlock(s: seq<bool>) {
    |s| == 128
  }

  /** 0^128. */
  function Zero(): (r: seq<bool>)
    ensures IsBlock(r)
  {
    seq(128, j => false)
  }

  /** R = 11100001 || 0^120. */
  function R(): (r: seq<bool>)
    ensures IsBlock(r)
  {
    seq(128, j => j == 0 || j == 1 || j == 2 || j == 7)
  }

  /** The block whose only 1 is bit `i`; `Unit(0)` = 10^127 is the unit of the field. */
  function Unit(i: nat): (r: seq<bool>)
    ensures IsBlock(r)
  {
    seq(128, j => j == i)
  }

  /** X ⊕ Y. */
  function Add(a: seq<bool>, b: seq<bool>): (r: seq<bool>)
    requires IsBlock(a) && IsBlock(b)
    ensures IsBlock(r)
  {
    seq(128, j requires 0 <= j < 128 => a[j] != b[j])
  }

  /** X >> 1: every bit moves one place to the right and bit 0 becomes 0. */
  function Shr(v: seq<bool>): (r: seq<bool>)
    requires IsBlock(v)
    ensures IsBlock(r)
  {
    seq(128, j requires 0 <= j < 128 => j > 0 && v[j - 1])
  }

  /** The step from V_i to V_{i+1}: V_i >> 1, then ⊕ R when the rightmost bit of V_i is 1. */
  function Reduce(v: seq<bool>): (r: seq<bool>)
    requires IsBlock(v)
    ensures IsBlock(r)
  {
    if v[127] then Add(Shr(v), R()) else Shr(v)
  }

  /** V_i, starting from V_0 = Y. */
  function V(Y: seq<bool>, i: nat): (r: seq<bool>)
    requires IsBlock(Y)
    ensures IsBlock(r)
  {
    if i == 0 then Y else Reduce(V(Y, i - 1))
  }

  /** Z_i: Z_0 = 0^128, and Z_{i+1} is Z_i ⊕ V_i when bit i of X is 1, else Z_i. */
  function Z(X: seq<bool>, Y: seq<bool>, i: nat): (r: seq<bool>)
    requires IsBlock(X) && IsBlock(Y) && i <= 128
    ensures IsBlock(r)
  {
    if i == 0 then Zero()
    else if X[i - 1] then Add(Z(X, Y, i - 1), V(Y, i - 1))
    else Z(X, Y, i - 1)
  }

  /** X • Y = Z_128 (Algorithm 1). */
  function Product(X: seq<bool>, Y: seq<bool>): (r: seq<bool>)
    requires IsBlock(X) && IsBlock(Y)
    ensures IsBlock(r)
  {
    Z(X, Y, 128)
  }

  // ---------------------------------------------------------------------------
  // Addition

  lemma AddZero(a: seq<bool>)
    requires IsBlock(a)
    ensures Add(Zero(), a) == a && Add(a, Zero()) == a
  {
    assert Add(Zero(), a) == a;
    assert Add(a, Zero()) == a;
  }

  lemma AddSwap(a: seq<bool>, b: seq<bool>, c: seq<bool>, d: seq<bool>)
    requires IsBlock(a) && IsBlock(b) && IsBlock(c) && IsBlock(d)
    ensures Add(Add(a, b), Add(c, d)) == Add(Add(a, c), Add(b, d))
  {
    assert Add(Add(a, b), Add(c, d)) == Add(Add(a, c), Add(b, d));
  }

  lemma AddCancel(a: seq<bool>, b: seq<bool>, c: seq<bool>)
    requires IsBlock(a) && IsBlock(b) && IsBlock(c)
    ensures Add(Add(a, c), Add(b, c)) == Add(a, b)
  {
    assert Add(Add(a, c), Add(b, c)) == Add(a, b);
  }

  lemma AddRotate(a: seq<bool>, b: seq<bool>, c: seq<bool>)
    requires IsBlock(a) && IsBlock(b) && IsBlock(c)
    ensures Add(Add(a, b), c) == Add(Add(a, c), b)
  {
    assert Add(Add(a, b), c) == Add(Add(a, c), b);
  }

  lemma AddAssoc(a: seq<bool>, b: seq<bool>, c: seq<bool>)
    requires IsBlock(a) && IsBlock(b) && IsBlock(c)
    ensures Add(Add(a, b), c) == Add(a, Add(b, c))
  {
    assert Add(Add(a, b), c) == Add(a, Add(b, c));
  }

  // ---------------------------------------------------------------------------
  // The reduction step

  /** Reducing a sum is summing the reductions. */
  lemma ReduceAdd(a: seq<bool>, b: seq<bool>)
    requires IsBlock(a) && IsBlock(b)
    ensures Reduce(Add(a, b)) == Add(Reduce(a), Reduce(b))
  {
    var s := Add(a, b);
    assert Shr(s) == Add(Shr(a), Shr(b));
    if a[127] && b[127] {
      AddCancel(Shr(a), Shr(b), R());
    } else if a[127] {
      AddRotate(Shr(a), Shr(b), R());
    } else if b[127] {
      AddAssoc(Shr(a), Shr(b), R());
    }
  }

  lemma {:induction false} VAdd(a: seq<bool>, b: seq<bool>, i: nat)
    requires IsBlock(a) && IsBlock(b)
    ensures V(Add(a, b), i) == Add(V(a, i), V(b, i))
  {
    if i > 0 {
      VAdd(a, b, i - 1);
      ReduceAdd(V(a, i - 1), V(b, i - 1));
    }
  }

  lemma {:induction false} ZeroStaysZero(i: nat)
    ensures V(Zero(), i) == Zero()
  {
    if i > 0 {
      ZeroStaysZero(i - 1);
      assert Shr(Zero()) == Zero();
    }
  }

  /** Below bit 127, the unit moves right without reduction. */
  lemma {:induction false} UnitWalks(i: nat)
    requires i < 128
    ensures V(Unit(0), i) == Unit(i)
  {
    if i > 0 {
      UnitWalks(i - 1);
      ShrUnit(i - 1);
    }
  }

  lemma ShrUnit(i: nat)
    requires i < 127
    ensures Shr(Unit(i)) == Unit(i + 1)
  {
    assert Shr(Unit(i)) == Unit(i + 1);
  }

  // ---------------------------------------------------------------------------
  // Zero, unit and linearity of the product

  lemma {:induction false} ZeroSelectsNothing(Y: seq<bool>, i: nat)
    requires IsBlock(Y) && i <= 128
    ensures Z(Zero(), Y, i) == Zero()
  {
    if i > 0 {
      ZeroSelectsNothing(Y, i - 1);
    }
  }

  /** 0 • Y = 0. */
  lemma ProductZeroLeft(Y: seq<bool>)
    requires IsBlock(Y)
    ensures Product(Zero(), Y) == Zero()
  {
    ZeroSelectsNothing(Y, 128);
  }

  lemma {:induction false} ZeroAddsNothing(X: seq<bool>, i: nat)
    requires IsBlock(X) && i <= 128
    ensures Z(X, Zero(), i) == Zero()
  {
    if i > 0 {
      ZeroAddsNothing(X, i - 1);
      ZeroStaysZero(i - 1);
      AddZero(Zero());
    }
  }

  /** X • 0 = 0. */
  lemma ProductZeroRight(X: seq<bool>)
    requires IsBlock(X)
    ensures Product(X, Zero()) == Zero()
  {
    ZeroAddsNothing(X, 128);
  }

  /** With the unit on the left, only the first step adds, and it adds Y. */
  lemma {:induction false} UnitSelectsFirst(Y: seq<bool>, i: nat)
    requires IsBlock(Y) && 1 <= i <= 128
    ensures Z(Unit(0), Y, i) == Y
  {
    if i == 1 {
      AddZero(Y);
    } else {
      UnitSelectsFirst(Y, i - 1);
    }
  }

  /** 1 • Y = Y, with 1 = 10^127. */
  lemma ProductUnitLeft(Y: seq<bool>)
    requires IsBlock(Y)
    ensures Product(Unit(0), Y) == Y
  {
    UnitSelectsFirst(Y, 128);
  }

  /** With Unit(1) on the left, only the second step adds, and it adds V_1. */
  lemma {:induction false} UnitOneSelectsSecond(Y: seq<bool>, i: nat)
    requires IsBlock(Y) && 1 <= i <= 128
    ensures Z(Unit(1), Y, i) == if i == 1 then Zero() else V(Y, 1)
  {
    if i == 2 {
      UnitOneSelectsSecond(Y, 1);
      AddZero(V(Y, 1));
    } else if i > 2 {
      UnitOneSelectsSecond(Y, i - 1);
    }
  }

  /** Unit(1) • Y is one reduction step of Y. */
  lemma ProductUnitOne(Y: seq<bool>)
    requires IsBlock(Y)
    ensures Product(Unit(1), Y) == Reduce(Y)
  {
    UnitOneSelectsSecond(Y, 128);
  }

  /** The bits of X left of position `i`. */
  function Leading(X: seq<bool>, i: nat): (r: seq<bool>)
    requires IsBlock(X)
    ensures IsBlock(r)
  {
    seq(128, j requires 0 <= j < 128 => j < i && X[j])
  }

  /** With the unit on the right, step `i` copies bit `i` of X. */
  lemma {:induction false} UnitCopies(X: seq<bool>, i: nat)
    requires IsBlock(X) && i <= 128
    ensures Z(X, Unit(0), i) == Leading(X, i)
  {
    if i == 0 {
      assert Leading(X, 0) == Zero();
    } else {
      UnitCopies(X, i - 1);
      UnitWalks(i - 1);
      if X[i - 1] {
        assert Add(Leading(X, i - 1), Unit(i - 1)) == Leading(X, i);
      } else {
        assert Leading(X, i - 1) == Leading(X, i);
      }
    }
  }

  /** X • 1 = X. */
  lemma ProductUnitRight(X: seq<bool>)
    requires IsBlock(X)
    ensures Product(X, Unit(0)) == X
  {
    UnitCopies(X, 128);
    assert Leading(X, 128) == X;
  }

  lemma {:induction false} SelectAdd(A: seq<bool>, B: seq<bool>, Y: seq<bool>, i: nat)
    requires IsBlock(A) && IsBlock(B) && IsBlock(Y) && i <= 128
    ensures Z(Add(A, B), Y, i) == Add(Z(A, Y, i), Z(B, Y, i))
  {
    if i == 0 {
      AddZero(Zero());
    } else {
      var za, zb, v := Z(A, Y, i - 1), Z(B, Y, i - 1), V(Y, i - 1);
      SelectAdd(A, B, Y, i - 1);
      if A[i - 1] && B[i - 1] {
        AddCancel(za, zb, v);
      } else if A[i - 1] {
        AddRotate(za, zb, v);
      } else if B[i - 1] {
        AddAssoc(za, zb, v);
      }
    }
  }

  /** (A ⊕ B) • Y = A • Y ⊕ B • Y. */
  lemma ProductAddLeft(A: seq<bool>, B: seq<bool>, Y: seq<bool>)
    requires IsBlock(A) && IsBlock(B) && IsBlock(Y)
    ensures Product(Add(A, B), Y) == Add(Product(A, Y), Product(B, Y))
  {
    SelectAdd(A, B, Y, 128);
  }

  lemma {:induction false} AccumulateAdd(X: seq<bool>, A: seq<bool>, B: seq<bool>, i: nat)
    requires IsBlock(X) && IsBlock(A) && IsBlock(B) && i <= 128
    ensures Z(X, Add(A, B), i) == Add(Z(X, A, i), Z(X, B, i))
  {
    if i == 0 {
      AddZero(Zero());
    } else {
      AccumulateAdd(X, A, B, i - 1);
      if X[i - 1] {
        VAdd(A, B, i - 1);
        AddSwap(Z(X, A, i - 1), Z(X, B, i - 1), V(A, i - 1), V(B, i - 1));
      }
    }
  }

  /** X • (A ⊕ B) = X • A ⊕ X • B. */
  lemma ProductAddRight(X: seq<bool>, A: seq<bool>, B: seq<bool>)
    requires IsBlock(X) && IsBlock(A) && IsBlock(B)
    ensures Product(X, Add(A, B)) == Add(Product(X, A), Product(X, B))
  {
    AccumulateAdd(X, A, B, 128);
  }
}

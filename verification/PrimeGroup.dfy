/** A prime-order abelian group given only by its laws, and the two facts about scalar
    multiplication the key exchange rests on: the order of two scalars does not matter,
    and a non-zero scalar can be cancelled. */
module PrimeGroup {

  datatype Group<!E> = Group(zero: E, add: (E, E) -> E, neg: E -> E, order: nat)

  ghost predicate IsPrime(q: nat) {
    q >= 2 && forall d: nat :: 2 <= d < q ==> q % d != 0
  }

  /** x added to itself n times. */
  function Mul<E>(g: Group<E>, n: nat, x: E): E {
    if n == 0 then g.zero else g.add(x, Mul(g, n - 1, x))
  }

  ghost predicate Associates<E>(g: Group<E>, x: E, y: E, z: E) {
    g.add(g.add(x, y), z) == g.add(x, g.add(y, z))
  }

  ghost predicate Commutes<E>(g: Group<E>, x: E, y: E) {
    g.add(x, y) == g.add(y, x)
  }

  ghost predicate ZeroAndInverse<E>(g: Group<E>, x: E) {
    g.add(g.zero, x) == x && g.add(x, g.neg(x)) == g.zero
  }

  ghost predicate IsGroup<E(!new)>(g: Group<E>) {
    && (forall x, y, z :: Associates(g, x, y, z))
    && (forall x, y :: Commutes(g, x, y))
    && (forall x :: ZeroAndInverse(g, x))
  }

  ghost predicate IsPrimeOrderGroup<E(!new)>(g: Group<E>) {
    && IsGroup(g)
    && IsPrime(g.order)
    && (forall x :: Mul(g, g.order, x) == g.zero)
  }

  /** A usable scalar: below the group order and not zero. */
  predicate IsScalar<E>(g: Group<E>, y: nat) {
    0 < y < g.order
  }

  lemma {:induction false} MulAdd<E(!new)>(g: Group<E>, m: nat, n: nat, x: E)
    requires IsGroup(g)
    ensures Mul(g, m + n, x) == g.add(Mul(g, m, x), Mul(g, n, x))
    decreases m
  {
    if m == 0 {
      assert ZeroAndInverse(g, Mul(g, n, x));
    } else {
      MulAdd(g, m - 1, n, x);
      assert Associates(g, x, Mul(g, m - 1, x), Mul(g, n, x));
    }
  }

  lemma {:induction false} MulMul<E(!new)>(g: Group<E>, m: nat, n: nat, x: E)
    requires IsGroup(g)
    ensures Mul(g, m * n, x) == Mul(g, m, Mul(g, n, x))
    decreases m
  {
    if m == 0 {
    } else {
      MulMul(g, m - 1, n, x);
      assert m * n == n + (m - 1) * n;
      MulAdd(g, n, (m - 1) * n, x);
    }
  }

  lemma {:induction false} MulZero<E(!new)>(g: Group<E>, n: nat)
    requires IsGroup(g)
    ensures Mul(g, n, g.zero) == g.zero
    decreases n
  {
    if n == 0 {
    } else {
      MulZero(g, n - 1);
      assert ZeroAndInverse(g, g.zero);
    }
  }

  /** Two scalars applied in either order give the same element: both sides reach one K. */
  lemma MulCommutes<E(!new)>(g: Group<E>, a: nat, b: nat, x: E)
    requires IsGroup(g)
    ensures Mul(g, a, Mul(g, b, x)) == Mul(g, b, Mul(g, a, x))
  {
    MulMul(g, a, b, x);
    MulMul(g, b, a, x);
    assert a * b == b * a;
  }

  /** Below a prime every non-zero number has an inverse modulo that prime. */
  lemma {:induction false} InverseModPrime(y: nat, q: nat) returns (u: nat, k: nat)
    requires IsPrime(q) && 0 < y < q
    ensures u * y == 1 + k * q
    decreases y
  {
    if y == 1 {
      u, k := 1, 0;
    } else {
      var d, r := q / y, q % y;
      var v, m := InverseModPrime(r, q);
      var w := v * d;
      u := w * (q - 1);
      var s := LiftInverse(y, q, d, r, v, m, w);
      k := s;
    }
  }

  /** One step of Euclid's algorithm on an inverse: from one modulo q of the remainder r to
      one of y. */
  lemma LiftInverse(y: nat, q: nat, d: nat, r: nat, v: nat, m: nat, w: nat) returns (s: nat)
    requires 0 < y < q && q == d * y + r && v * r == 1 + m * q && w == v * d
    ensures w * (q - 1) * y == 1 + s * q
  {
    var a := w * y;
    assert a == v * q - v * r by {
      MulAssociates(v, d, y);
      Distributes(v, q, r);
    }
    assert w * (q - 1) * y == a * q - a by {
      MulAssociates(w, q - 1, y);
      MulAssociates(w, y, q - 1);
      Distributes(a, q, 1);
    }
    var t := a + m - v;
    assert t * q == a * q + m * q - v * q by {
      Collects(a, m, v, q);
    }
    assert w * (q - 1) * y == 1 + t * q;
    ProductNotNegative(w, q - 1, y);
    FactorNotNegative(t, q);
    s := t;
  }

  lemma Collects(a: int, m: int, v: int, q: int)
    ensures (a + m - v) * q == a * q + m * q - v * q
  {
  }

  lemma ProductNotNegative(a: nat, b: nat, c: nat)
    ensures a * b * c >= 0
  {
  }

  lemma FactorNotNegative(t: int, q: nat)
    requires q >= 2 && 1 + t * q >= 0
    ensures t >= 0
  {
  }

  lemma MulAssociates(a: int, b: int, c: int)
    ensures a * b * c == a * (b * c) && b * c == c * b
  {
  }

  lemma Distributes(v: int, q: int, r: int)
    ensures v * (q - r) == v * q - v * r
  {
  }

  /** A non-zero scalar can be cancelled, because it has an inverse modulo the order. */
  lemma MulCancels<E(!new)>(g: Group<E>, y: nat, x: E, x': E)
    requires IsPrimeOrderGroup(g) && IsScalar(g, y)
    requires Mul(g, y, x) == Mul(g, y, x')
    ensures x == x'
  {
    var u, k := InverseModPrime(y, g.order);
    UndoneByInverse(g, u, k, y, x);
    UndoneByInverse(g, u, k, y, x');
  }

  lemma UndoneByInverse<E(!new)>(g: Group<E>, u: nat, k: nat, y: nat, x: E)
    requires IsPrimeOrderGroup(g) && u * y == 1 + k * g.order
    ensures Mul(g, u, Mul(g, y, x)) == x
  {
    MulMul(g, u, y, x);
    MulAdd(g, 1, k * g.order, x);
    MulMul(g, k, g.order, x);
    MulZero(g, k);
    assert Mul(g, 1, x) == g.add(x, Mul(g, 0, x));
    assert Commutes(g, x, g.zero) && ZeroAndInverse(g, x);
  }

  /** A non-zero scalar sends nothing but the neutral element to the neutral element. */
  lemma MulIsZero<E(!new)>(g: Group<E>, y: nat, x: E)
    requires IsPrimeOrderGroup(g) && IsScalar(g, y)
    ensures Mul(g, y, x) == g.zero <==> x == g.zero
  {
    MulZero(g, y);
    if Mul(g, y, x) == g.zero {
      MulCancels(g, y, x, g.zero);
    }
  }

  const EXCLUSIVE_OR: Group<bool> := Group(false, (a: bool, b: bool) => a != b, (a: bool) => a, 2)

  /** The laws can be met: exclusive or on one bit is a group of order two. */
  lemma ExclusiveOrIsPrimeOrder()
    ensures IsPrimeOrderGroup(EXCLUSIVE_OR)
  {
    var g := EXCLUSIVE_OR;
    forall x: bool
      ensures Mul(g, 2, x) == g.zero
    {
      assert Mul(g, 1, x) == g.add(x, Mul(g, 0, x));
      assert Mul(g, 2, x) == g.add(x, Mul(g, 1, x));
    }
  }
}

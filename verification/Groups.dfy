/** Finite abelian groups given by their operations, and multiplication by a scalar. */
module Groups {

  /** The operations, and which values of `T` are elements. */
  datatype Group<!T> = Group(zero: T, add: (T, T) -> T, neg: T -> T, member: T -> bool)

  // Each law is a predicate of the elements it is about, so that it is used only where it is named.

  ghost predicate ClosedAt<T>(g: Group<T>, a: T, b: T) {
    g.member(a) && g.member(b) ==> g.member(g.add(a, b)) && g.add(a, b) == g.add(b, a)
  }

  ghost predicate AssociativeAt<T>(g: Group<T>, a: T, b: T, c: T) {
    g.member(a) && g.member(b) && g.member(c) ==> g.add(g.add(a, b), c) == g.add(a, g.add(b, c))
  }

  ghost predicate UnitsAt<T>(g: Group<T>, a: T) {
    g.member(a) ==> g.add(g.zero, a) == a && g.member(g.neg(a)) && g.add(a, g.neg(a)) == g.zero
  }

  ghost predicate Abelian<T(!new)>(g: Group<T>) {
    && g.member(g.zero)
    && (forall a, b :: ClosedAt(g, a, b))
    && (forall a, b, c :: AssociativeAt(g, a, b, c))
    && (forall a :: UnitsAt(g, a))
  }

  lemma Closed<T(!new)>(g: Group<T>, a: T, b: T)
    requires Abelian(g) && g.member(a) && g.member(b)
    ensures g.member(g.add(a, b)) && g.add(a, b) == g.add(b, a)
  {
    assert ClosedAt(g, a, b);
  }

  lemma Associative<T(!new)>(g: Group<T>, a: T, b: T, c: T)
    requires Abelian(g) && g.member(a) && g.member(b) && g.member(c)
    ensures g.add(g.add(a, b), c) == g.add(a, g.add(b, c))
  {
    assert AssociativeAt(g, a, b, c);
  }

  lemma Units<T(!new)>(g: Group<T>, a: T)
    requires Abelian(g) && g.member(a)
    ensures g.member(g.zero) && g.add(g.zero, a) == a && g.add(a, g.zero) == a
    ensures g.member(g.neg(a)) && g.add(a, g.neg(a)) == g.zero
  {
    assert UnitsAt(g, a) && ClosedAt(g, g.zero, a);
  }

  /** (a + b) + (c + d) == (a + c) + (b + d) */
  lemma Exchange<T(!new)>(g: Group<T>, a: T, b: T, c: T, d: T)
    requires Abelian(g) && g.member(a) && g.member(b) && g.member(c) && g.member(d)
    ensures g.add(g.add(a, b), g.add(c, d)) == g.add(g.add(a, c), g.add(b, d))
  {
    Closed(g, c, d);
    Closed(g, b, d);
    Closed(g, b, c);
    Associative(g, a, b, g.add(c, d));
    Associative(g, b, c, d);
    Associative(g, c, b, d);
    Associative(g, a, c, g.add(b, d));
  }

  lemma CancelLeft<T(!new)>(g: Group<T>, a: T, b: T, c: T)
    requires Abelian(g) && g.member(a) && g.member(b) && g.member(c)
    requires g.add(a, b) == g.add(a, c)
    ensures b == c
  {
    Units(g, a);
    Units(g, b);
    Units(g, c);
    Closed(g, a, g.neg(a));
    Associative(g, g.neg(a), a, b);
    Associative(g, g.neg(a), a, c);
  }

  function Times<T>(g: Group<T>, n: nat, p: T): (r: T)
    decreases n, g
  {
    if n == 0 then g.zero else g.add(p, Times(g, n - 1, p))
  }

  lemma {:induction false} TimesMember<T(!new)>(g: Group<T>, n: nat, p: T)
    requires Abelian(g) && g.member(p)
    ensures g.member(Times(g, n, p))
    decreases n
  {
    if n > 0 {
      TimesMember(g, n - 1, p);
      Closed(g, p, Times(g, n - 1, p));
    }
  }

  lemma TimesOne<T(!new)>(g: Group<T>, p: T)
    requires Abelian(g) && g.member(p)
    ensures Times(g, 1, p) == p
  {
    Units(g, p);
    assert Times(g, 1, p) == g.add(p, Times(g, 0, p));
  }

  lemma {:induction false} TimesSum<T(!new)>(g: Group<T>, m: nat, n: nat, p: T)
    requires Abelian(g) && g.member(p)
    ensures Times(g, m + n, p) == g.add(Times(g, m, p), Times(g, n, p))
    decreases m
  {
    TimesMember(g, n, p);
    if m == 0 {
      Units(g, Times(g, n, p));
    } else {
      TimesMember(g, m - 1, p);
      TimesSum(g, m - 1, n, p);
      Associative(g, p, Times(g, m - 1, p), Times(g, n, p));
    }
  }

  lemma {:induction false} TimesOfSum<T(!new)>(g: Group<T>, n: nat, p: T, q: T)
    requires Abelian(g) && g.member(p) && g.member(q)
    ensures Times(g, n, g.add(p, q)) == g.add(Times(g, n, p), Times(g, n, q))
    decreases n
  {
    if n == 0 {
      Units(g, p);
      Units(g, g.zero);
    } else {
      TimesOfSum(g, n - 1, p, q);
      TimesMember(g, n - 1, p);
      TimesMember(g, n - 1, q);
      Exchange(g, p, q, Times(g, n - 1, p), Times(g, n - 1, q));
    }
  }

  lemma {:induction false} TimesOfZero<T(!new)>(g: Group<T>, n: nat)
    requires Abelian(g)
    ensures Times(g, n, g.zero) == g.zero
    decreases n
  {
    if n > 0 {
      TimesOfZero(g, n - 1);
      Units(g, g.zero);
    }
  }

  lemma {:induction false} TimesProduct<T(!new)>(g: Group<T>, m: nat, n: nat, p: T)
    requires Abelian(g) && g.member(p)
    ensures Times(g, m * n, p) == Times(g, m, Times(g, n, p))
    decreases m
  {
    if m > 0 {
      TimesProduct(g, m - 1, n, p);
      TimesSum(g, n, (m - 1) * n, p);
      assert m * n == n + (m - 1) * n;
    }
  }

  /** A scalar counts only modulo any multiple that gives zero. */
  lemma TimesModulo<T(!new)>(g: Group<T>, k: nat, order: nat, p: T)
    requires Abelian(g) && g.member(p) && order > 0 && Times(g, order, p) == g.zero
    ensures Times(g, k, p) == Times(g, k % order, p)
  {
    var q := k / order;
    assert k == q * order + k % order;
    TimesSum(g, q * order, k % order, p);
    TimesProduct(g, q, order, p);
    TimesOfZero(g, q);
    TimesMember(g, k % order, p);
    Units(g, Times(g, k % order, p));
  }

  predicate Divides(d: nat, n: nat)
    requires d > 0
  {
    n % d == 0
  }

  ghost predicate Prime(n: nat) {
    n > 1 && forall d: nat :: 1 < d < n ==> !Divides(d, n)
  }

  /** An element that a prime and a smaller positive scalar both send to zero is zero. */
  lemma {:induction false} PrimeOrder<T(!new)>(g: Group<T>, n: nat, j: nat, p: T)
    requires Abelian(g) && g.member(p) && Prime(n)
    requires Times(g, n, p) == g.zero && Times(g, j, p) == g.zero
    requires 0 < j < n
    ensures p == g.zero
    decreases j
  {
    if j == 1 {
      TimesOne(g, p);
    } else {
      assert !Divides(j, n);
      TimesModulo(g, n, j, p);
      PrimeOrder(g, n, n % j, p);
    }
  }

  /** ... so the scalars that send a nonzero element of prime order to zero are the multiples of the prime. */
  lemma PrimeOrderMultiples<T(!new)>(g: Group<T>, n: nat, k: nat, p: T)
    requires Abelian(g) && g.member(p) && Prime(n)
    requires Times(g, n, p) == g.zero && p != g.zero
    ensures Times(g, k, p) == g.zero <==> k % n == 0
  {
    TimesModulo(g, k, n, p);
    if Times(g, k, p) == g.zero && k % n != 0 {
      PrimeOrder(g, n, k % n, p);
    }
  }
}

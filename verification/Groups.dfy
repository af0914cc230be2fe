/** Groups given by their operations, and multiples of an element. */
module Groups {
  datatype Group<!T> = Group(identity: T, add: (T, T) -> T, inverse: T -> T, inversionIsFast: bool)

  ghost predicate IsGroup<T(!new)>(G: Group<T>) {
    && (forall a, b, c :: G.add(G.add(a, b), c) == G.add(a, G.add(b, c)))
    && (forall a :: G.add(G.identity, a) == a && G.add(a, G.identity) == a)
    && (forall a :: G.add(a, G.inverse(a)) == G.identity && G.add(G.inverse(a), a) == G.identity)
  }

  /** n * x, by repeated addition of x or of its inverse. */
  function Times<T>(G: Group<T>, n: int, x: T): T
    decreases if n < 0 then -n else n
  {
    if n == 0 then G.identity
    else if n > 0 then G.add(Times(G, n - 1, x), x)
    else G.add(Times(G, n + 1, x), G.inverse(x))
  }

  lemma TimesNext<T(!new)>(G: Group<T>, n: int, x: T)
    requires IsGroup(G)
    ensures Times(G, n + 1, x) == G.add(Times(G, n, x), x)
  {
    if n < 0 {
      var t := Times(G, n + 1, x);
      assert Times(G, n, x) == G.add(t, G.inverse(x));
      assert G.add(G.add(t, G.inverse(x)), x) == G.add(t, G.add(G.inverse(x), x));
    }
  }

  lemma TimesPrevious<T(!new)>(G: Group<T>, n: int, x: T)
    requires IsGroup(G)
    ensures Times(G, n - 1, x) == G.add(Times(G, n, x), G.inverse(x))
  {
    TimesNext(G, n - 1, x);
    var t := Times(G, n - 1, x);
    assert G.add(G.add(t, x), G.inverse(x)) == G.add(t, G.add(x, G.inverse(x)));
  }

  lemma Associate<T(!new)>(G: Group<T>, a: T, b: T, c: T)
    requires IsGroup(G)
    ensures G.add(G.add(a, b), c) == G.add(a, G.add(b, c))
  {
  }

  lemma AddZero<T(!new)>(G: Group<T>, a: T, x: T)
    requires IsGroup(G)
    ensures G.add(a, Times(G, 0, x)) == a
  {
  }

  /** Multiples of one element add up, in any group. */
  lemma {:induction false} TimesAdd<T(!new)>(G: Group<T>, m: int, n: int, x: T)
    requires IsGroup(G)
    ensures G.add(Times(G, m, x), Times(G, n, x)) == Times(G, m + n, x)
    decreases if n < 0 then -n else n
  {
    hide IsGroup;
    var a := Times(G, m, x);
    if n > 0 {
      TimesAdd(G, m, n - 1, x);
      TimesNext(G, m + n - 1, x);
      TimesNext(G, n - 1, x);
      Associate(G, a, Times(G, n - 1, x), x);
    } else if n < 0 {
      TimesAdd(G, m, n + 1, x);
      TimesPrevious(G, m + n + 1, x);
      TimesPrevious(G, n + 1, x);
      Associate(G, a, Times(G, n + 1, x), G.inverse(x));
    } else {
      AddZero(G, a, x);
    }
  }

  lemma InverseUnique<T(!new)>(G: Group<T>, a: T, b: T)
    requires IsGroup(G) && G.add(a, b) == G.identity
    ensures G.inverse(a) == b
  {
    assert G.add(G.inverse(a), G.add(a, b)) == G.add(G.add(G.inverse(a), a), b);
  }

  lemma TimesNegate<T(!new)>(G: Group<T>, n: int, x: T)
    requires IsGroup(G)
    ensures G.inverse(Times(G, n, x)) == Times(G, -n, x)
  {
    TimesAdd(G, n, -n, x);
    InverseUnique(G, Times(G, n, x), Times(G, -n, x));
  }

  lemma TimesOne<T(!new)>(G: Group<T>, x: T)
    requires IsGroup(G)
    ensures Times(G, 1, x) == x && Times(G, 0, x) == G.identity
  {
    assert Times(G, 0, x) == G.identity;
  }
}

/** Sizes of finite sets: ranges, products and one-to-one correspondences. */
module Counting {
  ghost function Below(n: nat): (s: set<nat>)
    ensures forall i: nat :: i in s <==> i < n
  {
    if n == 0 then {} else Below(n - 1) + {n - 1}
  }

  ghost function Product<X, Y>(xs: set<X>, ys: set<Y>): set<(X, Y)> {
    set x, y | x in xs && y in ys :: (x, y)
  }

  lemma {:induction false} BelowSize(n: nat)
    ensures |Below(n)| == n
  {
    if n > 0 {
      BelowSize(n - 1);
    }
  }

  /** `f` and `g` are inverse to one another between `xs` and `ys`. */
  ghost predicate Inverse<X(!new), Y(!new)>(xs: set<X>, ys: set<Y>, f: X -> Y, g: Y -> X) {
    && (forall x :: x in xs ==> f(x) in ys && g(f(x)) == x)
    && (forall y :: y in ys ==> g(y) in xs && f(g(y)) == y)
  }

  lemma {:induction false} EqualSize<X(!new), Y(!new)>(xs: set<X>, ys: set<Y>, f: X -> Y, g: Y -> X)
    requires Inverse(xs, ys, f, g)
    ensures |xs| == |ys|
    decreases xs
  {
    if xs == {} {
      if y :| y in ys {
        assert g(y) in xs;
      }
    } else {
      var x :| x in xs;
      EqualSize(xs - {x}, ys - {f(x)}, f, g);
    }
  }

  lemma InverseSize<X(!new), Y(!new)>(xs: set<X>, ys: set<Y>, f: X -> Y, g: Y -> X)
    requires forall x :: x in xs ==> f(x) in ys && g(f(x)) == x
    requires forall y :: y in ys ==> g(y) in xs && f(g(y)) == y
    ensures |xs| == |ys|
  {
    EqualSize(xs, ys, f, g);
  }

  lemma {:induction false} ProductSize<X(!new), Y(!new)>(xs: set<X>, ys: set<Y>)
    ensures |Product(xs, ys)| == |xs| * |ys|
    decreases xs
  {
    if xs == {} {
      assert Product(xs, ys) == {};
    } else {
      var x :| x in xs;
      var rest := xs - {x};
      ProductSize(rest, ys);
      var row := Product({x}, ys);
      assert Product(xs, ys) == Product(rest, ys) + row;
      assert Product(rest, ys) !! row;
      EqualSize(ys, row, (y: Y) => (x, y), (p: (X, Y)) => p.1);
      assert |Product(xs, ys)| == |Product(rest, ys)| + |row|;
      Distribute(|rest|, |ys|);
    }
  }

  lemma Distribute(a: nat, b: nat)
    ensures (a + 1) * b == a * b + b
  {
  }

  lemma BoxSize(a: nat, b: nat, c: nat, d: nat)
    ensures |Product(Product(Below(a), Below(b)), Product(Below(c), Below(d)))| == (a * b) * (c * d)
  {
    BelowSize(a);
    BelowSize(b);
    BelowSize(c);
    BelowSize(d);
    ProductSize(Below(a), Below(b));
    ProductSize(Below(c), Below(d));
    ProductSize(Product(Below(a), Below(b)), Product(Below(c), Below(d)));
  }
}

/** Small facts about finite sets used by the iterations over sets. */
module Sets {

  /** A non-empty set has an element. */
  lemma NonEmpty<T>(s: set<T>)
    requires s != {}
    ensures exists x :: x in s
  {
    assert (forall x :: x !in s) ==> s == {};
  }

  /** A subset is no larger than its superset. */
  lemma SubsetCard<T>(a: set<T>, b: set<T>)
    requires a <= b
    ensures |a| <= |b|
  {
    assert b == a + (b - a);
    assert |a + (b - a)| == |a| + |b - a|;
  }

  /** Lists the elements of a finite set, each once, in an arbitrary order. */
  method Enumerate<T>(s: set<T>) returns (xs: seq<T>)
    ensures |xs| == |s|
    ensures forall x :: x in xs <==> x in s
    ensures forall i, j :: 0 <= i < j < |xs| ==> xs[i] != xs[j]
  {
    xs := [];
    var todo := s;
    while todo != {}
      invariant todo <= s
      invariant |xs| + |todo| == |s|
      invariant forall x :: x in s <==> x in xs || x in todo
      invariant forall x :: x in xs ==> x !in todo
      invariant forall i, j :: 0 <= i < j < |xs| ==> xs[i] != xs[j]
      decreases |todo|
    {
      NonEmpty(todo);
      var x :| x in todo;
      xs := xs + [x];
      todo := todo - {x};
    }
  }

  /** The elements of a concatenation are those of its two parts. */
  lemma ElemsAppend<T>(a: seq<T>, b: seq<T>)
    ensures (set x | x in a + b) == (set x | x in a) + (set x | x in b)
  {
  }

  lemma UnionShift<T>(found: set<T>, moved: set<T>, rest: set<T>)
    ensures (found + moved) + rest == found + (rest + moved)
  {
  }

  /** Some element of a non-empty set. */
  ghost function Pick<T>(s: set<T>): (x: T)
    requires s != {}
    ensures x in s
  {
    assert (forall y :: y !in s) ==> s == {};
    var x :| x in s;
    x
  }

  /** The sum of f over the elements of a finite set. */
  ghost function SumOf<T>(s: set<T>, f: T -> nat): nat
    decreases |s|
  {
    if s == {} then 0 else var x := Pick(s); f(x) + SumOf(s - {x}, f)
  }

  /** The sum can be split at any element, not only the one it picks. */
  lemma {:induction false} SumOfRemove<T>(s: set<T>, f: T -> nat, x: T)
    requires x in s
    ensures SumOf(s, f) == f(x) + SumOf(s - {x}, f)
    decreases |s|
  {
    var y := Pick(s);
    if y != x {
      SumOfRemove(s - {y}, f, x);
      SumOfRemove(s - {x}, f, y);
      assert s - {y} - {x} == s - {x} - {y};
    }
  }

  /** Adding a new element adds its weight. */
  lemma SumOfAdd<T>(s: set<T>, f: T -> nat, x: T)
    requires x !in s
    ensures SumOf(s + {x}, f) == SumOf(s, f) + f(x)
  {
    SumOfRemove(s + {x}, f, x);
    assert s + {x} - {x} == s;
  }

  /** The image of a set under g. */
  ghost function Image<T, U>(s: set<T>, g: T -> U): (r: set<U>)
    ensures forall x :: x in s ==> g(x) in r
    ensures forall u :: u in r ==> exists x :: x in s && g(x) == u
  {
    set x | x in s :: g(x)
  }

  /** Summing f over s is summing h over the image of s under g, when g is
      one-to-one on s and f is h after g. */
  lemma {:induction false} SumOfImage<T, U>(s: set<T>, g: T -> U, f: T -> nat, h: U -> nat)
    requires forall x :: x in s ==> f(x) == h(g(x))
    requires forall x, y :: x in s && y in s && g(x) == g(y) ==> x == y
    ensures SumOf(s, f) == SumOf(Image(s, g), h)
    decreases |s|
  {
    if s != {} {
      var x := Pick(s);
      SumOfImage(s - {x}, g, f, h);
      assert Image(s - {x}, g) == Image(s, g) - {g(x)};
      SumOfRemove(Image(s, g), h, g(x));
    } else {
      assert Image(s, g) == {};
    }
  }
}

// Sums of a function over a finite set.
module Sums {
  ghost function Total<T(!new)>(s: set<T>, f: T -> nat): nat {
    if s == {} then 0 else var x :| x in s; f(x) + Total(s - {x}, f)
  }

  lemma {:induction false} TotalSplit<T(!new)>(s: set<T>, f: T -> nat, x: T)
    requires x in s
    ensures Total(s, f) == f(x) + Total(s - {x}, f)
    decreases s
  {
    var y :| y in s && Total(s, f) == f(y) + Total(s - {y}, f);
    if y != x {
      TotalSplit(s - {y}, f, x);
      TotalSplit(s - {x}, f, y);
      assert s - {y} - {x} == s - {x} - {y};
    }
  }

  lemma {:induction false} TotalSame<T(!new)>(s: set<T>, f: T -> nat, g: T -> nat)
    requires forall x :: x in s ==> f(x) == g(x)
    ensures Total(s, f) == Total(s, g)
    decreases s
  {
    if s != {} {
      var y :| y in s && Total(s, f) == f(y) + Total(s - {y}, f);
      TotalSame(s - {y}, f, g);
      TotalSplit(s, g, y);
    }
  }

  /** If f and g differ in x only. */
  lemma TotalChanges<T(!new)>(s: set<T>, f: T -> nat, g: T -> nat, x: T)
    requires x in s && forall y :: y in s && y != x ==> f(y) == g(y)
    ensures Total(s, g) - Total(s, f) == g(x) - f(x)
  {
    TotalSplit(s, f, x);
    TotalSplit(s, g, x);
    TotalSame(s - {x}, f, g);
  }
}

/** Orders used by the writer: Python's string comparison (code point by
    code point, a proper prefix first) and the numeric order of IPv4
    addresses; and sorting a set into a strictly increasing sequence. */
module Order {
  import opened Wrappers
  import IPv4

  /** `a < b` on Python `str`: the first differing code point decides, and
      a proper prefix comes first. */
  predicate LexLess(a: string, b: string)
    decreases |a|
  {
    if |a| == 0 then |b| > 0
    else if |b| == 0 then false
    else if a[0] != b[0] then a[0] < b[0]
    else LexLess(a[1..], b[1..])
  }

  /** `ipaddress.IPv4Address(a) < ipaddress.IPv4Address(b)`. */
  predicate AddressLess(a: string, b: string) {
    IPv4.IsAddress(a) && IPv4.IsAddress(b) && IPv4.Parse(a).value < IPv4.Parse(b).value
  }

  /** `lt` is a strict total order on the elements of `s`. */
  ghost predicate StrictTotalOn<T>(lt: (T, T) -> bool, s: set<T>) {
    && (forall a | a in s :: !lt(a, a))
    && (forall a, b, c | a in s && b in s && c in s :: lt(a, b) && lt(b, c) ==> lt(a, c))
    && (forall a, b | a in s && b in s :: a != b ==> lt(a, b) || lt(b, a))
  }

  /** Every element is `lt`-below every later one. */
  predicate Increasing<T>(xs: seq<T>, lt: (T, T) -> bool) {
    forall i, j | 0 <= i < j < |xs| :: lt(xs[i], xs[j])
  }

  function Elements<T>(xs: seq<T>): set<T> {
    set x | x in xs
  }

  lemma {:induction false} LexLessIrreflexive(a: string)
    ensures !LexLess(a, a)
    decreases |a|
  {
    if |a| > 0 {
      LexLessIrreflexive(a[1..]);
    }
  }

  lemma {:induction false} LexLessTransitive(a: string, b: string, c: string)
    requires LexLess(a, b) && LexLess(b, c)
    ensures LexLess(a, c)
    decreases |a|
  {
    if |a| > 0 && |b| > 0 && |c| > 0 && a[0] == b[0] && b[0] == c[0] {
      LexLessTransitive(a[1..], b[1..], c[1..]);
    }
  }

  lemma {:induction false} LexLessTotal(a: string, b: string)
    requires a != b
    ensures LexLess(a, b) || LexLess(b, a)
    decreases |a|
  {
    if |a| > 0 && |b| > 0 && a[0] == b[0] {
      assert a == [a[0]] + a[1..] && b == [b[0]] + b[1..];
      LexLessTotal(a[1..], b[1..]);
    }
  }

  /** Python's string order is a strict total order on any set of strings. */
  lemma {:induction false} LexLessStrictTotal(s: set<string>)
    ensures StrictTotalOn(LexLess, s)
  {
    forall a | a in s
      ensures !LexLess(a, a)
    {
      LexLessIrreflexive(a);
    }
    forall a, b, c | a in s && b in s && c in s && LexLess(a, b) && LexLess(b, c)
      ensures LexLess(a, c)
    {
      LexLessTransitive(a, b, c);
    }
    forall a, b | a in s && b in s && a != b
      ensures LexLess(a, b) || LexLess(b, a)
    {
      LexLessTotal(a, b);
    }
  }

  /** Numeric address order is a strict total order on any set of
      addresses, because the accepted syntax is canonical. */
  lemma {:induction false} AddressLessStrictTotal(s: set<string>)
    requires forall a | a in s :: IPv4.IsAddress(a)
    ensures StrictTotalOn(AddressLess, s)
  {
    forall a, b | a in s && b in s && a != b
      ensures AddressLess(a, b) || AddressLess(b, a)
    {
      if IPv4.Parse(a) == IPv4.Parse(b) {
        IPv4.ParseInjective(a, b);
      }
    }
  }

  /** Insert `x` at its place in an increasing sequence. */
  function Insert<T>(x: T, xs: seq<T>, lt: (T, T) -> bool): (r: seq<T>)
    requires Increasing(xs, lt) && x !in xs
    requires StrictTotalOn(lt, Elements(xs) + {x})
    ensures Increasing(r, lt)
    ensures Elements(r) == Elements(xs) + {x}
    ensures |r| == |xs| + 1
  {
    if |xs| == 0 then [x]
    else if lt(x, xs[0]) then [x] + xs
    else
      var rest := Insert(x, xs[1..], lt);
      InsertAfterHead(x, xs, rest, lt);
      [xs[0]] + rest
  }

  /** When `x` does not go first, the head stays in front of the insertion
      into the tail. */
  lemma {:induction false} InsertAfterHead<T>(x: T, xs: seq<T>, rest: seq<T>, lt: (T, T) -> bool)
    requires |xs| > 0 && Increasing(xs, lt) && x !in xs && !lt(x, xs[0])
    requires StrictTotalOn(lt, Elements(xs) + {x})
    requires Increasing(rest, lt) && Elements(rest) == Elements(xs[1..]) + {x}
    ensures Increasing([xs[0]] + rest, lt)
    ensures Elements([xs[0]] + rest) == Elements(xs) + {x}
  {
    assert xs[0] in Elements(xs) && x != xs[0];
    assert lt(xs[0], x);
    assert Elements(xs) == {xs[0]} + Elements(xs[1..]);
    forall y | y in rest
      ensures lt(xs[0], y)
    {
      assert y in Elements(rest);
      if y != x {
        var i :| 0 <= i < |xs[1..]| && xs[1..][i] == y;
        assert xs[i + 1] == y;
      }
    }
    ConsIncreasing(xs[0], rest, lt);
  }

  /** An element below everything in an increasing sequence can go first. */
  lemma {:induction false} ConsIncreasing<T>(h: T, rest: seq<T>, lt: (T, T) -> bool)
    requires Increasing(rest, lt) && forall y | y in rest :: lt(h, y)
    ensures Increasing([h] + rest, lt)
  {
    var r := [h] + rest;
    forall i, j | 0 <= i < j < |r|
      ensures lt(r[i], r[j])
    {
      assert r[j] == rest[j - 1];
      if i > 0 {
        assert r[i] == rest[i - 1];
      }
    }
  }

  /** `sorted(s)`: the elements of `s`, each once, in increasing order. */
  method Sort<T>(s: set<T>, lt: (T, T) -> bool) returns (xs: seq<T>)
    requires StrictTotalOn(lt, s)
    ensures Increasing(xs, lt)
    ensures Elements(xs) == s
    ensures |xs| == |s|
  {
    xs := [];
    var rest := s;
    while rest != {}
      invariant rest <= s
      invariant Increasing(xs, lt)
      invariant Elements(xs) == s - rest
      invariant |xs| + |rest| == |s|
      decreases |rest|
    {
      var x :| x in rest;
      xs := Insert(x, xs, lt);
      rest := rest - {x};
    }
  }

  /** A sequence is empty exactly when it has no elements. */
  lemma {:induction false} ElementsEmpty<T>(xs: seq<T>)
    ensures Elements(xs) == {} <==> |xs| == 0
  {
    if |xs| > 0 {
      assert xs[0] in Elements(xs);
    }
  }

  /** The head of an increasing sequence is below all its other elements. */
  lemma {:induction false} HeadIsLeast<T>(xs: seq<T>, lt: (T, T) -> bool)
    requires |xs| > 0 && Increasing(xs, lt)
    ensures forall y | y in Elements(xs) :: y == xs[0] || lt(xs[0], y)
  {
  }

  /** There is only one increasing arrangement of a set, so the sorted
      output does not depend on the order in which the set is iterated. */
  lemma {:induction false} IncreasingUnique<T>(xs: seq<T>, ys: seq<T>, lt: (T, T) -> bool)
    requires StrictTotalOn(lt, Elements(xs))
    requires Increasing(xs, lt) && Increasing(ys, lt)
    requires Elements(xs) == Elements(ys)
    ensures xs == ys
    decreases |xs|
  {
    ElementsEmpty(xs);
    ElementsEmpty(ys);
    if |xs| > 0 {
      assert xs[0] in Elements(ys) && ys[0] in Elements(xs);
      HeadIsLeast(xs, lt);
      HeadIsLeast(ys, lt);
      assert ys[0] == xs[0];
      assert Elements(xs[1..]) == Elements(ys[1..]) by {
        forall y | y in xs[1..]
          ensures y in ys[1..]
        {
          var i :| 1 <= i < |xs| && xs[i] == y;
          assert lt(xs[0], xs[i]);
          assert xs[i] in Elements(xs);
          assert y != xs[0];
          assert y in Elements(ys);
          var j :| 0 <= j < |ys| && ys[j] == y;
          assert j != 0;
          assert ys[1..][j - 1] == y;
        }
        forall y | y in ys[1..]
          ensures y in xs[1..]
        {
          var j :| 1 <= j < |ys| && ys[j] == y;
          assert lt(ys[0], ys[j]);
          assert ys[0] in Elements(xs) && ys[j] in Elements(xs);
          assert y != ys[0];
          assert y in Elements(xs);
          var i :| 0 <= i < |xs| && xs[i] == y;
          assert i != 0;
          assert xs[1..][i - 1] == y;
        }
      }
      assert StrictTotalOn(lt, Elements(xs[1..])) by {
        assert Elements(xs[1..]) <= Elements(xs);
      }
      IncreasingUnique(xs[1..], ys[1..], lt);
    }
  }
}

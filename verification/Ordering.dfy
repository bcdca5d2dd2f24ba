/** The code-point order Python sorts `str` by, and what `sorted` returns for a set of names. */
module Ordering {
  predicate Less(a: string, b: string)
  {
    b != [] && (a == [] || a[0] < b[0] || (a[0] == b[0] && Less(a[1..], b[1..])))
  }

  /** The two agree up to `k`, and there `a` ends or has the smaller character. */
  ghost predicate LessAt(a: string, b: string, k: int) {
    0 <= k <= |a| && k < |b| && a[..k] == b[..k] && (k == |a| || a[k] < b[k])
  }

  /** At the first place where two texts differ, the smaller has the smaller character, or ends. */
  lemma {:induction false} LessIsLexicographic(a: string, b: string)
    ensures Less(a, b) <==> exists k :: LessAt(a, b, k)
  {
    assert a[..0] == "" && b[..0] == "";
    if a != [] && b != [] && a[0] == b[0] {
      LessIsLexicographic(a[1..], b[1..]);
      forall k
        ensures LessAt(a, b, k) <==> LessAt(a[1..], b[1..], k - 1)
      {
        LessAtBehind(a, b, k);
      }
      hide LessAt;
      if Less(a, b) {
        var k :| LessAt(a[1..], b[1..], k);
        assert LessAt(a, b, k + 1);
      }
    } else {
      assert Less(a, b) ==> LessAt(a, b, 0);
      forall k
        ensures LessAt(a, b, k) ==> Less(a, b)
      {
        LessAtFront(a, b, k);
      }
    }
  }

  lemma LessAtFront(a: string, b: string, k: int)
    requires !(a != [] && b != [] && a[0] == b[0])
    ensures LessAt(a, b, k) ==> Less(a, b)
  {
    if 0 < k <= |a| && k < |b| {
      assert a[..k][0] == a[0] && b[..k][0] == b[0];
    }
  }

  lemma LessAtBehind(a: string, b: string, k: int)
    requires a != [] && b != [] && a[0] == b[0]
    ensures LessAt(a, b, k) <==> LessAt(a[1..], b[1..], k - 1)
  {
    if 0 < k <= |a| && k <= |b| {
      assert a[..k] == [a[0]] + a[1..][..k - 1] && b[..k] == [b[0]] + b[1..][..k - 1];
      assert a[..k][1..] == a[1..][..k - 1] && b[..k][1..] == b[1..][..k - 1];
    }
  }

  lemma {:induction false} LessIsStrict(a: string, b: string)
    ensures !(Less(a, b) && Less(b, a))
  {
    if a != [] && b != [] {
      LessIsStrict(a[1..], b[1..]);
    }
  }

  lemma {:induction false} LessIsTotal(a: string, b: string)
    ensures a == b || Less(a, b) || Less(b, a)
  {
    if a != [] && b != [] && a[0] == b[0] {
      LessIsTotal(a[1..], b[1..]);
      assert a == [a[0]] + a[1..] && b == [b[0]] + b[1..];
    }
  }

  lemma {:induction false} LessIsTransitive(a: string, b: string, c: string)
    requires Less(a, b) && Less(b, c)
    ensures Less(a, c)
  {
    if a != [] && a[0] == b[0] == c[0] {
      LessIsTransitive(a[1..], b[1..], c[1..]);
    }
  }

  predicate IsLeast(m: string, s: set<string>)
  {
    m in s && forall x | x in s :: x == m || Less(m, x)
  }

  lemma {:induction false} LeastExists(s: set<string>) returns (m: string)
    requires s != {}
    ensures IsLeast(m, s)
    decreases |s|
  {
    m :| m in s;
    if s != {m} {
      var rest := LeastExists(s - {m});
      LessIsTotal(m, rest);
      forall x | x in s
        ensures x == m || x == rest || Less(rest, x)
      {}
      if Less(m, rest) {
        forall x | x in s && x != m
          ensures Less(m, x)
        {
          if x != rest { LessIsTransitive(m, rest, x); }
        }
      } else {
        m := rest;
      }
    }
  }

  lemma LeastIsUnique(s: set<string>, m: string, n: string)
    requires IsLeast(m, s) && IsLeast(n, s)
    ensures m == n
  {
    LessIsStrict(m, n);
  }

  function Least(s: set<string>): (m: string)
    requires s != {}
    ensures IsLeast(m, s)
  {
    assert exists m :: IsLeast(m, s) by { var m := LeastExists(s); }
    assert forall m, n | IsLeast(m, s) && IsLeast(n, s) :: m == n by {
      forall m, n | IsLeast(m, s) && IsLeast(n, s) ensures m == n { LeastIsUnique(s, m, n); }
    }
    var m :| m in s && IsLeast(m, s);
    m
  }

  ghost predicate Ascending(names: seq<string>)
  {
    forall i, j | 0 <= i < j < |names| :: Less(names[i], names[j])
  }

  function Elements<T>(t: seq<T>): set<T>
  {
    set x | x in t
  }

  lemma ElementsOfCons<T>(x: T, t: seq<T>)
    ensures Elements([x] + t) == {x} + Elements(t)
  {
    forall y | y in {x} + Elements(t)
      ensures y in Elements([x] + t)
    {
      assert y == ([x] + t)[0] || y in t;
    }
  }

  lemma AscendingCons(m: string, s: set<string>, rest: seq<string>)
    requires IsLeast(m, s) && Elements(rest) == s - {m} && Ascending(rest)
    ensures Elements([m] + rest) == s && Ascending([m] + rest)
  {
    ElementsOfCons(m, rest);
    forall i, j | 0 <= i < j < |[m] + rest|
      ensures Less(([m] + rest)[i], ([m] + rest)[j])
    {
      assert ([m] + rest)[j] == rest[j - 1];
      assert rest[j - 1] in Elements(rest);
    }
  }

  /** `sorted(s)`: every name once, in order. */
  function Sorted(s: set<string>): (names: seq<string>)
    ensures Elements(names) == s
    ensures Ascending(names)
    decreases |s|
  {
    if s == {} then []
    else
      var m := Least(s);
      var rest := Sorted(s - {m});
      AscendingCons(m, s, rest);
      [m] + rest
  }
}

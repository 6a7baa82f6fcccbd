/** Stable sorting by a total preorder, and why it forgets the order of its input. */
module Sorting {
  /** Strings compare code point by code point, a prefix first. */
  predicate StrLeq(a: string, b: string)
    decreases |a|
  {
    a == "" || (b != "" && (a[0] < b[0] || (a[0] == b[0] && StrLeq(a[1..], b[1..]))))
  }

  lemma {:induction false} StrTotal(a: string, b: string)
    ensures StrLeq(a, b) || StrLeq(b, a)
    ensures StrLeq(a, b) && StrLeq(b, a) ==> a == b
    decreases |a|
  {
    if a != "" && b != "" && a[0] == b[0] {
      StrTotal(a[1..], b[1..]);
      assert a == [a[0]] + a[1..] && b == [b[0]] + b[1..];
    }
  }

  lemma {:induction false} StrTransitive(a: string, b: string, c: string)
    requires StrLeq(a, b) && StrLeq(b, c)
    ensures StrLeq(a, c)
    decreases |a|
  {
    if a != "" && a[0] == b[0] == c[0] { StrTransitive(a[1..], b[1..], c[1..]); }
  }

  /** The first place where they differ decides; without one the shorter comes first. */
  lemma {:induction false} StrLeqMeans(a: string, b: string)
    ensures StrLeq(a, b) <==> a <= b || exists k | 0 <= k < |a| && k < |b| :: a[..k] == b[..k] && a[k] < b[k]
    decreases |a|
  {
    if a == "" {
    } else if b == "" {
    } else if a[0] != b[0] {
      assert a[..0] == b[..0];
      assert forall k | 0 < k < |a| && k < |b| :: a[..k][0] == a[0] && b[..k][0] == b[0];
    } else {
      var c, d := a[1..], b[1..];
      StrLeqMeans(c, d);
      assert a == [a[0]] + c && b == [b[0]] + d;
      if k :| 0 <= k < |c| && k < |d| && c[..k] == d[..k] && c[k] < d[k] {
        assert a[..k + 1] == [a[0]] + c[..k] && b[..k + 1] == [b[0]] + d[..k];
      }
      if k :| 0 <= k < |a| && k < |b| && a[..k] == b[..k] && a[k] < b[k] {
        assert k > 0;
        assert c[..k - 1] == a[..k][1..] && d[..k - 1] == b[..k][1..];
      }
    }
  }

  /** Tuples of strings compare place by place. */
  predicate LexLeq(a: seq<string>, b: seq<string>)
    decreases |a|
  {
    a == [] || (b != [] && if a[0] == b[0] then LexLeq(a[1..], b[1..]) else StrLeq(a[0], b[0]))
  }

  /** Two tuples of one length are in order exactly when they are equal or their first difference is. */
  lemma {:induction false} LexLeqMeans(a: seq<string>, b: seq<string>)
    requires |a| == |b|
    ensures LexLeq(a, b) <==> a == b || exists k | 0 <= k < |a| :: a[..k] == b[..k] && a[k] != b[k] && StrLeq(a[k], b[k])
    decreases |a|
  {
    if a != [] {
      if a[0] != b[0] {
        assert a[..0] == b[..0];
        assert forall k | 0 < k < |a| :: a[..k][0] == a[0] && b[..k][0] == b[0];
      } else {
        var c, d := a[1..], b[1..];
        LexLeqMeans(c, d);
        assert a == [a[0]] + c && b == [b[0]] + d;
        if k :| 0 <= k < |c| && c[..k] == d[..k] && c[k] != d[k] && StrLeq(c[k], d[k]) {
          assert a[..k + 1] == [a[0]] + c[..k] && b[..k + 1] == [b[0]] + d[..k];
        }
        if k :| 0 <= k < |a| && a[..k] == b[..k] && a[k] != b[k] && StrLeq(a[k], b[k]) {
          assert k > 0;
          assert c[..k - 1] == a[..k][1..] && d[..k - 1] == b[..k][1..];
        }
      }
    }
  }

  lemma {:induction false} LexTotal(a: seq<string>, b: seq<string>)
    ensures LexLeq(a, b) || LexLeq(b, a)
    ensures LexLeq(a, b) && LexLeq(b, a) ==> a == b
    decreases |a|
  {
    if a != [] && b != [] {
      StrTotal(a[0], b[0]);
      if a[0] == b[0] {
        LexTotal(a[1..], b[1..]);
        assert a == [a[0]] + a[1..] && b == [b[0]] + b[1..];
      }
    }
  }

  lemma {:induction false} LexTransitive(a: seq<string>, b: seq<string>, c: seq<string>)
    requires LexLeq(a, b) && LexLeq(b, c)
    ensures LexLeq(a, c)
    decreases |a|
  {
    if a != [] {
      if a[0] == b[0] == c[0] {
        LexTransitive(a[1..], b[1..], c[1..]);
      } else if a[0] != b[0] && b[0] != c[0] {
        StrTransitive(a[0], b[0], c[0]);
        StrTotal(a[0], b[0]);
      }
    }
  }

  ghost predicate Order<T(!new)>(leq: (T, T) -> bool) {
    && (forall a, b :: leq(a, b) || leq(b, a))
    && (forall a, b, c | leq(a, b) && leq(b, c) :: leq(a, c))
  }

  /** Elements that compare equal are equal, as when every key is unique. */
  ghost predicate Keyed<T>(leq: (T, T) -> bool, s: seq<T>) {
    forall a, b | a in s && b in s && leq(a, b) && leq(b, a) :: a == b
  }

  function Insert<T>(leq: (T, T) -> bool, x: T, s: seq<T>): seq<T> {
    if s == [] || leq(x, s[0]) then [x] + s else [s[0]] + Insert(leq, x, s[1..])
  }

  /** Python's `sorted`: equal elements keep their order. */
  function Sort<T>(leq: (T, T) -> bool, s: seq<T>): seq<T> {
    if s == [] then [] else Insert(leq, s[0], Sort(leq, s[1..]))
  }

  ghost predicate Sorted<T>(leq: (T, T) -> bool, s: seq<T>) {
    forall i, j | 0 <= i < j < |s| :: leq(s[i], s[j])
  }

  lemma {:induction false} InsertPermutes<T>(leq: (T, T) -> bool, x: T, s: seq<T>)
    ensures multiset(Insert(leq, x, s)) == multiset{x} + multiset(s)
  {
    if s != [] && !leq(x, s[0]) {
      InsertPermutes(leq, x, s[1..]);
      assert s == [s[0]] + s[1..];
    }
  }

  lemma {:induction false} SortPermutes<T>(leq: (T, T) -> bool, s: seq<T>)
    ensures multiset(Sort(leq, s)) == multiset(s)
  {
    if s != [] {
      SortPermutes(leq, s[1..]);
      InsertPermutes(leq, s[0], Sort(leq, s[1..]));
      assert s == [s[0]] + s[1..];
    }
  }

  lemma SameElements<T>(a: seq<T>, b: seq<T>)
    requires multiset(a) == multiset(b)
    ensures |a| == |b| && forall x :: x in a <==> x in b
  {
    assert |multiset(a)| == |a| && |multiset(b)| == |b|;
    assert forall x :: x in a <==> x in multiset(a);
    assert forall x :: x in b <==> x in multiset(b);
  }

  lemma {:induction false} InsertSorts<T(!new)>(leq: (T, T) -> bool, x: T, s: seq<T>)
    requires Order(leq) && Sorted(leq, s)
    ensures Sorted(leq, Insert(leq, x, s))
  {
    if s != [] && !leq(x, s[0]) {
      var r := Insert(leq, x, s[1..]);
      InsertSorts(leq, x, s[1..]);
      InsertPermutes(leq, x, s[1..]);
      assert multiset(r) == multiset([x] + s[1..]);
      SameElements(r, [x] + s[1..]);
      forall i | 0 <= i < |r| ensures leq(s[0], r[i]) {
        assert r[i] in [x] + s[1..];
      }
    }
  }

  lemma {:induction false} SortSorts<T(!new)>(leq: (T, T) -> bool, s: seq<T>)
    requires Order(leq)
    ensures Sorted(leq, Sort(leq, s))
  {
    if s != [] {
      SortSorts(leq, s[1..]);
      InsertSorts(leq, s[0], Sort(leq, s[1..]));
    }
  }

  lemma RemoveAt<T>(s: seq<T>, j: nat)
    requires j < |s|
    ensures multiset(s) == multiset{s[j]} + multiset(s[..j] + s[j + 1..])
  {
    assert s == s[..j] + ([s[j]] + s[j + 1..]);
  }

  lemma Cancel<T>(x: T, m: multiset<T>, n: multiset<T>)
    requires multiset{x} + m == multiset{x} + n
    ensures m == n
  {
    assert m == (multiset{x} + m) - multiset{x};
    assert n == (multiset{x} + n) - multiset{x};
  }

  /** Taking one occurrence of an element out of two permutations leaves permutations. */
  lemma RestPermutes<T>(a: seq<T>, b: seq<T>, j: nat)
    requires multiset(a) == multiset(b) && a != [] && j < |b| && a[0] == b[j]
    ensures multiset(a[1..]) == multiset(b[..j] + b[j + 1..])
  {
    RemoveAt(a, 0);
    RemoveAt(b, j);
    assert a[..0] + a[1..] == a[1..];
    Cancel(a[0], multiset(a[1..]), multiset(b[..j] + b[j + 1..]));
  }

  lemma TailSorted<T>(leq: (T, T) -> bool, a: seq<T>)
    requires a != [] && Sorted(leq, a)
    ensures Sorted(leq, a[1..])
  {
    forall i, j | 0 <= i < j < |a[1..]| ensures leq(a[1..][i], a[1..][j]) {
      assert a[1..][i] == a[i + 1] && a[1..][j] == a[j + 1];
    }
  }

  lemma TailKeyed<T>(leq: (T, T) -> bool, a: seq<T>)
    requires a != [] && Keyed(leq, a) && forall x | x in a :: leq(x, x)
    ensures Keyed(leq, a[1..]) && forall x | x in a[1..] :: leq(x, x)
  {
    assert forall x | x in a[1..] :: x in a;
  }

  /** Two sorted arrangements of the same elements, which the order tells apart. */
  ghost predicate Arrangements<T>(leq: (T, T) -> bool, a: seq<T>, b: seq<T>) {
    && Sorted(leq, a) && Sorted(leq, b) && multiset(a) == multiset(b) && Keyed(leq, a)
    && forall x | x in a :: leq(x, x)
  }

  lemma SameFirst<T>(leq: (T, T) -> bool, a: seq<T>, b: seq<T>)
    requires Arrangements(leq, a, b)
    ensures |a| == |b| && (a != [] ==> a[0] == b[0])
  {
    SameElements(a, b);
    if a != [] { assert b[0] in a && a[0] in b; }
  }

  lemma Tails<T>(leq: (T, T) -> bool, a: seq<T>, b: seq<T>)
    requires Arrangements(leq, a, b) && a != [] && b != [] && a[0] == b[0]
    ensures Arrangements(leq, a[1..], b[1..])
  {
    hide Sorted, Keyed;
    RestPermutes(a, b, 0);
    assert b[..0] + b[1..] == b[1..];
    TailSorted(leq, a);
    TailSorted(leq, b);
    TailKeyed(leq, a);
  }

  /** There is one sorted arrangement. */
  lemma {:induction false} SortedIsUnique<T>(leq: (T, T) -> bool, a: seq<T>, b: seq<T>)
    requires Arrangements(leq, a, b)
    ensures a == b
  {
    hide Arrangements;
    SameFirst(leq, a, b);
    if a != [] {
      Tails(leq, a, b);
      SortedIsUnique(leq, a[1..], b[1..]);
      assert a == [a[0]] + a[1..] && b == [b[0]] + b[1..];
    }
  }

  /** Sorting forgets the order of its input. */
  lemma SortForgetsOrder<T(!new)>(leq: (T, T) -> bool, a: seq<T>, b: seq<T>)
    requires Order(leq) && multiset(a) == multiset(b) && Keyed(leq, a)
    ensures Sort(leq, a) == Sort(leq, b)
  {
    SortPermutes(leq, a);
    SortPermutes(leq, b);
    SortSorts(leq, a);
    SortSorts(leq, b);
    SameElements(a, Sort(leq, a));
    SortedIsUnique(leq, Sort(leq, a), Sort(leq, b));
  }

  function Map<S, T>(f: S -> T, s: seq<S>): (r: seq<T>)
    ensures |r| == |s| && forall i | 0 <= i < |s| :: r[i] == f(s[i])
  {
    if s == [] then [] else [f(s[0])] + Map(f, s[1..])
  }

  lemma MapWithout<S, T>(f: S -> T, b: seq<S>, j: nat)
    requires j < |b|
    ensures multiset(Map(f, b)) == multiset{f(b[j])} + multiset(Map(f, b[..j] + b[j + 1..]))
  {
    RemoveAt(Map(f, b), j);
    MapRemoved(f, b, j);
  }

  lemma MapRemoved<S, T>(f: S -> T, b: seq<S>, j: nat)
    requires j < |b|
    ensures Map(f, b)[..j] + Map(f, b)[j + 1..] == Map(f, b[..j] + b[j + 1..])
  {
    hide Map;
    var x, y, c := Map(f, b)[..j] + Map(f, b)[j + 1..], Map(f, b[..j] + b[j + 1..]), b[..j] + b[j + 1..];
    forall k | 0 <= k < |x| ensures x[k] == y[k] {
      assert c[k] == if k < j then b[k] else b[k + 1];
    }
  }

  /** The images of rearranged elements are rearranged images. */
  lemma {:induction false} MapForgetsOrder<S, T>(f: S -> T, a: seq<S>, b: seq<S>)
    requires multiset(a) == multiset(b)
    ensures multiset(Map(f, a)) == multiset(Map(f, b))
  {
    SameElements(a, b);
    if a != [] {
      assert a[0] in b;
      var j :| 0 <= j < |b| && b[j] == a[0];
      RestPermutes(a, b, j);
      MapForgetsOrder(f, a[1..], b[..j] + b[j + 1..]);
      MapWithout(f, b, j);
      MapWithout(f, a, 0);
      assert a[..0] + a[1..] == a[1..];
    }
  }

  /** A change that the order does not see commutes with sorting. */
  lemma {:induction false} InsertMap<T>(leq: (T, T) -> bool, f: T -> T, x: T, s: seq<T>)
    requires forall a, b :: leq(f(a), f(b)) == leq(a, b)
    ensures Insert(leq, f(x), Map(f, s)) == Map(f, Insert(leq, x, s))
  {
    if s != [] && !leq(x, s[0]) {
      InsertMap(leq, f, x, s[1..]);
      assert Map(f, s)[1..] == Map(f, s[1..]);
    } else if s != [] {
      assert ([x] + s)[1..] == s;
    }
  }

  lemma {:induction false} SortMap<T>(leq: (T, T) -> bool, f: T -> T, s: seq<T>)
    requires forall a, b :: leq(f(a), f(b)) == leq(a, b)
    ensures Sort(leq, Map(f, s)) == Map(f, Sort(leq, s))
  {
    if s != [] {
      SortMap(leq, f, s[1..]);
      InsertMap(leq, f, s[0], Sort(leq, s[1..]));
      assert Map(f, s)[1..] == Map(f, s[1..]);
    }
  }

  function Flat<S, T>(f: S -> seq<T>, s: seq<S>): seq<T> {
    if s == [] then [] else f(s[0]) + Flat(f, s[1..])
  }

  /** Parts that give the same pieces one by one give the same whole. */
  lemma {:induction false} FlatAlike<S, T>(f: S -> seq<T>, a: seq<S>, b: seq<S>)
    requires |a| == |b| && forall i | 0 <= i < |a| :: f(a[i]) == f(b[i])
    ensures Flat(f, a) == Flat(f, b)
  {
    if a != [] {
      assert forall i | 0 <= i < |a[1..]| :: a[1..][i] == a[i + 1] && b[1..][i] == b[i + 1];
      FlatAlike(f, a[1..], b[1..]);
    }
  }

  lemma FlatNext<S, T>(f: S -> seq<T>, s: seq<S>, i: nat)
    requires i < |s|
    ensures Flat(f, s[..i + 1]) == Flat(f, s[..i]) + f(s[i])
  {
    assert s[..i + 1] == s[..i] + [s[i]];
    FlatSplit(f, s[..i], [s[i]]);
    assert Flat(f, [s[i]]) == f(s[i]) by { assert [s[i]][1..] == [] && f(s[i]) + Flat(f, []) == f(s[i]); }
  }

  lemma {:induction false} FlatSplit<S, T>(f: S -> seq<T>, a: seq<S>, b: seq<S>)
    ensures Flat(f, a + b) == Flat(f, a) + Flat(f, b)
  {
    if a == [] {
      assert a + b == b;
    } else {
      FlatSplit(f, a[1..], b);
      assert (a + b)[1..] == a[1..] + b;
      assert f(a[0]) + (Flat(f, a[1..]) + Flat(f, b)) == (f(a[0]) + Flat(f, a[1..])) + Flat(f, b);
    }
  }

  lemma FlatWithout<S, T>(f: S -> seq<T>, b: seq<S>, j: nat)
    requires j < |b|
    ensures multiset(Flat(f, b)) == multiset(f(b[j])) + multiset(Flat(f, b[..j] + b[j + 1..]))
  {
    assert b == b[..j] + ([b[j]] + b[j + 1..]);
    FlatTakeOut(f, b[..j], b[j], b[j + 1..]);
  }

  lemma FlatTakeOut<S, T>(f: S -> seq<T>, front: seq<S>, x: S, back: seq<S>)
    ensures multiset(Flat(f, front + ([x] + back))) == multiset(f(x)) + multiset(Flat(f, front + back))
  {
    FlatSplit(f, front, back);
    FlatSplit(f, front, [x] + back);
    FlatSplit(f, [x], back);
    assert Flat(f, [x]) == f(x) by { assert [x][1..] == [] && f(x) + Flat(f, []) == f(x); }
    Rearrange(Flat(f, front), f(x), Flat(f, back));
  }

  lemma Rearrange<T>(a: seq<T>, b: seq<T>, c: seq<T>)
    ensures multiset(a + (b + c)) == multiset(b) + multiset(a + c)
  {}

  /** What is gathered from a list of parts has the same elements whatever the order of the parts. */
  lemma {:induction false} FlatForgetsOrder<S, T>(f: S -> seq<T>, a: seq<S>, b: seq<S>)
    requires multiset(a) == multiset(b)
    ensures multiset(Flat(f, a)) == multiset(Flat(f, b))
  {
    SameElements(a, b);
    if a != [] {
      assert a[0] in b;
      var j :| 0 <= j < |b| && b[j] == a[0];
      RestPermutes(a, b, j);
      FlatForgetsOrder(f, a[1..], b[..j] + b[j + 1..]);
      FlatWithout(f, b, j);
    }
  }
}

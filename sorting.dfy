/** Python's `sorted` over a set of backup file names: strings compared code
    point by code point, a proper prefix first. The result is specified as
    the unique strictly ascending listing of the set. */
module Sorting {

  /** Python's `a < b` on `str`. */
  predicate StrLess(a: string, b: string)
    decreases |a|
  {
    if a == [] then b != []
    else b != [] && (a[0] < b[0] || (a[0] == b[0] && StrLess(a[1..], b[1..])))
  }

  lemma {:induction false} StrLessIrreflexive(a: string)
    ensures !StrLess(a, a)
    decreases |a|
  {
    if a != [] {
      StrLessIrreflexive(a[1..]);
    }
  }

  lemma {:induction false} StrLessTransitive(a: string, b: string, c: string)
    requires StrLess(a, b) && StrLess(b, c)
    ensures StrLess(a, c)
    decreases |a|
  {
    if a != [] && a[0] == b[0] && b[0] == c[0] {
      StrLessTransitive(a[1..], b[1..], c[1..]);
    }
  }

  /** Any two different names are ordered one way, and not both. */
  lemma {:induction false} StrLessTotal(a: string, b: string)
    ensures a != b ==> (StrLess(a, b) <==> !StrLess(b, a))
    ensures a == b ==> !StrLess(a, b)
    decreases |a|
  {
    if a == b {
      StrLessIrreflexive(a);
    } else if a != [] && b != [] && a[0] == b[0] {
      assert a == [a[0]] + a[1..] && b == [b[0]] + b[1..];
      StrLessTotal(a[1..], b[1..]);
    }
  }

  /** A strictly ascending listing of names. */
  predicate NamesAscending(r: seq<string>) {
    forall i, j :: 0 <= i < j < |r| ==> StrLess(r[i], r[j])
  }

  lemma {:induction false} LeastNameExists(s: set<string>)
    requires s != {}
    ensures exists m :: m in s && forall x :: x in s && x != m ==> StrLess(m, x)
    decreases |s|
  {
    var y :| y in s;
    if s - {y} == {} {
      assert s == {y};
      assert forall x :: x in s && x != y ==> StrLess(y, x);
    } else {
      LeastNameExists(s - {y});
      var m :| m in s - {y} && forall x :: x in s - {y} && x != m ==> StrLess(m, x);
      StrLessTotal(m, y);
      if StrLess(m, y) {
        assert forall x :: x in s && x != m ==> StrLess(m, x);
      } else {
        forall x | x in s && x != y
          ensures StrLess(y, x)
        {
          if x != m {
            StrLessTransitive(y, m, x);
          }
        }
      }
    }
  }

  /** The least of a non-empty set of names. */
  ghost function LeastName(s: set<string>): (m: string)
    requires s != {}
    ensures m in s && forall x :: x in s && x != m ==> StrLess(m, x)
  {
    LeastNameExists(s);
    var m :| m in s && forall x :: x in s && x != m ==> StrLess(m, x);
    m
  }

  lemma LeastNameUnique(s: set<string>, m: string)
    requires m in s && forall x :: x in s && x != m ==> StrLess(m, x)
    ensures LeastName(s) == m
  {
    var l := LeastName(s);
    if l != m {
      StrLessTotal(l, m);
    }
  }

  /** `sorted(s)` for a set of names. */
  ghost function SortedNames(s: set<string>): (r: seq<string>)
    ensures |r| == |s|
    ensures forall x :: x in r <==> x in s
    ensures NamesAscending(r)
    decreases |s|
  {
    if s == {} then []
    else
      var m := LeastName(s);
      var rest := SortedNames(s - {m});
      assert forall j :: 0 <= j < |rest| ==> StrLess(m, rest[j]) by {
        forall j | 0 <= j < |rest| ensures StrLess(m, rest[j]) {
          assert rest[j] in s - {m};
        }
      }
      [m] + rest
  }

  lemma SortedNamesStep(s: set<string>, m: string)
    requires m in s && forall x :: x in s && x != m ==> StrLess(m, x)
    ensures SortedNames(s) == [m] + SortedNames(s - {m})
  {
    LeastNameUnique(s, m);
  }

  lemma AppendAssoc<T>(a: seq<T>, b: seq<T>, c: seq<T>)
    ensures (a + b) + c == a + (b + c)
  {
  }

  /** `sorted(names)`: repeatedly takes the least remaining name. */
  method SortNames(names: set<string>) returns (r: seq<string>)
    ensures r == SortedNames(names)
  {
    r := [];
    var rest := names;
    while rest != {}
      invariant r + SortedNames(rest) == SortedNames(names)
      decreases |rest|
    {
      LeastNameExists(rest);
      var m :| m in rest && forall x :: x in rest && x != m ==> StrLess(m, x);
      SortedNamesStep(rest, m);
      AppendAssoc(r, [m], SortedNames(rest - {m}));
      r := r + [m];
      rest := rest - {m};
    }
  }
}

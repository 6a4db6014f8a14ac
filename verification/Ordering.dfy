/** The code-point order on strings that Python's `sorted` and Rust's `sort` use. */
module Ordering {
  import opened Common

  predicate Before(a: string, b: string) {
    if b == "" then false
    else if a == "" then true
    else a[0] < b[0] || (a[0] == b[0] && Before(a[1..], b[1..]))
  }

  /** At the first place where they differ, `a` ends or has the smaller character. */
  ghost predicate DiffersLower(a: string, b: string, k: nat) {
    k <= |a| && k < |b| && a[..k] == b[..k] && (k == |a| || a[k] as int < b[k] as int)
  }

  lemma {:induction false} BeforeMeans(a: string, b: string)
    ensures Before(a, b) <==> exists k :: DiffersLower(a, b, k)
  {
    if b == "" {
    } else if a == "" || a[0] < b[0] {
      assert DiffersLower(a, b, 0);
    } else {
      BeforeMeans(a[1..], b[1..]);
      if k: nat :| DiffersLower(a[1..], b[1..], k) && a[0] == b[0] {
        assert a[..k + 1] == [a[0]] + a[1..][..k] && b[..k + 1] == [b[0]] + b[1..][..k];
        assert DiffersLower(a, b, k + 1);
      }
      if k: nat :| DiffersLower(a, b, k) {
        assert k > 0 && a[0] == a[..k][0] == b[..k][0] == b[0];
        assert a[1..][..k - 1] == a[..k][1..] && b[1..][..k - 1] == b[..k][1..];
        assert DiffersLower(a[1..], b[1..], k - 1);
      }
    }
  }

  lemma {:induction false} BeforeTotal(a: string, b: string)
    ensures !Before(a, a)
    ensures a == b || Before(a, b) || Before(b, a)
    ensures !(Before(a, b) && Before(b, a))
  {
    if a != "" && b != "" {
      BeforeTotal(a[1..], b[1..]);
      if a[0] == b[0] && a[1..] == b[1..] {
        assert a == [a[0]] + a[1..] == [b[0]] + b[1..] == b;
      }
    } else if a != "" {
      BeforeTotal(a[1..], b);
    }
  }

  lemma {:induction false} BeforeTransitive(a: string, b: string, c: string)
    requires Before(a, b) && Before(b, c)
    ensures Before(a, c)
  {
    if a != "" && a[0] == b[0] == c[0] {
      BeforeTransitive(a[1..], b[1..], c[1..]);
    }
  }

  /** Strictly increasing: sorted, and without repetition. */
  ghost predicate Increasing(s: seq<string>) {
    forall i, j :: 0 <= i < j < |s| ==> Before(s[i], s[j])
  }

  predicate Least(m: string, s: set<string>) {
    m in s && forall x :: x in s && x != m ==> Before(m, x)
  }

  lemma {:induction false} LeastExists(s: set<string>) returns (m: string)
    requires s != {}
    ensures Least(m, s)
    decreases |s|
  {
    var x :| x in s;
    if s == {x} {
      m := x;
    } else {
      var y := LeastExists(s - {x});
      BeforeTotal(x, y);
      if Before(x, y) {
        m := x;
        forall z | z in s && z != m ensures Before(m, z) {
          if z != y { BeforeTransitive(x, y, z); }
        }
      } else {
        m := y;
      }
    }
  }

  lemma LeastUnique(s: set<string>)
    ensures forall m, n :: Least(m, s) && Least(n, s) ==> m == n
  {
    forall m, n | Least(m, s) && Least(n, s) ensures m == n {
      BeforeTotal(m, n);
    }
  }

  function Minimum(s: set<string>): (m: string)
    requires s != {}
    ensures Least(m, s)
  {
    assert exists m :: m in s && Least(m, s) by { var m := LeastExists(s); }
    LeastUnique(s);
    var m :| m in s && Least(m, s);
    m
  }

  /** `sorted` applied to a collection of distinct names. */
  function SortedNames(s: set<string>): (r: seq<string>)
    ensures forall x :: x in r <==> x in s
    ensures Increasing(r)
    ensures |r| == |s|
  {
    if s == {} then [] else
      var m := Minimum(s);
      [m] + SortedNames(s - {m})
  }

  /** `sort` applied to a list that may repeat strings. */
  function SortedStrings(s: seq<string>): (r: seq<string>)
    ensures multiset(r) == multiset(s)
    ensures |r| == |s|
    ensures forall i, j :: 0 <= i < j < |r| ==> !Before(r[j], r[i])
  {
    if s == [] then []
    else
      assert s == [s[0]] + s[1..];
      Insert(s[0], SortedStrings(s[1..]))
  }

  function Insert(x: string, s: seq<string>): (r: seq<string>)
    requires forall i, j :: 0 <= i < j < |s| ==> !Before(s[j], s[i])
    ensures multiset(r) == multiset{x} + multiset(s)
    ensures |r| == |s| + 1
    ensures forall i, j :: 0 <= i < j < |r| ==> !Before(r[j], r[i])
    ensures forall y :: y in r ==> y == x || y in s
  {
    if s == [] then [x]
    else
      assert s == [s[0]] + s[1..];
      if Before(s[0], x) then
        var rest := Insert(x, s[1..]);
        BeforeTotal(s[0], x);
        assert forall j :: 0 <= j < |rest| ==> !Before(rest[j], s[0]) by {
          forall j | 0 <= j < |rest| ensures !Before(rest[j], s[0]) {
            assert rest[j] in rest;
            if rest[j] != x {
              assert rest[j] in s[1..];
            }
          }
        }
        [s[0]] + rest
      else
        assert forall j :: 0 <= j < |s| ==> !Before(s[j], x) by {
          forall j | 0 <= j < |s| ensures !Before(s[j], x) {
            if Before(s[j], x) {
              BeforeTotal(s[0], s[j]);
              if Before(s[0], s[j]) { BeforeTransitive(s[0], s[j], x); }
            }
          }
        }
        [x] + s
  }
}

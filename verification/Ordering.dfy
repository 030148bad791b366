/** Ascending enumerations: ORDER BY, std::map and std::set iteration. */
module Ordering {

  ghost predicate StrictlyAscending(s: seq<int>) {
    forall i, j :: 0 <= i < j < |s| ==> s[i] < s[j]
  }

  lemma HasElement(s: set<int>)
    ensures s == {} || exists e :: e in s
  {
    if !exists e :: e in s {
      assert s == {};
    }
  }

  lemma ProperSubsetMisses(a: set<int>, b: set<int>)
    requires a <= b && a != b
    ensures exists x :: x in b && x !in a
  {
    assert b == a + (b - a) && a + {} == a;
    HasElement(b - a);
    var x :| x in b - a;
    assert x in b && x !in a;
  }

  predicate IsLeast(s: set<int>, m: int) {
    m in s && forall x :: x in s ==> m <= x
  }

  lemma {:induction false} LeastExists(s: set<int>)
    requires s != {}
    ensures exists m :: IsLeast(s, m)
  {
    HasElement(s);
    var e :| e in s;
    var rest := s - {e};
    if rest == {} {
      assert s == {e};
      assert IsLeast(s, e);
    } else {
      LeastExists(rest);
      var m :| IsLeast(rest, m);
      LeastOfTwo(s, e, m);
    }
  }

  lemma LeastOfTwo(s: set<int>, e: int, m: int)
    requires e in s && IsLeast(s - {e}, m)
    ensures IsLeast(s, if e <= m then e else m)
  {
    forall x | x in s ensures (if e <= m then e else m) <= x {
      assert x == e || x in s - {e};
    }
  }

  function Least(s: set<int>): (m: int)
    requires s != {}
    ensures m in s && forall x :: x in s ==> m <= x
  {
    LeastExists(s);
    var m :| IsLeast(s, m);
    m
  }

  // The elements of a finite set, smallest first.
  function Ascending(s: set<int>): (r: seq<int>)
    ensures StrictlyAscending(r) && |r| == |s|
    ensures forall x :: x in r <==> x in s
  {
    if s == {} then [] else
      var m := Least(s);
      [m] + Ascending(s - {m})
  }

  // An ascending sequence is determined by its elements.
  lemma {:induction false} AscendingUnique(a: seq<int>, b: seq<int>)
    requires StrictlyAscending(a) && StrictlyAscending(b)
    requires forall x :: x in a <==> x in b
    ensures a == b
  {
    forall i | 0 <= i < |a| ensures a[i] in b {
      assert a[i] in a;
    }
    forall i | 0 <= i < |b| ensures b[i] in a {
      assert b[i] in b;
    }
    assert |a| > 0 ==> a[0] in b;
    assert |b| > 0 ==> b[0] in a;
    if a != [] && b != [] {
      assert a[0] == b[0];
      forall x ensures x in a[1..] <==> x in b[1..] {
        if x in a[1..] {
          var i :| 0 <= i < |a[1..]| && a[1..][i] == x;
          assert a[1 + i] == x && a[0] < x;
          assert x in a && x in b;
        }
        if x in b[1..] {
          var i :| 0 <= i < |b[1..]| && b[1..][i] == x;
          assert b[1 + i] == x && b[0] < x;
          assert x in b && x in a;
        }
      }
      AscendingUnique(a[1..], b[1..]);
      assert a == [a[0]] + a[1..] && b == [b[0]] + b[1..];
    }
  }

  function Filter(s: seq<int>, q: int -> bool): seq<int> {
    if s == [] then [] else
      Filter(s[..|s| - 1], q) + if q(s[|s| - 1]) then [s[|s| - 1]] else []
  }

  lemma {:induction false} FilterElements(s: seq<int>, q: int -> bool, x: int)
    ensures x in Filter(s, q) <==> x in s && q(x)
  {
    if s != [] {
      var n := |s| - 1;
      FilterElements(s[..n], q, x);
      assert s == s[..n] + [s[n]];
    }
  }

  lemma {:induction false} FilterOrdered(s: seq<int>, q: int -> bool)
    requires StrictlyAscending(s)
    ensures StrictlyAscending(Filter(s, q))
  {
    if s != [] {
      var n := |s| - 1;
      var front := Filter(s[..n], q);
      FilterOrdered(s[..n], q);
      forall i | 0 <= i < |front| ensures front[i] < s[n] {
        FilterElements(s[..n], q, front[i]);
        assert front[i] in s[..n];
      }
    }
  }

  lemma AscendingSplit(a: set<int>, b: set<int>)
    requires forall x, y :: x in a && y in b ==> x < y
    ensures Ascending(a + b) == Ascending(a) + Ascending(b)
  {
    var x, y := Ascending(a), Ascending(b);
    forall i, j | 0 <= i < |x| && 0 <= j < |y| ensures x[i] < y[j] {
      assert x[i] in a && y[j] in b;
    }
    AscendingUnique(Ascending(a + b), x + y);
  }
}

/** The two orderings the builders apply before drawing: node indices
    ascending, and edges by source index, then target index. */
module Ordering {
  import opened Workflows

  /** `(From, To)` order; edges that share both keep no particular order. */
  predicate KeyLeq(a: EdgeSpec, b: EdgeSpec) {
    a.From < b.From || (a.From == b.From && a.To <= b.To)
  }

  predicate OrderedByFromTo(es: seq<EdgeSpec>) {
    forall i, j :: 0 <= i < j < |es| ==> KeyLeq(es[i], es[j]) && es[i] != es[j]
  }

  /** `nodes.OrderBy(i => i)`. */
  method Ascending(s: set<int>) returns (r: seq<int>)
    ensures forall x :: x in r <==> x in s
    ensures forall i, j :: 0 <= i < j < |r| ==> r[i] < r[j]
  {
    r := [];
    var rest := s;
    while rest != {}
      invariant forall x :: x in s <==> x in r || x in rest
      invariant forall i, j :: 0 <= i < j < |r| ==> r[i] < r[j]
      invariant forall i, x :: 0 <= i < |r| && x in rest ==> r[i] < x
      decreases |rest|
    {
      LeastExists(rest);
      var m :| m in rest && forall x :: x in rest ==> m <= x;
      r := r + [m];
      rest := rest - {m};
    }
  }

  /** `edges.OrderBy(e => e.From).ThenBy(e => e.To)` on a set of edges. */
  method OrderByFromTo(s: set<EdgeSpec>) returns (r: seq<EdgeSpec>)
    ensures forall e :: e in r <==> e in s
    ensures OrderedByFromTo(r)
  {
    r := [];
    var rest := s;
    while rest != {}
      invariant forall e :: e in s <==> e in r || e in rest
      invariant OrderedByFromTo(r)
      invariant forall i, e :: 0 <= i < |r| && e in rest ==> KeyLeq(r[i], e) && r[i] != e
      decreases |rest|
    {
      FirstEdgeExists(rest);
      var m :| m in rest && forall e :: e in rest ==> KeyLeq(m, e);
      r := r + [m];
      rest := rest - {m};
    }
  }

  lemma {:induction false} LeastExists(s: set<int>)
    requires s != {}
    ensures exists m :: m in s && forall x :: x in s ==> m <= x
    decreases |s|
  {
    assert (forall x :: x !in s) ==> s == {};
    var y :| y in s;
    var rest := s - {y};
    if rest == {} {
      LeastOfOne(s, y);
    } else {
      LeastExists(rest);
      var m :| m in rest && forall x :: x in rest ==> m <= x;
      LeastOfTwo(s, y, m);
    }
  }

  lemma LeastOfOne(s: set<int>, y: int)
    requires y in s && s - {y} == {}
    ensures forall x :: x in s ==> y <= x
  {
    forall x | x in s ensures y <= x {
      assert x == y || x in s - {y};
    }
  }

  lemma LeastOfTwo(s: set<int>, y: int, m: int)
    requires y in s && m in s - {y} && forall x :: x in s - {y} ==> m <= x
    ensures var least := if y < m then y else m; least in s && forall x :: x in s ==> least <= x
  {
    forall x | x in s ensures (if y < m then y else m) <= x {
      assert x == y || x in s - {y};
    }
  }

  lemma {:induction false} FirstEdgeExists(s: set<EdgeSpec>)
    requires s != {}
    ensures exists m :: m in s && forall e :: e in s ==> KeyLeq(m, e)
    decreases |s|
  {
    assert (forall x :: x !in s) ==> s == {};
    var y :| y in s;
    var rest := s - {y};
    if rest == {} {
      FirstOfOne(s, y);
    } else {
      FirstEdgeExists(rest);
      var m :| m in rest && forall e :: e in rest ==> KeyLeq(m, e);
      FirstOfTwo(s, y, m);
    }
  }

  lemma FirstOfOne(s: set<EdgeSpec>, y: EdgeSpec)
    requires y in s && s - {y} == {}
    ensures forall e :: e in s ==> KeyLeq(y, e)
  {
    forall e | e in s ensures KeyLeq(y, e) {
      assert e == y || e in s - {y};
    }
  }

  lemma FirstOfTwo(s: set<EdgeSpec>, y: EdgeSpec, m: EdgeSpec)
    requires y in s && m in s - {y} && forall e :: e in s - {y} ==> KeyLeq(m, e)
    ensures var first := if KeyLeq(y, m) then y else m; first in s && forall e :: e in s ==> KeyLeq(first, e)
  {
    forall e | e in s ensures KeyLeq(if KeyLeq(y, m) then y else m, e) {
      assert e == y || e in s - {y};
    }
  }
}

/** The A* frontier: the `heapq` list of `(f, (y, x))` tuples, modelled as
    the multiset of its entries; `heappop` removes the least entry in
    Python's tuple order. */
module Frontier {
  import opened Grid

  /** A queue entry `(f, cell)`. */
  datatype Entry = Entry(f: int, cell: Pos)

  /** Python's ordering of `(f, (y, x))` tuples: by `f`, then row, then column. */
  predicate Le(a: Entry, b: Entry)
  {
    a.f < b.f ||
    (a.f == b.f && (a.cell.y < b.cell.y || (a.cell.y == b.cell.y && a.cell.x <= b.cell.x)))
  }

  lemma LeTotalOrder()
    ensures forall a :: Le(a, a)
    ensures forall a, b :: Le(a, b) && Le(b, a) ==> a == b
    ensures forall a, b, c :: Le(a, b) && Le(b, c) ==> Le(a, c)
    ensures forall a, b :: Le(a, b) || Le(b, a)
  {
  }

  /** `e` is an entry of `q` and no entry of `q` comes before it. */
  predicate IsMin(e: Entry, q: multiset<Entry>)
  {
    e in q && forall d | d in q :: Le(e, d)
  }

  /** A non-empty queue has a least entry. */
  lemma {:induction false} MinExists(q: multiset<Entry>)
    requires q != multiset{}
    ensures exists e :: IsMin(e, q)
    decreases |q|
  {
    var x :| x in q;
    var rest := q - multiset{x};
    assert forall d | d in q :: d == x || d in rest by {
      forall d | d in q && d != x ensures d in rest {
        assert rest[d] == q[d];
      }
    }
    if rest == multiset{} {
      LeTotalOrder();
      assert IsMin(x, q);
    } else {
      MinExists(rest);
      var m :| IsMin(m, rest);
      LeTotalOrder();
      if Le(x, m) {
        assert IsMin(x, q);
      } else {
        assert IsMin(m, q);
      }
    }
  }

  /** `heappop`: remove and return the least entry; it is the only least entry. */
  method Pop(q: multiset<Entry>) returns (e: Entry, rest: multiset<Entry>)
    requires q != multiset{}
    ensures IsMin(e, q) && rest == q - multiset{e}
    ensures forall d :: IsMin(d, q) ==> d == e
    ensures |rest| == |q| - 1
  {
    MinExists(q);
    LeTotalOrder();
    e :| IsMin(e, q);
    rest := q - multiset{e};
  }
}

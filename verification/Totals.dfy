/** Sums over the entries of a map. */
module Totals {

  ghost function Total(m: map<string, int>): int
    decreases |m|
  {
    if m == map[] then 0 else var id :| id in m; m[id] + Total(m - {id})
  }

  /** The sum does not depend on the order in which entries are taken. */
  lemma {:induction false} TotalRemove(m: map<string, int>, id: string)
    requires id in m
    ensures Total(m) == m[id] + Total(m - {id})
    decreases |m|
  {
    var x :| x in m && Total(m) == m[x] + Total(m - {x});
    if x != id {
      TotalRemove(m - {x}, id);
      TotalRemove(m - {id}, x);
      assert m - {x} - {id} == m - {id} - {x};
    }
  }

  lemma TotalPut(m: map<string, int>, id: string, v: int)
    ensures Total(m[id := v]) == Total(m) + v - (if id in m then m[id] else 0)
  {
    TotalRemove(m[id := v], id);
    if id in m {
      TotalRemove(m, id);
      assert m[id := v] - {id} == m - {id};
    } else {
      assert m[id := v] - {id} == m;
    }
  }

  /** Moving an amount between two entries leaves the sum. */
  lemma TotalTransfer(a: map<string, int>, b: map<string, int>, x: string, y: string)
    requires a.Keys == b.Keys && x in a && y in a && x != y
    requires forall id :: id in a && id != x && id != y ==> a[id] == b[id]
    ensures Total(b) - Total(a) == (b[x] - a[x]) + (b[y] - a[y])
  {
    TotalPut(a, x, b[x]);
    TotalPut(a[x := b[x]], y, b[y]);
    assert a[x := b[x]][y := b[y]] == b;
  }

  lemma {:induction false} TotalNonNegative(m: map<string, int>)
    requires forall id :: id in m ==> m[id] >= 0
    ensures Total(m) >= 0
    ensures forall id :: id in m ==> m[id] <= Total(m)
    decreases |m|
  {
    forall id | id in m
      ensures 0 <= m[id] <= Total(m)
    {
      TotalRemove(m, id);
      TotalNonNegative(m - {id});
    }
    if m != map[] {
      var id :| id in m;
      TotalRemove(m, id);
    }
  }

  lemma {:induction false} TotalOfZeros(m: map<string, int>)
    requires forall id :: id in m ==> m[id] == 0
    ensures Total(m) == 0
    decreases |m|
  {
    if m != map[] {
      var id :| id in m;
      TotalRemove(m, id);
      TotalOfZeros(m - {id});
    }
  }
}

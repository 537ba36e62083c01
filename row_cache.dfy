/** The row cache every admin controller keeps in `state.rows`, and the three
    ways the source patches it: `Array.prototype.filter` (delete),
    `Array.prototype.find` followed by field writes (update), and `push` of a
    new record (create, done directly in the controllers). Rows are generic;
    `idOf` reads the `id` a row carries. */
module RowCache {
  import opened Common

  /** `rows.filter(keep)`: the rows that satisfy `keep`, in their order. */
  function Filter<R(==,!new)>(rows: seq<R>, keep: R -> bool): (r: seq<R>)
    ensures |r| <= |rows|
    ensures forall x :: x in r <==> x in rows && keep(x)
  {
    if rows == [] then []
    else (if keep(rows[0]) then [rows[0]] else []) + Filter(rows[1..], keep)
  }

  /** The predicate `r => r.id !== id` of the delete handlers. */
  function OtherThan<R>(id: int, idOf: R -> int): R -> bool
  {
    r => idOf(r) != id
  }

  /** The predicate `r => r.id === id`. */
  function Carrying<R>(id: int, idOf: R -> int): R -> bool
  {
    r => idOf(r) == id
  }

  /** The cache after a successful delete of `id`. */
  function Without<R(==,!new)>(rows: seq<R>, id: int, idOf: R -> int): (r: seq<R>)
    ensures |r| <= |rows|
    ensures forall x :: x in r <==> x in rows && idOf(x) != id
  {
    Filter(rows, OtherThan(id, idOf))
  }

  /** How many cached rows carry `id`. */
  function CountId<R(==,!new)>(rows: seq<R>, id: int, idOf: R -> int): nat
  {
    |Filter(rows, Carrying(id, idOf))|
  }

  /** `rows.findIndex(r => r.id === id)` as an option: the index of the FIRST
      row carrying `id`, which is the row `find` hands back. */
  function FirstIndex<R>(rows: seq<R>, id: int, idOf: R -> int): (r: Option<nat>)
    ensures r.Some? ==> r.value < |rows| && idOf(rows[r.value]) == id
    ensures r.Some? ==> forall j :: 0 <= j < r.value ==> idOf(rows[j]) != id
    ensures r.None? ==> forall j :: 0 <= j < |rows| ==> idOf(rows[j]) != id
  {
    if rows == [] then None
    else if idOf(rows[0]) == id then Some(0)
    else
      match FirstIndex(rows[1..], id, idOf)
      case None => None
      case Some(i) => Some(i + 1)
  }

  /** `find` the first row carrying `id` and rewrite it with `f`; `None` when
      `find` returns undefined (the source then throws before `setState`). */
  function UpdateFirst<R>(rows: seq<R>, id: int, idOf: R -> int, f: R -> R): Option<seq<R>>
  {
    match FirstIndex(rows, id, idOf)
    case None => None
    case Some(i) => Some(rows[i := f(rows[i])])
  }

  /** Filtering distributes over concatenation: the kept rows keep their
      relative order. */
  lemma {:induction false} FilterConcat<R(!new)>(a: seq<R>, b: seq<R>, keep: R -> bool)
    ensures Filter(a + b, keep) == Filter(a, keep) + Filter(b, keep)
  {
    if a == [] {
      assert a + b == b;
    } else {
      assert (a + b)[0] == a[0];
      assert (a + b)[1..] == a[1..] + b;
      FilterConcat(a[1..], b, keep);
    }
  }

  /** When every row is kept, filtering changes nothing. */
  lemma {:induction false} FilterKeepsAll<R(!new)>(rows: seq<R>, keep: R -> bool)
    requires forall j :: 0 <= j < |rows| ==> keep(rows[j])
    ensures Filter(rows, keep) == rows
  {
    if rows != [] {
      assert keep(rows[0]);
      FilterKeepsAll(rows[1..], keep);
      assert [rows[0]] + rows[1..] == rows;
    }
  }

  /** When no row is kept, filtering gives the empty cache. */
  lemma {:induction false} FilterKeepsNone<R(!new)>(rows: seq<R>, keep: R -> bool)
    requires forall j :: 0 <= j < |rows| ==> !keep(rows[j])
    ensures Filter(rows, keep) == []
  {
    if rows != [] {
      assert !keep(rows[0]);
      FilterKeepsNone(rows[1..], keep);
    }
  }

  /** Filtering keeps every kept row with its multiplicity and drops the rest. */
  lemma {:induction false} FilterMultiset<R(!new)>(rows: seq<R>, keep: R -> bool, x: R)
    ensures multiset(Filter(rows, keep))[x] == if keep(x) then multiset(rows)[x] else 0
  {
    if rows != [] {
      FilterMultiset(rows[1..], keep, x);
      assert rows == [rows[0]] + rows[1..];
      assert multiset(rows) == multiset([rows[0]]) + multiset(rows[1..]);
    }
  }

  /** Deleting an id no row carries leaves the cache as it was. */
  lemma WithoutAbsent<R(!new)>(rows: seq<R>, id: int, idOf: R -> int)
    requires forall j :: 0 <= j < |rows| ==> idOf(rows[j]) != id
    ensures Without(rows, id, idOf) == rows
  {
    FilterKeepsAll(rows, OtherThan(id, idOf));
  }

  /** Deleting the same id twice is the same as deleting it once. */
  lemma WithoutIdempotent<R(!new)>(rows: seq<R>, id: int, idOf: R -> int)
    ensures Without(Without(rows, id, idOf), id, idOf) == Without(rows, id, idOf)
  {
    var once := Without(rows, id, idOf);
    forall j | 0 <= j < |once| ensures idOf(once[j]) != id {
      assert once[j] in once;
    }
    WithoutAbsent(once, id, idOf);
  }

  /** Delete keeps the order of the rows it keeps, piece by piece. */
  lemma WithoutConcat<R(!new)>(a: seq<R>, b: seq<R>, id: int, idOf: R -> int)
    ensures Without(a + b, id, idOf) == Without(a, id, idOf) + Without(b, id, idOf)
  {
    FilterConcat(a, b, OtherThan(id, idOf));
  }

  /** Delete keeps every other row with its multiplicity. */
  lemma WithoutMultiset<R(!new)>(rows: seq<R>, id: int, idOf: R -> int, x: R)
    ensures multiset(Without(rows, id, idOf))[x] == if idOf(x) == id then 0 else multiset(rows)[x]
  {
    FilterMultiset(rows, OtherThan(id, idOf), x);
  }

  /** After a delete no row carries the id. */
  lemma WithoutLeavesNone<R(!new)>(rows: seq<R>, id: int, idOf: R -> int)
    ensures CountId(Without(rows, id, idOf), id, idOf) == 0
  {
    var rest := Without(rows, id, idOf);
    forall j | 0 <= j < |rest| ensures !Carrying(id, idOf)(rest[j]) {
      assert rest[j] in rest;
    }
    FilterKeepsNone(rest, Carrying(id, idOf));
  }

  /** Appending a record whose id the cache does not hold yet: the id then
      appears exactly once, and deleting it gives the old cache back. */
  lemma AppendFresh<R(!new)>(rows: seq<R>, x: R, idOf: R -> int)
    requires forall j :: 0 <= j < |rows| ==> idOf(rows[j]) != idOf(x)
    ensures CountId(rows + [x], idOf(x), idOf) == 1
    ensures Without(rows + [x], idOf(x), idOf) == rows
  {
    var id := idOf(x);
    FilterConcat(rows, [x], Carrying(id, idOf));
    FilterKeepsNone(rows, Carrying(id, idOf));
    assert Filter([x], Carrying(id, idOf)) == [x];
    WithoutConcat(rows, [x], id, idOf);
    WithoutAbsent(rows, id, idOf);
    assert Filter([x], OtherThan(id, idOf)) == [];
  }

  /** An update rewrites the first row carrying the id with `f` and leaves the
      length and every other row as they were; it fails exactly when no row
      carries the id. */
  lemma UpdateFirstSpec<R>(rows: seq<R>, id: int, idOf: R -> int, f: R -> R)
    ensures UpdateFirst(rows, id, idOf, f).None? <==> forall j :: 0 <= j < |rows| ==> idOf(rows[j]) != id
    ensures UpdateFirst(rows, id, idOf, f).Some? ==>
      var i := FirstIndex(rows, id, idOf).value;
      var r := UpdateFirst(rows, id, idOf, f).value;
      && |r| == |rows|
      && r[i] == f(rows[i])
      && forall j :: 0 <= j < |rows| && j != i ==> r[j] == rows[j]
  {
  }

  /** When `f` keeps the id, an update keeps every row's id in place, so the
      same update can be applied again and hits the same row. */
  lemma UpdateFirstKeepsIds<R>(rows: seq<R>, id: int, idOf: R -> int, f: R -> R)
    requires forall x :: idOf(f(x)) == idOf(x)
    requires UpdateFirst(rows, id, idOf, f).Some?
    ensures forall j :: 0 <= j < |rows| ==> idOf(UpdateFirst(rows, id, idOf, f).value[j]) == idOf(rows[j])
    ensures FirstIndex(UpdateFirst(rows, id, idOf, f).value, id, idOf) == FirstIndex(rows, id, idOf)
  {
  }
}

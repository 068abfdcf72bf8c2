/** The record store's tables: rows with store-assigned ids, and the query shapes the
    database helper offers (equality filters combined by AND, update by id, delete by id,
    ordering, and an offset/limit range). */
module Tables {
  import opened Common
  import opened Sorting

  /** A stored record: the id the store assigned on insert, and the columns. */
  datatype Row<T> = Row(id: nat, val: T)

  /** Row `i` was inserted before row `j`: its id is smaller. */
  ghost predicate IdBefore<T>(rows: seq<Row<T>>, i: int, j: int)
    requires 0 <= i < |rows| && 0 <= j < |rows|
  {
    rows[i].id < rows[j].id
  }

  /** Rows are kept in insertion order, so their ids increase strictly. */
  ghost predicate IdsIncreasing<T>(rows: seq<Row<T>>) {
    forall i, j :: 0 <= i < j < |rows| ==> IdBefore(rows, i, j)
  }

  /** The rows after the first of an increasing sequence are increasing and have larger ids. */
  lemma IncreasingTail<T>(rows: seq<Row<T>>)
    requires IdsIncreasing(rows) && rows != []
    ensures IdsIncreasing(rows[1..])
    ensures forall x :: x in rows[1..] ==> rows[0].id < x.id
  {
    forall i, j | 0 <= i < j < |rows| - 1 ensures IdBefore(rows[1..], i, j) {
      assert IdBefore(rows, i + 1, j + 1);
    }
    forall x | x in rows[1..] ensures rows[0].id < x.id {
      var k :| 0 <= k < |rows[1..]| && rows[1..][k] == x;
      assert IdBefore(rows, 0, k + 1);
    }
  }

  /** A row put in front of increasing rows with larger ids keeps them increasing. */
  lemma IncreasingCons<T>(x: Row<T>, rows: seq<Row<T>>)
    requires IdsIncreasing(rows) && forall y :: y in rows ==> x.id < y.id
    ensures IdsIncreasing([x] + rows)
  {
    var r := [x] + rows;
    forall i, j | 0 <= i < j < |r| ensures IdBefore(r, i, j) {
      if i == 0 {
        assert r[j] in rows;
      } else {
        assert IdBefore(rows, i - 1, j - 1);
      }
    }
  }

  /** A row appended after increasing rows with smaller ids keeps them increasing. */
  lemma IncreasingSnoc<T>(rows: seq<Row<T>>, x: Row<T>)
    requires IdsIncreasing(rows) && forall y :: y in rows ==> y.id < x.id
    ensures IdsIncreasing(rows + [x])
  {
    var r := rows + [x];
    forall i, j | 0 <= i < j < |r| ensures IdBefore(r, i, j) {
      if j == |rows| {
        assert r[i] in rows;
      } else {
        assert IdBefore(rows, i, j);
      }
    }
  }

  /** Two positions of an increasing sequence holding the same id are the same position. */
  lemma SamePosition<T>(rows: seq<Row<T>>, i: int, j: int)
    requires IdsIncreasing(rows) && 0 <= i < |rows| && 0 <= j < |rows| && rows[i].id == rows[j].id
    ensures i == j
  {
    assert i < j ==> IdBefore(rows, i, j);
    assert j < i ==> IdBefore(rows, j, i);
  }

  /** Every id is positive (0 is never an id) and below `bound`. */
  ghost predicate IdsBelow<T>(rows: seq<Row<T>>, bound: nat) {
    forall i :: 0 <= i < |rows| ==> 0 < rows[i].id < bound
  }

  /** `id` is the id of some row. */
  predicate HasId<T>(rows: seq<Row<T>>, id: nat) {
    exists i :: 0 <= i < |rows| && rows[i].id == id
  }

  /** One table: its rows and the id the next insert receives. */
  datatype Table<T> = Table(rows: seq<Row<T>>, next: nat) {

    ghost predicate Valid() {
      0 < next && IdsIncreasing(rows) && IdsBelow(rows, next)
    }

    /** INSERT ... RETURNING: the new row is appended with a fresh id. */
    function Insert(v: T): (t: Table<T>)
      ensures t.rows == rows + [Row(next, v)]
      ensures t.next == next + 1
      ensures Valid() ==> t.Valid() && !HasId(rows, next)
    {
      assert Valid() ==> IdsIncreasing(rows + [Row(next, v)]) by {
        if Valid() {
          forall y | y in rows ensures y.id < next {
            var k :| 0 <= k < |rows| && rows[k] == y;
          }
          IncreasingSnoc(rows, Row(next, v));
        }
      }
      Table(rows + [Row(next, v)], next + 1)
    }

    /** The same table holding `rs` instead of its rows (ids are not reissued). */
    function WithRows(rs: seq<Row<T>>): Table<T> {
      Table(rs, next)
    }

    /** `findById`: the columns of the row with this id. */
    function Get(id: nat): (r: Option<T>)
      ensures r.Some? <==> HasId(rows, id)
      ensures r.Some? ==> Row(id, r.value) in rows
    {
      GetIn(rows, id)
    }
  }

  function GetIn<T>(rows: seq<Row<T>>, id: nat): (r: Option<T>)
    ensures r.Some? <==> HasId(rows, id)
    ensures r.Some? ==> Row(id, r.value) in rows
  {
    if rows == [] then None
    else if rows[0].id == id then Some(rows[0].val)
    else
      var r := GetIn(rows[1..], id);
      assert HasId(rows[1..], id) ==> HasId(rows, id);
      assert HasId(rows, id) ==> HasId(rows[1..], id) by {
        if HasId(rows, id) {
          var i :| 0 <= i < |rows| && rows[i].id == id;
          assert rows[1..][i - 1].id == id;
        }
      }
      r
  }

  /** In a table whose ids are unique, a row is determined by its id. */
  lemma IdDeterminesRow<T>(rows: seq<Row<T>>, x: Row<T>, y: Row<T>)
    requires IdsIncreasing(rows)
    requires x in rows && y in rows && x.id == y.id
    ensures x == y
  {
    var i :| 0 <= i < |rows| && rows[i] == x;
    var j :| 0 <= j < |rows| && rows[j] == y;
    SamePosition(rows, i, j);
  }

  // ---------------------------------------------------------------------------
  // Filters

  /** The rows satisfying `p`, in table order: `query(table, { where })`. */
  function Select<T(!new)>(rows: seq<Row<T>>, p: Row<T> -> bool): (r: seq<Row<T>>)
    ensures forall x :: x in r <==> x in rows && p(x)
    ensures |r| <= |rows|
    ensures IdsIncreasing(rows) ==> IdsIncreasing(r)
    ensures forall b: nat :: IdsBelow(rows, b) ==> IdsBelow(r, b)
  {
    if rows == [] then []
    else
      var tail := Select(rows[1..], p);
      assert forall x :: x in rows <==> x == rows[0] || x in rows[1..] by {
        assert rows == [rows[0]] + rows[1..];
      }
      assert IdsIncreasing(rows) ==> IdsIncreasing(rows[1..]) && forall x :: x in tail ==> rows[0].id < x.id by {
        if IdsIncreasing(rows) {
          IncreasingTail(rows);
        }
      }
      if p(rows[0]) then
        assert forall k :: 0 <= k < |tail| ==> tail[k] in rows[1..];
        assert IdsIncreasing(rows) ==> IdsIncreasing([rows[0]] + tail) by {
          if IdsIncreasing(rows) {
            IncreasingCons(rows[0], tail);
          }
        }
        [rows[0]] + tail
      else tail
  }

  /** Two filters that agree on every row select the same rows. */
  lemma {:induction false} SelectExt<T(!new)>(rows: seq<Row<T>>, p: Row<T> -> bool, q: Row<T> -> bool)
    requires forall x :: x in rows ==> p(x) == q(x)
    ensures Select(rows, p) == Select(rows, q)
  {
    if rows != [] {
      SelectExt(rows[1..], p, q);
    }
  }

  /** Filtering twice keeps the rows satisfying both filters. */
  lemma {:induction false} SelectSelect<T(!new)>(rows: seq<Row<T>>, p: Row<T> -> bool, q: Row<T> -> bool, pq: Row<T> -> bool)
    requires forall x :: pq(x) == (p(x) && q(x))
    ensures Select(Select(rows, p), q) == Select(rows, pq)
  {
    if rows != [] {
      SelectSelect(rows[1..], p, q, pq);
    }
  }

  /** A filter no row satisfies selects nothing. */
  lemma {:induction false} SelectNone<T(!new)>(rows: seq<Row<T>>, p: Row<T> -> bool)
    requires forall x :: x in rows ==> !p(x)
    ensures Select(rows, p) == []
  {
    if rows != [] {
      assert rows[0] in rows;
      SelectNone(rows[1..], p);
    }
  }

  /** A filter distributes over concatenation. */
  lemma {:induction false} SelectAppend<T(!new)>(a: seq<Row<T>>, b: seq<Row<T>>, p: Row<T> -> bool)
    ensures Select(a + b, p) == Select(a, p) + Select(b, p)
  {
    if a == [] {
      assert a + b == b;
    } else {
      assert (a + b)[0] == a[0];
      assert (a + b)[1..] == a[1..] + b;
      SelectAppend(a[1..], b, p);
    }
  }

  /** A filter keeps the order of what it filters: rows ascending on a key stay ascending. */
  lemma {:induction false} SelectAsc<T(!new)>(rows: seq<Row<T>>, p: Row<T> -> bool, key: Row<T> -> int)
    requires SortedAsc(rows, key)
    ensures SortedAsc(Select(rows, p), key)
  {
    if rows != [] {
      var tail := Select(rows[1..], p);
      SelectAsc(rows[1..], p, key);
      if p(rows[0]) {
        forall k | 0 <= k < |tail| ensures key(rows[0]) <= key(tail[k]) {
          assert tail[k] in rows[1..];
          var j :| 0 <= j < |rows[1..]| && rows[1..][j] == tail[k];
          assert rows[j + 1] == tail[k];
        }
      }
    }
  }

  /** Number of rows satisfying `p`: `SELECT COUNT(*) ... WHERE`. */
  function Count<T(!new)>(rows: seq<Row<T>>, p: Row<T> -> bool): nat {
    |Select(rows, p)|
  }

  /** The first row satisfying `p`: `result[0]` of a filtered query. */
  function First<T(!new)>(rows: seq<Row<T>>, p: Row<T> -> bool): (r: Option<Row<T>>)
    ensures r.Some? ==> r.value in rows && p(r.value)
    ensures r.None? <==> forall x :: x in rows ==> !p(x)
  {
    var s := Select(rows, p);
    if s == [] then None
    else
      assert s[0] in s;
      Some(s[0])
  }

  function IdIs<T>(id: nat): Row<T> -> bool {
    (x: Row<T>) => x.id == id
  }

  function IdIsNot<T>(id: nat): Row<T> -> bool {
    (x: Row<T>) => x.id != id
  }

  /** `delete(table, id)`: every row except the one with this id, in order. */
  function Without<T(!new)>(rows: seq<Row<T>>, id: nat): (r: seq<Row<T>>)
    ensures forall x :: x in r <==> x in rows && x.id != id
    ensures IdsIncreasing(rows) ==> IdsIncreasing(r)
    ensures forall b: nat :: IdsBelow(rows, b) ==> IdsBelow(r, b)
    ensures !HasId(rows, id) ==> r == rows
    ensures IdsIncreasing(rows) && HasId(rows, id) ==> |r| == |rows| - 1
  {
    var r := Select(rows, IdIsNot(id));
    assert !HasId(rows, id) ==> r == rows by {
      if !HasId(rows, id) {
        SelectAll(rows, IdIsNot(id));
      }
    }
    assert IdsIncreasing(rows) && HasId(rows, id) ==> |r| == |rows| - 1 by {
      if IdsIncreasing(rows) && HasId(rows, id) {
        SelectDropsOne(rows, id);
      }
    }
    r
  }

  /** `delete(table, id)` removes the row with that id and leaves every other id's row. */
  lemma WithoutOthers<T(!new)>(rows: seq<Row<T>>, id: nat)
    requires IdsIncreasing(rows)
    ensures !HasId(Without(rows, id), id)
    ensures forall h :: h != id ==> GetIn(Without(rows, id), h) == GetIn(rows, h)
  {
    var r := Without(rows, id);
    forall i | 0 <= i < |r| ensures r[i].id != id && HasId(rows, r[i].id) {
      assert r[i] in r;
      var j :| 0 <= j < |rows| && rows[j] == r[i];
    }
    forall h | h != id ensures GetIn(r, h) == GetIn(rows, h) {
      if HasId(rows, h) {
        var v := GetIn(rows, h).value;
        assert Row(h, v) in r;
        IdDeterminesRow(r, Row(h, v), Row(h, GetIn(r, h).value));
      }
    }
  }

  lemma {:induction false} SelectAll<T(!new)>(rows: seq<Row<T>>, p: Row<T> -> bool)
    requires forall x :: x in rows ==> p(x)
    ensures Select(rows, p) == rows
  {
    if rows != [] {
      SelectAll(rows[1..], p);
    }
  }

  lemma {:induction false} SelectDropsOne<T(!new)>(rows: seq<Row<T>>, id: nat)
    requires IdsIncreasing(rows) && HasId(rows, id)
    ensures |Select(rows, IdIsNot(id))| == |rows| - 1
  {
    IncreasingTail(rows);
    if rows[0].id == id {
      assert forall x :: x in rows[1..] ==> IdIsNot<T>(id)(x);
      SelectAll(rows[1..], IdIsNot(id));
    } else {
      var i :| 0 <= i < |rows| && rows[i].id == id;
      assert rows[1..][i - 1].id == id;
      SelectDropsOne(rows[1..], id);
    }
  }

  /** Appending one row adds one to a count exactly when the row satisfies the filter. */
  lemma CountAppend<T(!new)>(rows: seq<Row<T>>, x: Row<T>, p: Row<T> -> bool)
    ensures Count(rows + [x], p) == Count(rows, p) + (if p(x) then 1 else 0)
  {
    SelectAppend(rows, [x], p);
  }

  /** Deleting the row `x` by its id subtracts one from a count exactly when `x` satisfies the filter. */
  lemma {:induction false} CountWithout<T(!new)>(rows: seq<Row<T>>, x: Row<T>, p: Row<T> -> bool)
    requires IdsIncreasing(rows) && x in rows
    ensures Count(Without(rows, x.id), p) == Count(rows, p) - (if p(x) then 1 else 0)
  {
    assert rows == [rows[0]] + rows[1..];
    IncreasingTail(rows);
    if rows[0] == x {
      assert forall y :: y in rows[1..] ==> IdIsNot<T>(x.id)(y);
      SelectAll(rows[1..], IdIsNot(x.id));
    } else {
      var i :| 0 <= i < |rows| && rows[i] == x;
      assert rows[1..][i - 1] == x;
      CountWithout(rows[1..], x, p);
    }
  }

  /** An update that never changes whether a row satisfies `p` leaves the count of `p` alone. */
  lemma {:induction false} CountModify<T(!new)>(rows: seq<Row<T>>, q: Row<T> -> bool, f: T -> T, p: Row<T> -> bool)
    requires forall x: Row<T> :: p(Row(x.id, f(x.val))) == p(x)
    ensures Count(Modify(rows, q, f), p) == Count(rows, p)
  {
    if rows != [] {
      CountModify(rows[1..], q, f, p);
    }
  }

  /** `update(table, id, data)` applied to every row satisfying `p`: ids and order stay. */
  function Modify<T>(rows: seq<Row<T>>, p: Row<T> -> bool, f: T -> T): (r: seq<Row<T>>)
    ensures |r| == |rows|
    ensures forall i :: 0 <= i < |rows| ==> r[i].id == rows[i].id
    ensures forall i :: 0 <= i < |rows| ==> r[i].val == if p(rows[i]) then f(rows[i].val) else rows[i].val
  {
    if rows == [] then []
    else [if p(rows[0]) then Row(rows[0].id, f(rows[0].val)) else rows[0]] + Modify(rows[1..], p, f)
  }

  /** Updating the row with id `id` twice is one update by the composed function. */
  lemma ModifyTwice<T>(rows: seq<Row<T>>, id: nat, f: T -> T, g: T -> T, h: T -> T)
    requires forall w :: g(f(w)) == h(w)
    ensures Modify(Modify(rows, IdIs(id), f), IdIs(id), g) == Modify(rows, IdIs(id), h)
  {
    var m := Modify(Modify(rows, IdIs(id), f), IdIs(id), g);
    var want := Modify(rows, IdIs(id), h);
    forall i | 0 <= i < |rows| ensures m[i] == want[i] {
      assert IdIs(id)(rows[i]) == (rows[i].id == id);
    }
  }

  /** Updating the last-inserted row touches nothing before it. */
  lemma ModifyLast<T>(rows: seq<Row<T>>, n: nat, v: T, g: T -> T)
    requires forall i :: 0 <= i < |rows| ==> rows[i].id < n
    ensures Modify(rows + [Row(n, v)], IdIs(n), g) == rows + [Row(n, g(v))]
  {
    var all := rows + [Row(n, v)];
    var m := Modify(all, IdIs(n), g);
    var want := rows + [Row(n, g(v))];
    assert |m| == |want|;
    forall i | 0 <= i < |want| ensures m[i] == want[i] {
      if i < |rows| {
        assert all[i] == rows[i] && want[i] == rows[i];
        assert !IdIs(n)(all[i]);
      } else {
        assert all[i] == Row(n, v) && want[i] == Row(n, g(v));
      }
    }
  }

  /** An update whose filter matches no row changes nothing. */
  lemma ModifyNone<T>(rows: seq<Row<T>>, p: Row<T> -> bool, f: T -> T)
    requires forall i :: 0 <= i < |rows| ==> !p(rows[i])
    ensures Modify(rows, p, f) == rows
  {
    var m := Modify(rows, p, f);
    forall i | 0 <= i < |rows| ensures m[i] == rows[i] {
    }
  }

  /** Two filters that agree on every row update the same rows. */
  lemma ModifyExt<T>(rows: seq<Row<T>>, p: Row<T> -> bool, q: Row<T> -> bool, f: T -> T)
    requires forall i :: 0 <= i < |rows| ==> p(rows[i]) == q(rows[i])
    ensures Modify(rows, p, f) == Modify(rows, q, f)
  {
    var m := Modify(rows, p, f);
    var n := Modify(rows, q, f);
    forall i | 0 <= i < |rows| ensures m[i] == n[i] {
    }
  }

  /** Ids survive an update, so a valid table stays valid. */
  lemma ModifyKeepsIds<T>(rows: seq<Row<T>>, p: Row<T> -> bool, f: T -> T, b: nat)
    ensures IdsIncreasing(rows) ==> IdsIncreasing(Modify(rows, p, f))
    ensures IdsBelow(rows, b) ==> IdsBelow(Modify(rows, p, f), b)
    ensures forall id :: HasId(Modify(rows, p, f), id) <==> HasId(rows, id)
  {
    var r := Modify(rows, p, f);
    if IdsIncreasing(rows) {
      forall i, j | 0 <= i < j < |r| ensures IdBefore(r, i, j) {
        assert IdBefore(rows, i, j);
      }
    }
    forall id ensures HasId(r, id) <==> HasId(rows, id) {
      if HasId(r, id) {
        var i :| 0 <= i < |r| && r[i].id == id;
        assert rows[i].id == id;
      }
      if HasId(rows, id) {
        var i :| 0 <= i < |rows| && rows[i].id == id;
        assert r[i].id == id;
      }
    }
  }

  /** Two different rows of a table have different ids. */
  lemma DistinctIds<T>(rows: seq<Row<T>>, x: Row<T>, y: Row<T>)
    requires IdsIncreasing(rows) && x in rows && y in rows && x != y
    ensures x.id != y.id
  {
    var i :| 0 <= i < |rows| && rows[i] == x;
    var j :| 0 <= j < |rows| && rows[j] == y;
    if x.id == y.id {
      SamePosition(rows, i, j);
    }
  }

  /** Position by position, `update(table, id, f)` rewrites the rows with that id and keeps the rest. */
  lemma ModifyAt<T>(rows: seq<Row<T>>, id: nat, f: T -> T)
    ensures forall i :: 0 <= i < |rows| && rows[i].id != id ==> Modify(rows, IdIs(id), f)[i] == rows[i]
    ensures forall i :: 0 <= i < |rows| && rows[i].id == id ==> Modify(rows, IdIs(id), f)[i] == Row(id, f(rows[i].val))
  {
    forall i | 0 <= i < |rows|
      ensures IdIs(id)(rows[i]) == (rows[i].id == id)
    {
    }
  }

  /** `update(table, id, f)` changes the row with that id and no other. */
  lemma ModifyOne<T>(rows: seq<Row<T>>, id: nat, f: T -> T, v: T)
    requires IdsIncreasing(rows) && Row(id, v) in rows
    ensures GetIn(Modify(rows, IdIs(id), f), id) == Some(f(v))
    ensures forall h :: h != id ==> GetIn(Modify(rows, IdIs(id), f), h) == GetIn(rows, h)
  {
    var r := Modify(rows, IdIs(id), f);
    ModifyKeepsIds(rows, IdIs(id), f, 0);
    var i :| 0 <= i < |rows| && rows[i] == Row(id, v);
    assert IdIs(id)(rows[i]);
    assert r[i] == Row(id, f(v));
    IdDeterminesRow(r, r[i], Row(id, GetIn(r, id).value));
    forall h | h != id
      ensures GetIn(r, h) == GetIn(rows, h)
    {
      if HasId(rows, h) {
        var j :| 0 <= j < |rows| && rows[j] == Row(h, GetIn(rows, h).value);
        assert !IdIs(id)(rows[j]);
        assert r[j] == rows[j];
        IdDeterminesRow(r, r[j], Row(h, GetIn(r, h).value));
      }
    }
  }

  // ---------------------------------------------------------------------------
  // Keys: at most one row per key (one like per user and post, one RSVP per user and event, ...)

  ghost predicate KeysDiffer<T, K>(rows: seq<Row<T>>, key: T -> K, i: int, j: int)
    requires 0 <= i < |rows| && 0 <= j < |rows|
  {
    key(rows[i].val) != key(rows[j].val)
  }

  /** No two rows share a key. */
  ghost predicate KeyUnique<T, K>(rows: seq<Row<T>>, key: T -> K) {
    forall i, j :: 0 <= i < j < |rows| ==> KeysDiffer(rows, key, i, j)
  }

  /** `where` on every key column: the rows whose key is `k`. */
  function KeyIs<T, K(==)>(key: T -> K, k: K): Row<T> -> bool {
    (x: Row<T>) => key(x.val) == k
  }

  /** The lookup on a key column finds a row exactly when some row has that key. */
  lemma FirstByKey<T(!new), K>(rows: seq<Row<T>>, key: T -> K, k: K)
    ensures First(rows, KeyIs(key, k)).Some? <==> exists x :: x in rows && key(x.val) == k
  {
    var r := First(rows, KeyIs(key, k));
    if r.None? {
      forall x | x in rows ensures key(x.val) != k {
        assert !KeyIs(key, k)(x);
      }
    }
  }

  /** With unique keys, a key picks out at most one row, and exactly one when a row has it. */
  lemma {:induction false} UniqueCount<T(!new), K>(rows: seq<Row<T>>, key: T -> K, k: K)
    requires KeyUnique(rows, key)
    ensures Count(rows, KeyIs(key, k)) <= 1
    ensures (exists x :: x in rows && key(x.val) == k) ==> Count(rows, KeyIs(key, k)) == 1
  {
    if rows != [] {
      assert rows == [rows[0]] + rows[1..];
      UniqueTail(rows, key);
      UniqueCount(rows[1..], key, k);
      if key(rows[0].val) == k {
        forall y | y in rows[1..] ensures !KeyIs(key, k)(y) {
          var j :| 0 <= j < |rows[1..]| && rows[1..][j] == y;
          assert rows[j + 1] == y && KeysDiffer(rows, key, 0, j + 1);
        }
        SelectNone(rows[1..], KeyIs(key, k));
      }
    }
  }

  lemma UniqueTail<T, K>(rows: seq<Row<T>>, key: T -> K)
    requires KeyUnique(rows, key) && rows != []
    ensures KeyUnique(rows[1..], key)
  {
    forall i, j | 0 <= i < j < |rows[1..]| ensures KeysDiffer(rows[1..], key, i, j) {
      assert rows[1..][i] == rows[i + 1] && rows[1..][j] == rows[j + 1];
      assert KeysDiffer(rows, key, i + 1, j + 1);
    }
  }

  /** Two rows of a key-unique table with the same key are the same row. */
  lemma KeyDeterminesRow<T, K>(rows: seq<Row<T>>, key: T -> K, x: Row<T>, y: Row<T>)
    requires KeyUnique(rows, key) && x in rows && y in rows && key(x.val) == key(y.val)
    ensures x == y
  {
    var i :| 0 <= i < |rows| && rows[i] == x;
    var j :| 0 <= j < |rows| && rows[j] == y;
    assert i < j ==> KeysDiffer(rows, key, i, j);
    assert j < i ==> KeysDiffer(rows, key, j, i);
  }

  /** Appending a row whose key is new keeps keys unique. */
  lemma UniqueAppend<T, K>(rows: seq<Row<T>>, x: Row<T>, key: T -> K)
    requires KeyUnique(rows, key)
    requires forall y :: y in rows ==> key(y.val) != key(x.val)
    ensures KeyUnique(rows + [x], key)
  {
    var r := rows + [x];
    forall i, j | 0 <= i < j < |r| ensures KeysDiffer(r, key, i, j) {
      assert r[i] == rows[i];
      assert rows[i] in rows;
      assert j < |rows| ==> r[j] == rows[j] && KeysDiffer(rows, key, i, j);
    }
  }

  /** A filter keeps keys unique. */
  lemma {:induction false} UniqueSelect<T(!new), K>(rows: seq<Row<T>>, p: Row<T> -> bool, key: T -> K)
    requires KeyUnique(rows, key)
    ensures KeyUnique(Select(rows, p), key)
  {
    if rows != [] {
      UniqueTail(rows, key);
      UniqueSelect(rows[1..], p, key);
      var tail := Select(rows[1..], p);
      if p(rows[0]) {
        var r := [rows[0]] + tail;
        forall i, j | 0 <= i < j < |r| ensures KeysDiffer(r, key, i, j) {
          if i == 0 {
            assert r[j] in tail;
            var k :| 0 <= k < |rows[1..]| && rows[1..][k] == r[j];
            assert rows[k + 1] == r[j] && KeysDiffer(rows, key, 0, k + 1);
          } else {
            assert r[i] == tail[i - 1] && r[j] == tail[j - 1];
            assert KeysDiffer(tail, key, i - 1, j - 1);
          }
        }
      }
    }
  }

  lemma UniqueWithout<T(!new), K>(rows: seq<Row<T>>, id: nat, key: T -> K)
    requires KeyUnique(rows, key)
    ensures KeyUnique(Without(rows, id), key)
  {
    UniqueSelect(rows, IdIsNot(id), key);
  }

  /** With one row per key, deleting a row leaves no row with its key. */
  lemma UniqueWithoutKey<T(!new), K>(rows: seq<Row<T>>, key: T -> K, x: Row<T>)
    requires KeyUnique(rows, key) && x in rows
    ensures forall y :: y in Without(rows, x.id) ==> key(y.val) != key(x.val)
  {
    forall y | y in Without(rows, x.id)
      ensures key(y.val) != key(x.val)
    {
      var i :| 0 <= i < |rows| && rows[i] == y;
      var j :| 0 <= j < |rows| && rows[j] == x;
      assert i != j;
      assert i < j ==> KeysDiffer(rows, key, i, j);
      assert j < i ==> KeysDiffer(rows, key, j, i);
    }
  }

  /** An update that leaves every key as it was keeps keys unique. */
  lemma UniqueModify<T, K>(rows: seq<Row<T>>, p: Row<T> -> bool, f: T -> T, key: T -> K)
    requires KeyUnique(rows, key)
    requires forall v :: key(f(v)) == key(v)
    ensures KeyUnique(Modify(rows, p, f), key)
  {
    forall i, j | 0 <= i < j < |rows| ensures KeysDiffer(Modify(rows, p, f), key, i, j) {
      assert KeysDiffer(rows, key, i, j);
    }
  }

  /** Update-or-insert on a key: the first row holding key `k` gets `f` applied, or, when no
      row holds it, `v` is inserted. */
  function Upsert<T(!new), K(==)>(t: Table<T>, key: T -> K, k: K, f: T -> T, v: T): (r: Table<T>)
    requires t.Valid()
    requires key(v) == k && forall w :: key(f(w)) == key(w)
    ensures r.Valid()
    ensures forall x :: x in r.rows && key(x.val) != k <==> x in t.rows && key(x.val) != k
    ensures (forall x :: x in t.rows ==> key(x.val) != k) ==> r == t.Insert(v)
    ensures KeyUnique(t.rows, key) ==> KeyUnique(r.rows, key) && Count(r.rows, KeyIs(key, k)) == 1
    ensures KeyUnique(t.rows, key) ==> forall x :: x in t.rows && key(x.val) == k ==> Row(x.id, f(x.val)) in r.rows
  {
    match First(t.rows, KeyIs(key, k))
    case None =>
      UpsertInserts(t, key, k, v);
      t.Insert(v)
    case Some(x) =>
      UpsertUpdates(t, key, k, f, x);
      t.WithRows(Modify(t.rows, IdIs(x.id), f))
  }

  lemma UpsertInserts<T(!new), K>(t: Table<T>, key: T -> K, k: K, v: T)
    requires t.Valid() && key(v) == k
    requires forall x :: x in t.rows ==> key(x.val) != k
    ensures KeyUnique(t.rows, key) ==> KeyUnique(t.Insert(v).rows, key) && Count(t.Insert(v).rows, KeyIs(key, k)) == 1
  {
    CountAppend(t.rows, Row(t.next, v), KeyIs(key, k));
    SelectNone(t.rows, KeyIs(key, k));
    if KeyUnique(t.rows, key) {
      UniqueAppend(t.rows, Row(t.next, v), key);
    }
  }

  lemma UpsertUpdates<T(!new), K>(t: Table<T>, key: T -> K, k: K, f: T -> T, x: Row<T>)
    requires t.Valid() && x in t.rows && key(x.val) == k
    requires forall w :: key(f(w)) == key(w)
    ensures var r := Modify(t.rows, IdIs(x.id), f);
      && t.WithRows(r).Valid()
      && (forall y :: y in r && key(y.val) != k <==> y in t.rows && key(y.val) != k)
      && Row(x.id, f(x.val)) in r
      && (KeyUnique(t.rows, key) ==> KeyUnique(r, key) && Count(r, KeyIs(key, k)) == 1)
      && (KeyUnique(t.rows, key) ==> forall y :: y in t.rows && key(y.val) == k ==> y == x)
  {
    var r := Modify(t.rows, IdIs(x.id), f);
    ModifyKeepsIds(t.rows, IdIs(x.id), f, t.next);
    var i :| 0 <= i < |t.rows| && t.rows[i] == x;
    assert r[i] == Row(x.id, f(x.val));
    forall j | 0 <= j < |t.rows| && key(t.rows[j].val) != k ensures r[j] == t.rows[j] {
      if t.rows[j].id == x.id {
        IdDeterminesRow(t.rows, t.rows[j], x);
      }
    }
    forall y ensures y in r && key(y.val) != k <==> y in t.rows && key(y.val) != k {
      if y in r && key(y.val) != k {
        var j :| 0 <= j < |r| && r[j] == y;
      }
      if y in t.rows && key(y.val) != k {
        var j :| 0 <= j < |t.rows| && t.rows[j] == y;
      }
    }
    if KeyUnique(t.rows, key) {
      UniqueModify(t.rows, IdIs(x.id), f, key);
      UniqueCount(r, key, k);
      forall y | y in t.rows && key(y.val) == k ensures y == x {
        KeyDeterminesRow(t.rows, key, y, x);
      }
    }
  }

  // ---------------------------------------------------------------------------
  // Stored counters (`member_count`, `likes_count`, ...) and the rows they count

  /** Every row's counter equals the number of rows of `refs` that `on(id)` picks out. */
  ghost predicate CountsAgree<T, U(!new)>(rows: seq<Row<T>>, counter: T -> int, refs: seq<Row<U>>, on: nat -> (Row<U> -> bool)) {
    forall x :: x in rows ==> counter(x.val) == Count(refs, on(x.id))
  }

  /** Every row of `refs` points at an id below `bound`: only ids already handed out. */
  ghost predicate RefersBelow<U>(refs: seq<Row<U>>, on: nat -> (Row<U> -> bool), bound: nat) {
    forall x, h: nat :: x in refs && on(h)(x) ==> h < bound
  }

  /** No row points at an id not yet handed out. */
  lemma CountFresh<U(!new)>(refs: seq<Row<U>>, on: nat -> (Row<U> -> bool), bound: nat)
    requires RefersBelow(refs, on, bound)
    ensures Count(refs, on(bound)) == 0
  {
    SelectNone(refs, on(bound));
  }

  lemma RefersAppend<U>(refs: seq<Row<U>>, on: nat -> (Row<U> -> bool), bound: nat, x: Row<U>)
    requires RefersBelow(refs, on, bound)
    requires forall h: nat :: on(h)(x) ==> h < bound
    ensures RefersBelow(refs + [x], on, bound)
  {
  }

  lemma RefersWithout<U(!new)>(refs: seq<Row<U>>, on: nat -> (Row<U> -> bool), bound: nat, id: nat)
    requires RefersBelow(refs, on, bound)
    ensures RefersBelow(Without(refs, id), on, bound)
  {
  }

  /** Setting one row's counter to the new number of its references keeps the counters in
      agreement, when no other row's references changed. */
  lemma CountsAfter<T, U(!new)>(rows: seq<Row<T>>, counter: T -> int, f: T -> T, n: int,
                                refs: seq<Row<U>>, refs2: seq<Row<U>>, on: nat -> (Row<U> -> bool), g: Row<T>)
    requires IdsIncreasing(rows) && g in rows
    requires CountsAgree(rows, counter, refs, on)
    requires forall v :: counter(f(v)) == n
    requires Count(refs2, on(g.id)) == n
    requires forall h :: h != g.id ==> Count(refs2, on(h)) == Count(refs, on(h))
    ensures CountsAgree(Modify(rows, IdIs(g.id), f), counter, refs2, on)
  {
    var rows2 := Modify(rows, IdIs(g.id), f);
    forall y | y in rows2 ensures counter(y.val) == Count(refs2, on(y.id)) {
      var i :| 0 <= i < |rows2| && rows2[i] == y;
      assert rows[i] in rows;
      if rows[i].id == g.id {
        IdDeterminesRow(rows, rows[i], g);
      }
    }
  }

  /** An update that leaves a counter alone keeps that counter in agreement. */
  lemma CountsAfterPatch<T, U(!new)>(rows: seq<Row<T>>, counter: T -> int, f: T -> T, id: nat,
                                     refs: seq<Row<U>>, on: nat -> (Row<U> -> bool))
    requires CountsAgree(rows, counter, refs, on)
    requires forall v :: counter(f(v)) == counter(v)
    ensures CountsAgree(Modify(rows, IdIs(id), f), counter, refs, on)
  {
    var rows2 := Modify(rows, IdIs(id), f);
    forall y | y in rows2 ensures counter(y.val) == Count(refs, on(y.id)) {
      var i :| 0 <= i < |rows2| && rows2[i] == y;
      assert rows[i] in rows;
    }
  }

  /** A new row whose counter is zero agrees when nothing refers to its id yet. */
  lemma CountsAfterInsert<T, U(!new)>(t: Table<T>, counter: T -> int, v: T, refs: seq<Row<U>>, on: nat -> (Row<U> -> bool))
    requires CountsAgree(t.rows, counter, refs, on)
    requires RefersBelow(refs, on, t.next) && counter(v) == 0
    ensures CountsAgree(t.Insert(v).rows, counter, refs, on)
  {
    CountFresh(refs, on, t.next);
  }

  /** Deleting a row keeps the others' counters in agreement. */
  lemma CountsAfterDelete<T(!new), U(!new)>(rows: seq<Row<T>>, counter: T -> int, id: nat, refs: seq<Row<U>>, on: nat -> (Row<U> -> bool))
    requires CountsAgree(rows, counter, refs, on)
    ensures CountsAgree(Without(rows, id), counter, refs, on)
  {
  }

  // ---------------------------------------------------------------------------
  // Pagination

  /** `parseInt(req.query.x) || d`: an absent, unparsable or zero value gives the default. */
  function IntOr(q: Option<int>, d: int): (r: int)
    ensures r != 0 || d == 0
    ensures q.Some? && q.value != 0 ==> r == q.value
  {
    if q.Some? && q.value != 0 then q.value else d
  }

  datatype Paging = Paging(page: int, limit: int, offset: int)

  /** `page = parseInt(page) || 1; limit = parseInt(limit) || 10; offset = (page - 1) * limit`. */
  function PagingOf(page: Option<int>, limit: Option<int>): (p: Paging)
    ensures p.page != 0 && p.limit != 0
    ensures p.offset == (p.page - 1) * p.limit
    ensures (page.None? || page.value == 0) ==> p.page == 1 && p.offset == 0
    ensures (limit.None? || limit.value == 0) ==> p.limit == 10
    ensures p.page >= 1 && p.limit >= 1 ==> p.offset >= 0
  {
    var pg := IntOr(page, 1);
    var lim := IntOr(limit, 10);
    Paging(pg, lim, (pg - 1) * lim)
  }

  function Clamp(x: int, lo: int, hi: int): (r: int)
    requires lo <= hi
    ensures lo <= r <= hi
    ensures lo <= x <= hi ==> r == x
  {
    if x < lo then lo else if x > hi then hi else x
  }

  /** The rows a query with `limit` and `offset` returns: positions offset .. offset + limit - 1
      of the ordered result that exist (`.limit(limit)` alone when the offset is 0). */
  function Window<T>(s: seq<T>, offset: int, limit: int): (r: seq<T>)
    ensures var lo := Clamp(offset, 0, |s|);
      && (forall k :: 0 <= k < |r| ==> offset <= lo + k < offset + limit && lo + k < |s| && r[k] == s[lo + k])
      && (forall i :: 0 <= i < |s| && offset <= i < offset + limit ==> lo <= i < lo + |r| && r[i - lo] == s[i])
    ensures |r| <= if limit < 0 then 0 else limit
  {
    var lo := Clamp(offset, 0, |s|);
    var hi := Clamp(offset + limit, lo, |s|);
    s[lo..hi]
  }

  /** A window that starts at 0 and is at least as long as the sequence holds all of a
      permutation of it. */
  lemma WindowAll<T>(s: seq<T>, t: seq<T>, offset: int, limit: int)
    requires multiset(s) == multiset(t)
    ensures offset == 0 && limit >= |t| ==> multiset(Window(s, offset, limit)) == multiset(t)
  {
    assert |s| == |multiset(s)| == |multiset(t)| == |t|;
    WindowMembers(s, offset, limit);
  }

  /** A window holds elements of the sequence it was cut from, and a window that starts at 0
      and is at least as long as the sequence is the whole sequence. */
  lemma WindowMembers<T>(s: seq<T>, offset: int, limit: int)
    ensures forall x :: x in Window(s, offset, limit) ==> x in s
    ensures offset == 0 && limit >= |s| ==> Window(s, offset, limit) == s
  {
    var w := Window(s, offset, limit);
    forall x | x in w ensures x in s {
      var k :| 0 <= k < |w| && w[k] == x;
      assert s[Clamp(offset, 0, |s|) + k] == x;
    }
  }

  /** A window of a descending sequence is descending. */
  lemma WindowDesc<T>(s: seq<T>, key: T -> int, offset: int, limit: int)
    requires SortedDesc(s, key)
    ensures SortedDesc(Window(s, offset, limit), key)
  {
    var w := Window(s, offset, limit);
    var lo := Clamp(offset, 0, |s|);
    forall i, j | 0 <= i < j < |w| ensures key(w[i]) >= key(w[j]) {
      assert w[i] == s[lo + i] && w[j] == s[lo + j];
    }
  }

  /** A window of an ascending sequence is ascending. */
  lemma WindowAsc<T>(s: seq<T>, key: T -> int, offset: int, limit: int)
    requires SortedAsc(s, key)
    ensures SortedAsc(Window(s, offset, limit), key)
  {
    var w := Window(s, offset, limit);
    var lo := Clamp(offset, 0, |s|);
    forall i, j | 0 <= i < j < |w| ensures key(w[i]) <= key(w[j]) {
      assert w[i] == s[lo + i] && w[j] == s[lo + j];
    }
  }

  /** An element whose position is in the window's range is in the window. */
  lemma WindowHas<T>(s: seq<T>, offset: int, limit: int, i: int)
    requires 0 <= offset <= i < offset + limit && i < |s|
    ensures s[i] in Window(s, offset, limit)
  {
    assert Window(s, offset, limit)[i - offset] == s[i];
  }

  /** `Math.ceil(total / limit)`. */
  function TotalPages(total: nat, limit: int): (r: int)
    requires limit != 0
    ensures limit > 0 ==> (r - 1) * limit < total <= r * limit
    ensures limit > 0 ==> r >= 0
    ensures limit < 0 ==> r * limit <= total < (r - 1) * limit
  {
    if limit > 0 then -(-(total as int) / limit) else -(total / (-limit))
  }

  /** Page `q + 1` starts at `q * limit`. */
  lemma PageOffset(q: nat, limit: int)
    requires limit > 0
    ensures PagingOf(Some(q + 1), Some(limit)).offset == q * limit
  {
    var pg := PagingOf(Some(q + 1), Some(limit));
    assert pg.page == q + 1 && pg.limit == limit;
  }

  /** Index `i` below `n <= t * limit` lies on page `q + 1` for `q = i / limit`, and that page
      is at most `t`. */
  lemma PageOfIndex(i: nat, limit: int, n: nat, t: int) returns (q: nat)
    requires limit > 0 && i < n && n <= t * limit
    ensures q * limit <= i < q * limit + limit
    ensures q + 1 <= t
  {
    q := i / limit;
    assert i == q * limit + i % limit;
    assert (t - q) * limit == t * limit - q * limit;
  }

  /** With a positive limit, asking for pages 1 to `ceil(|s| / limit)` reaches every element
      of `s`. */
  lemma OnSomePage<T>(s: seq<T>, limit: int, x: T)
    requires limit > 0 && x in s
    ensures exists page :: 1 <= page <= TotalPages(|s|, limit)
                        && x in Window(s, PagingOf(Some(page), Some(limit)).offset, limit)
  {
    var i :| 0 <= i < |s| && s[i] == x;
    var q := PageOfIndex(i, limit, |s|, TotalPages(|s|, limit));
    PageOffset(q, limit);
    WindowHas(s, q * limit, limit, i);
    assert 1 <= q + 1 <= TotalPages(|s|, limit) && x in Window(s, PagingOf(Some(q + 1), Some(limit)).offset, limit);
  }

  /** The first `limit` elements of a descending sequence are its largest: every element left
      out has a key no larger than any element kept. */
  lemma TopOfDesc<T>(s: seq<T>, key: T -> int, limit: int, x: T, y: T)
    requires SortedDesc(s, key) && x in Window(s, 0, limit) && y in s && y !in Window(s, 0, limit)
    ensures key(y) <= key(x)
  {
    var w := Window(s, 0, limit);
    var i :| 0 <= i < |w| && w[i] == x;
    var j :| 0 <= j < |s| && s[j] == y;
    if j < limit {
      WindowHas(s, 0, limit, j);
    }
    assert i < j;
  }
}

/**
 * An SQLite rowid table: rows kept in rowid order (the order a full scan, and so an
 * unordered `fetchone()`, sees them) and the AUTOINCREMENT high-water mark that
 * `sqlite_sequence` keeps for the table.
 */
module Tables {

  datatype Row<T> = Row(id: int, val: T)

  datatype Table<T> = Table(rows: seq<Row<T>>, lastId: int)

  /** `INTEGER PRIMARY KEY AUTOINCREMENT`: ids strictly increase in storage order
      and none exceeds the largest id ever handed out. */
  ghost predicate WellKeyed<T>(t: Table<T>)
  {
    && (forall i, j :: 0 <= i < j < |t.rows| ==> t.rows[i].id < t.rows[j].id)
    && (forall i :: 0 <= i < |t.rows| ==> t.rows[i].id <= t.lastId)
  }

  /** A column (or column tuple) declared UNIQUE. */
  ghost predicate UniqueBy<T, K>(rows: seq<Row<T>>, key: T -> K)
  {
    forall i, j :: 0 <= i < j < |rows| ==> key(rows[i].val) != key(rows[j].val)
  }

  /** INSERT: the new row gets the id after the largest one ever used, which is
      larger than every id in the table. */
  function Insert<T>(t: Table<T>, v: T): (r: Table<T>)
    ensures r.lastId == t.lastId + 1
    ensures r.rows == t.rows + [Row(r.lastId, v)]
    ensures WellKeyed(t) ==> WellKeyed(r)
    ensures WellKeyed(t) ==> forall i :: 0 <= i < |t.rows| ==> t.rows[i].id < r.lastId
  {
    Table(t.rows + [Row(t.lastId + 1, v)], t.lastId + 1)
  }

  /** UPDATE of one row, found by its position: the id stays. */
  function SetVal<T>(t: Table<T>, k: nat, v: T): (r: Table<T>)
    requires k < |t.rows|
    ensures r.lastId == t.lastId && |r.rows| == |t.rows|
    ensures r.rows[k] == Row(t.rows[k].id, v)
    ensures forall i :: 0 <= i < |t.rows| && i != k ==> r.rows[i] == t.rows[i]
    ensures WellKeyed(t) ==> WellKeyed(r)
  {
    Table(t.rows[k := Row(t.rows[k].id, v)], t.lastId)
  }

  /** The rows `doomed` does not select, in their order. */
  function Without<T(!new)>(rows: seq<Row<T>>, doomed: T -> bool): (r: seq<Row<T>>)
    ensures |r| <= |rows|
    ensures forall x :: x in r <==> x in rows && !doomed(x.val)
  {
    if rows == [] then []
    else (if doomed(rows[0].val) then [] else [rows[0]]) + Without(rows[1..], doomed)
  }

  ghost predicate Ascending<T>(rows: seq<Row<T>>)
  {
    forall i, j :: 0 <= i < j < |rows| ==> rows[i].id < rows[j].id
  }

  lemma AscendingCons<T>(x: Row<T>, rest: seq<Row<T>>)
    requires Ascending(rest)
    requires forall y :: y in rest ==> x.id < y.id
    ensures Ascending([x] + rest)
  {
    var r := [x] + rest;
    forall i, j | 0 <= i < j < |r|
      ensures r[i].id < r[j].id
    {
      assert r[j] == rest[j - 1];
      if i > 0 {
        assert r[i] == rest[i - 1];
      } else {
        assert r[j] in rest;
      }
    }
  }

  lemma {:induction false} WithoutOrdered<T(!new)>(rows: seq<Row<T>>, doomed: T -> bool)
    requires Ascending(rows)
    ensures Ascending(Without(rows, doomed))
  {
    if rows != [] {
      assert Ascending(rows[1..]);
      WithoutOrdered(rows[1..], doomed);
      var tail := Without(rows[1..], doomed);
      if !doomed(rows[0].val) {
        forall y | y in tail
          ensures rows[0].id < y.id
        {
          var m :| 0 <= m < |rows[1..]| && rows[1..][m] == y;
          assert rows[m + 1] == y;
        }
        AscendingCons(rows[0], tail);
      } else {
        assert Without(rows, doomed) == tail;
      }
    }
  }

  /** DELETE ... WHERE doomed(row): the sequence counter is not reset. */
  function DeleteWhere<T(!new)>(t: Table<T>, doomed: T -> bool): (r: Table<T>)
    ensures r.lastId == t.lastId
    ensures forall x :: x in r.rows <==> x in t.rows && !doomed(x.val)
  {
    Table(Without(t.rows, doomed), t.lastId)
  }

  lemma DeleteKeepsKeyed<T(!new)>(t: Table<T>, doomed: T -> bool)
    requires WellKeyed(t)
    ensures WellKeyed(DeleteWhere(t, doomed))
  {
    assert Ascending(t.rows);
    WithoutOrdered(t.rows, doomed);
    var r := DeleteWhere(t, doomed);
    assert Ascending(r.rows);
    assert forall i :: 0 <= i < |r.rows| ==> r.rows[i] in t.rows;
  }

  /** Position of the first row, in rowid order, that satisfies `p`; -1 if none does. */
  function FirstWhere<T>(rows: seq<Row<T>>, p: Row<T> -> bool): (k: int)
    ensures -1 <= k < |rows|
    ensures k >= 0 ==> p(rows[k]) && forall j :: 0 <= j < k ==> !p(rows[j])
    ensures k < 0 ==> forall j :: 0 <= j < |rows| ==> !p(rows[j])
  {
    if rows == [] then -1
    else if p(rows[0]) then 0
    else
      var k := FirstWhere(rows[1..], p);
      if k < 0 then -1 else k + 1
  }

  /** `SELECT ... WHERE id = ?` */
  function Find<T>(rows: seq<Row<T>>, id: int): (k: int)
    ensures -1 <= k < |rows|
    ensures k >= 0 ==> rows[k].id == id
    ensures k < 0 ==> forall j :: 0 <= j < |rows| ==> rows[j].id != id
  {
    FirstWhere(rows, (r: Row<T>) => r.id == id)
  }

  /** Position of the first row, in rowid order, whose `key` column equals `k`; -1 if none. */
  function IndexOf<T, K(==)>(rows: seq<Row<T>>, key: T -> K, k: K): (i: int)
    ensures -1 <= i < |rows|
    ensures i >= 0 ==> key(rows[i].val) == k && forall j :: 0 <= j < i ==> key(rows[j].val) != k
    ensures i < 0 ==> forall j :: 0 <= j < |rows| ==> key(rows[j].val) != k
  {
    if rows == [] then -1
    else if key(rows[0].val) == k then 0
    else
      var i := IndexOf(rows[1..], key, k);
      if i < 0 then -1 else i + 1
  }

  ghost predicate HasKey<T, K>(rows: seq<Row<T>>, key: T -> K, k: K)
  {
    exists i :: 0 <= i < |rows| && key(rows[i].val) == k
  }

  /** `INSERT OR IGNORE` on a table whose `key` column is UNIQUE: a clash leaves the
      table (and its sequence counter) as it was. */
  function InsertOrIgnore<T, K(==)>(t: Table<T>, v: T, key: T -> K): (r: Table<T>)
    ensures HasKey(t.rows, key, key(v)) ==> r == t
    ensures !HasKey(t.rows, key, key(v)) ==> r == Insert(t, v)
    ensures HasKey(r.rows, key, key(v))
    ensures WellKeyed(t) && UniqueBy(t.rows, key) ==> WellKeyed(r) && UniqueBy(r.rows, key)
  {
    if IndexOf(t.rows, key, key(v)) >= 0 then t
    else
      var r := Insert(t, v);
      assert r.rows[|t.rows|].val == v;
      FreshKeyInsert(t, v, key);
      r
  }

  lemma UniqueAfterInsert<T, K>(t: Table<T>, v: T, key: T -> K)
    requires UniqueBy(t.rows, key)
    requires forall i :: 0 <= i < |t.rows| ==> key(t.rows[i].val) != key(v)
    ensures UniqueBy(Insert(t, v).rows, key)
  {
  }

  /** Insert-or-ignore adds no key but its own and loses none. */
  lemma InsertOrIgnoreKeys<T, K>(t: Table<T>, v: T, key: T -> K, k: K)
    ensures HasKey(t.rows, key, k) ==> HasKey(InsertOrIgnore(t, v, key).rows, key, k)
    ensures k != key(v) ==> (HasKey(InsertOrIgnore(t, v, key).rows, key, k) <==> HasKey(t.rows, key, k))
  {
    var r := InsertOrIgnore(t, v, key);
    if r != t {
      if HasKey(t.rows, key, k) {
        var i :| 0 <= i < |t.rows| && key(t.rows[i].val) == k;
        assert r.rows[i] == t.rows[i];
      }
      if k != key(v) && HasKey(r.rows, key, k) {
        var i :| 0 <= i < |r.rows| && key(r.rows[i].val) == k;
        assert i < |t.rows| && r.rows[i] == t.rows[i];
      }
    }
  }

  lemma FreshKeyInsert<T, K>(t: Table<T>, v: T, key: T -> K)
    requires forall i :: 0 <= i < |t.rows| ==> key(t.rows[i].val) != key(v)
    ensures UniqueBy(t.rows, key) ==> UniqueBy(Insert(t, v).rows, key)
  {
    if UniqueBy(t.rows, key) {
      UniqueAfterInsert(t, v, key);
    }
  }

  lemma UniqueAfterSet<T, K>(t: Table<T>, k: nat, v: T, key: T -> K)
    requires k < |t.rows|
    requires UniqueBy(t.rows, key)
    requires key(v) == key(t.rows[k].val)
    ensures UniqueBy(SetVal(t, k, v).rows, key)
  {
    var r := SetVal(t, k, v);
    forall i, j | 0 <= i < j < |r.rows|
      ensures key(r.rows[i].val) != key(r.rows[j].val)
    {
      assert key(r.rows[i].val) == key(t.rows[i].val);
      assert key(r.rows[j].val) == key(t.rows[j].val);
    }
  }

  /** Deleting keeps a key unique: what remains is a subsequence of a keyed table. */
  lemma {:induction false} UniqueAfterDelete<T(!new), K>(t: Table<T>, doomed: T -> bool, key: T -> K)
    requires WellKeyed(t) && UniqueBy(t.rows, key)
    ensures UniqueBy(DeleteWhere(t, doomed).rows, key)
  {
    var r := DeleteWhere(t, doomed).rows;
    forall i, j | 0 <= i < j < |r|
      ensures key(r[i].val) != key(r[j].val)
    {
      DeleteKeepsKeyed(t, doomed);
      assert r[i] in t.rows && r[j] in t.rows;
      var a :| 0 <= a < |t.rows| && t.rows[a] == r[i];
      var b :| 0 <= b < |t.rows| && t.rows[b] == r[j];
      assert r[i].id < r[j].id;
      assert a != b;
    }
  }

  /** `DELETE ... WHERE id = ?`: ids are unique, so at most the one row found goes. */
  function DeleteRow<T(!new)>(t: Table<T>, id: int): (r: Table<T>)
    ensures r.lastId == t.lastId
    ensures Find(t.rows, id) < 0 ==> r == t
    ensures Find(t.rows, id) >= 0 ==> |r.rows| == |t.rows| - 1
    ensures forall x :: x in r.rows ==> x in t.rows
    ensures WellKeyed(t) ==> WellKeyed(r) && forall x :: x in r.rows <==> x in t.rows && x.id != id
  {
    var k := Find(t.rows, id);
    if k < 0 then t
    else
      RemoveAt(t.rows, k);
      Table(t.rows[..k] + t.rows[k + 1..], t.lastId)
  }

  /** Dropping the element at `k` shifts the later ones down by one and keeps every
      other element. */
  lemma RemoveAt<E>(s: seq<E>, k: nat)
    requires k < |s|
    ensures var r := s[..k] + s[k + 1..];
      && (forall i :: 0 <= i < |r| ==> r[i] == s[if i < k then i else i + 1])
      && (forall x :: x in r ==> x in s)
      && (forall x :: x in s && x != s[k] ==> x in r)
  {
    var r := s[..k] + s[k + 1..];
    forall x | x in s && x != s[k]
      ensures x in r
    {
      var i :| 0 <= i < |s| && s[i] == x;
      assert r[if i < k then i else i - 1] == x;
    }
  }

  /** Rows whose value satisfies `p`: `SELECT COUNT(*) ... WHERE p`. */
  function Count<T>(rows: seq<Row<T>>, p: T -> bool): (n: nat)
    ensures n <= |rows|
    ensures n == 0 <==> forall i :: 0 <= i < |rows| ==> !p(rows[i].val)
  {
    if rows == [] then 0 else (if p(rows[0].val) then 1 else 0) + Count(rows[1..], p)
  }

  lemma {:induction false} CountAppend<T>(rows: seq<Row<T>>, x: Row<T>, p: T -> bool)
    ensures Count(rows + [x], p) == Count(rows, p) + (if p(x.val) then 1 else 0)
  {
    if rows != [] {
      assert (rows + [x])[1..] == rows[1..] + [x];
      CountAppend(rows[1..], x, p);
    }
  }

  lemma {:induction false} CountSplit<T>(a: seq<Row<T>>, b: seq<Row<T>>, p: T -> bool)
    ensures Count(a + b, p) == Count(a, p) + Count(b, p)
  {
    if a == [] {
      assert a + b == b;
    } else {
      assert (a + b)[1..] == a[1..] + b;
      CountSplit(a[1..], b, p);
    }
  }

  /** Changing one row's value changes the count by what that row contributed. */
  lemma CountSet<T>(rows: seq<Row<T>>, k: nat, x: Row<T>, p: T -> bool)
    requires k < |rows|
    ensures Count(rows[k := x], p) ==
      Count(rows, p) - (if p(rows[k].val) then 1 else 0) + (if p(x.val) then 1 else 0)
  {
    assert rows == rows[..k] + [rows[k]] + rows[k + 1..];
    assert rows[k := x] == rows[..k] + [x] + rows[k + 1..];
    CountSplit(rows[..k] + [rows[k]], rows[k + 1..], p);
    CountSplit(rows[..k] + [x], rows[k + 1..], p);
    CountAppend(rows[..k], rows[k], p);
    CountAppend(rows[..k], x, p);
  }

  lemma CountDeleteRow<T(!new)>(t: Table<T>, id: int, p: T -> bool)
    requires Find(t.rows, id) >= 0
    ensures Count(DeleteRow(t, id).rows, p) ==
      Count(t.rows, p) - (if p(t.rows[Find(t.rows, id)].val) then 1 else 0)
  {
    var k := Find(t.rows, id);
    assert t.rows == t.rows[..k] + [t.rows[k]] + t.rows[k + 1..];
    CountSplit(t.rows[..k] + [t.rows[k]], t.rows[k + 1..], p);
    CountSplit(t.rows[..k], t.rows[k + 1..], p);
    CountAppend(t.rows[..k], t.rows[k], p);
  }

  /** A run of INSERTs, in order: row `i` of `vs` gets id `lastId + 1 + i`. */
  function InsertAll<T>(t: Table<T>, vs: seq<T>): (r: Table<T>)
    ensures r.lastId == t.lastId + |vs|
    ensures |r.rows| == |t.rows| + |vs| && r.rows[..|t.rows|] == t.rows
    ensures forall i :: 0 <= i < |vs| ==> r.rows[|t.rows| + i] == Row(t.lastId + 1 + i, vs[i])
    ensures WellKeyed(t) ==> WellKeyed(r)
    decreases |vs|
  {
    if vs == [] then t
    else
      var r := InsertAll(Insert(t, vs[0]), vs[1..]);
      assert forall i :: 1 <= i < |vs| ==> vs[1..][i - 1] == vs[i];
      r
  }

  lemma {:induction false} InsertAllSnoc<T>(t: Table<T>, vs: seq<T>, v: T)
    ensures InsertAll(t, vs + [v]) == Insert(InsertAll(t, vs), v)
    decreases |vs|
  {
    if vs != [] {
      assert (vs + [v])[1..] == vs[1..] + [v];
      InsertAllSnoc(Insert(t, vs[0]), vs[1..], v);
    } else {
      assert InsertAll(Insert(t, v), []) == Insert(t, v);
    }
  }
}

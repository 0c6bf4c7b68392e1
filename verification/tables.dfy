/** An in-memory stand-in for one database table: rows keyed by an
    auto-increment primary key. Ids start at 1 and are never reused, so every
    key lies below the next id the table will hand out. */
module Tables {

  datatype TableRep<T> = TableRep(rows: map<nat, T>, next: nat)

  /** Ids are handed out from 1 upwards, and every key was handed out
      earlier: it is at least 1 and below `next`. */
  predicate Fits<T>(rows: map<nat, T>, next: nat)
  {
    && next >= 1
    && forall id :: id in rows ==> 1 <= id < next
  }

  type Table<T> = t: TableRep<T> | Fits(t.rows, t.next) witness TableRep(map[], 1)

  /** The elements of `s` below `n`, in increasing order. This is how the
      model lists a table or a many-to-many relation: by ascending id. */
  function Ascending(s: set<nat>, n: nat): (r: seq<nat>)
    ensures forall i :: 0 <= i < |r| ==> r[i] in s && r[i] < n
    ensures forall x :: x in s && x < n ==> x in r
    ensures forall i, j :: 0 <= i < j < |r| ==> r[i] < r[j]
  {
    if n == 0 then [] else Ascending(s, n - 1) + (if n - 1 in s then [n - 1] else [])
  }

  /** Nothing to list gives the empty list. */
  lemma {:induction false} AscendingOfNothing(s: set<nat>, n: nat)
    requires s == {}
    ensures Ascending(s, n) == []
  {
    if n > 0 {
      AscendingOfNothing(s, n - 1);
    }
  }

  /** A strictly increasing list that holds exactly the elements of `s` has
      one entry per element. */
  lemma {:induction false} ListedOnce(r: seq<nat>, s: set<nat>)
    requires forall i, j :: 0 <= i < j < |r| ==> r[i] < r[j]
    requires forall i :: 0 <= i < |r| ==> r[i] in s
    requires forall x :: x in s ==> x in r
    ensures |r| == |s|
  {
    if r == [] {
      assert s == {};
    } else {
      var last := r[|r| - 1];
      var init := r[..|r| - 1];
      assert forall i :: 0 <= i < |init| ==> init[i] == r[i];
      forall x | x in s - {last}
        ensures x in init
      {
        var i :| 0 <= i < |r| && r[i] == x;
        assert init[i] == x;
      }
      ListedOnce(init, s - {last});
      assert s == (s - {last}) + {last};
    }
  }

  /** Every id of the table, ascending. */
  function Ids<T>(t: Table<T>): (r: seq<nat>)
    ensures forall i :: 0 <= i < |r| ==> r[i] in t.rows
    ensures forall id :: id in t.rows ==> id in r
    ensures forall i, j :: 0 <= i < j < |r| ==> r[i] < r[j]
  {
    Ascending(t.rows.Keys, t.next)
  }

  /** Saving a new row: it gets the next id. */
  function Insert<T>(t: Table<T>, v: T): (r: (Table<T>, nat))
    ensures r.1 !in t.rows && r.1 >= 1
    ensures r.0.rows == t.rows[r.1 := v]
    ensures r.0.next > r.1
  {
    var t': Table<T> := TableRep(t.rows[t.next := v], t.next + 1);
    (t', t.next)
  }

  /** Saving an existing row under its own id. */
  function Put<T>(t: Table<T>, id: nat, v: T): (r: Table<T>)
    requires id in t.rows
    ensures r.rows == t.rows[id := v] && r.next == t.next
  {
    TableRep(t.rows[id := v], t.next)
  }

  /** Deleting the rows with the given ids; the id counter is kept. */
  function Remove<T>(t: Table<T>, ids: set<nat>): (r: Table<T>)
    ensures r.rows == t.rows - ids && r.next == t.next
  {
    TableRep(t.rows - ids, t.next)
  }

  /** Rewriting every row in place (what a cascade does to the rows that
      point at a deleted one); keys and the id counter stay. */
  function MapRows<T>(t: Table<T>, f: T -> T): (r: Table<T>)
    ensures r.rows.Keys == t.rows.Keys && r.next == t.next
    ensures forall id :: id in t.rows ==> r.rows[id] == f(t.rows[id])
  {
    var rows := map id | id in t.rows :: f(t.rows[id]);
    assert rows.Keys == t.rows.Keys;
    TableRep(rows, t.next)
  }
}

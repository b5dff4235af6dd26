/** The `todos` table of backend/database.py (the same schema is created by
    api/todos.py and the Netlify function): rows keyed by an INTEGER PRIMARY KEY
    AUTOINCREMENT id, with CURRENT_TIMESTAMP defaults for both timestamps. Each
    method is one SQL statement the handlers issue. */
module Database {
  import opened Models
  import opened Listing

  /** `t` is a row of the table that the status selects. */
  predicate IsSelectedRow(rows: map<int, Todo>, st: Status, t: Todo) {
    t.id in rows && rows[t.id] == t && Selects(st, t)
  }

  /** A key taken from a request matches a row. Text that is not an integer
      gives no key and matches nothing. */
  predicate HasRow(rows: map<int, Todo>, key: Option<int>) {
    key.Some? && key.value in rows
  }

  /** Ids of the rows a status selects. */
  function SelectedIds(rows: map<int, Todo>, st: Status): set<int> {
    set id | id in rows && Selects(st, rows[id])
  }

  /** What `DELETE FROM todos [WHERE completed = TRUE]` leaves: the rows the
      status does not select. */
  function Unselected(rows: map<int, Todo>, st: Status): (r: map<int, Todo>)
    ensures r.Keys == rows.Keys - SelectedIds(rows, st)
    ensures forall id :: id in r ==> r[id] == rows[id] && !Selects(st, r[id])
  {
    map id | id in rows && !Selects(st, rows[id]) :: rows[id]
  }

  /** The completed rows and the incomplete rows split the table. */
  lemma CompletedActiveSplit(rows: map<int, Todo>)
    ensures |SelectedIds(rows, Completed)| + |SelectedIds(rows, Active)| == |rows|
    ensures Unselected(rows, Completed).Keys == SelectedIds(rows, Active)
  {
    var c, a := SelectedIds(rows, Completed), SelectedIds(rows, Active);
    assert c !! a by {
      forall id | id in c ensures id !in a { assert rows[id].completed; }
    }
    assert c + a == rows.Keys by {
      forall id | id in rows.Keys ensures id in c + a {
        if rows[id].completed { assert id in c; } else { assert id in a; }
      }
    }
  }

  class TodoTable {
    var rows: map<int, Todo>
    /** The table's sqlite_sequence entry: the largest id AUTOINCREMENT has handed out. */
    var lastId: nat
    /** Every id handed out so far, including those of deleted rows. */
    ghost var issued: set<int>

    ghost predicate Valid()
      reads this
    {
      && (forall id :: id in rows ==> rows[id].id == id && id in issued)
      && (forall id :: id in issued ==> 1 <= id <= lastId)
    }

    constructor ()
      ensures Valid() && rows == map[] && lastId == 0 && issued == {}
    {
      rows := map[];
      lastId := 0;
      issued := {};
    }

    /** `SELECT * FROM todos WHERE id = ?`. */
    method SelectById(id: int) returns (row: Option<Todo>)
      requires Valid()
      ensures row.Some? <==> id in rows
      ensures row.Some? ==> row.value == rows[id] && row.value.id == id
    {
      row := if id in rows then Some(rows[id]) else None;
    }

    /** `INSERT INTO todos (title, completed, ...)` with both timestamps
        CURRENT_TIMESTAMP; the new id is one above any id ever used, so an id is
        never reused after a delete. */
    method Insert(c: TodoCreate, now: Timestamp) returns (row: Todo)
      requires Valid()
      modifies this
      ensures Valid()
      ensures row == NewRecord(old(lastId) + 1, c, now)
      ensures row.id !in old(issued) && row.id !in old(rows)
      ensures rows == old(rows)[row.id := row]
      ensures lastId == row.id && issued == old(issued) + {row.id}
    {
      lastId := lastId + 1;
      row := NewRecord(lastId, c, now);
      rows := rows[lastId := row];
      issued := issued + {lastId};
    }

    /** `UPDATE todos SET <supplied columns>, updated_at = CURRENT_TIMESTAMP
        WHERE id = ?`; returns the number of rows changed. */
    method UpdateById(id: int, u: TodoUpdate, now: Timestamp) returns (changes: nat)
      requires Valid()
      modifies this
      ensures Valid() && lastId == old(lastId) && issued == old(issued)
      ensures changes == (if id in old(rows) then 1 else 0)
      ensures rows == if id in old(rows) then old(rows)[id := Patched(old(rows)[id], u, now)]
                      else old(rows)
    {
      if id in rows {
        rows := rows[id := Patched(rows[id], u, now)];
        changes := 1;
      } else {
        changes := 0;
      }
    }

    /** `DELETE FROM todos WHERE id = ?`; returns the number of rows deleted. */
    method DeleteById(id: int) returns (changes: nat)
      requires Valid()
      modifies this
      ensures Valid() && lastId == old(lastId) && issued == old(issued)
      ensures changes == (if id in old(rows) then 1 else 0)
      ensures rows == old(rows) - {id}
    {
      changes := if id in rows then 1 else 0;
      rows := rows - {id};
    }

    /** `SELECT COUNT(*) FROM todos [WHERE completed = TRUE]`. */
    method Count(st: Status) returns (n: nat)
      requires Valid()
      ensures n == |SelectedIds(rows, st)|
      ensures st == All ==> n == |rows|
    {
      if st == All {
        assert SelectedIds(rows, st) == rows.Keys by {
          forall id | id in rows ensures id in SelectedIds(rows, st) { assert Selects(st, rows[id]); }
        }
      }
      n := |SelectedIds(rows, st)|;
    }

    /** `DELETE FROM todos [WHERE completed = TRUE]`. */
    method DeleteWhere(st: Status)
      requires Valid()
      modifies this
      ensures Valid() && lastId == old(lastId) && issued == old(issued)
      ensures rows == Unselected(old(rows), st)
      ensures st == All ==> rows == map[]
    {
      rows := Unselected(rows, st);
    }

    /** `SELECT * FROM todos [WHERE ...] ORDER BY created_at DESC`. The engine
        leaves the order of rows created at the same instant open, and so does
        this contract: the result is most recent first and holds every selected
        row exactly once. The scan below happens to take ids in ascending order. */
    method SelectOrdered(st: Status) returns (r: seq<Todo>)
      requires Valid()
      ensures SortedDesc(r) && IdsDistinct(r)
      ensures forall t :: t in r <==> IsSelectedRow(rows, st, t)
      ensures |r| == |SelectedIds(rows, st)|
    {
      r := [];
      var i := 1;
      assert SelectedBelow(rows, st, 1) == {};
      while i <= lastId
        invariant 1 <= i <= lastId + 1
        invariant ScanInv(rows, st, i, r)
      {
        if i in rows && Selects(st, rows[i]) {
          ScanInsert(rows, st, i, r);
          r := InsertDesc(r, rows[i]);
        } else {
          ScanSkip(rows, st, i, r);
        }
        i := i + 1;
      }
      ScanDone(rows, st, lastId, r);
    }
  }

  /** Ids below `n` of the rows a status selects. */
  ghost function SelectedBelow(rows: map<int, Todo>, st: Status, n: int): set<int> {
    set id | id in rows && id < n && Selects(st, rows[id])
  }

  /** What a scan of the ids below `n` has produced: the selected rows among
      them, each once, most recent first. */
  ghost predicate ScanInv(rows: map<int, Todo>, st: Status, n: int, r: seq<Todo>) {
    && SortedDesc(r) && IdsDistinct(r)
    && (forall t :: t in r <==> t.id < n && IsSelectedRow(rows, st, t))
    && |r| == |SelectedBelow(rows, st, n)|
  }

  /** The scan passes an id with no selected row: the invariant carries over. */
  lemma ScanSkip(rows: map<int, Todo>, st: Status, n: int, r: seq<Todo>)
    requires ScanInv(rows, st, n, r)
    requires !(n in rows && Selects(st, rows[n]))
    ensures ScanInv(rows, st, n + 1, r)
  {
    SelectedBelowStep(rows, st, n);
  }

  /** The scan meets a selected row: inserting it keeps the scan's invariant. */
  lemma ScanInsert(rows: map<int, Todo>, st: Status, n: int, r: seq<Todo>)
    requires forall id :: id in rows ==> rows[id].id == id
    requires ScanInv(rows, st, n, r)
    requires n in rows && Selects(st, rows[n])
    ensures ScanInv(rows, st, n + 1, InsertDesc(r, rows[n]))
  {
    var x := rows[n];
    var r' := InsertDesc(r, x);
    assert forall t :: t in r ==> t.id != x.id;
    InsertDescSpec(r, x);
    InsertDescKeepsIdsDistinct(r, x);
    InsertDescMembers(r, x);
    assert forall t :: t in r' <==> t.id < n + 1 && IsSelectedRow(rows, st, t) by {
      forall t ensures t in r' <==> t.id < n + 1 && IsSelectedRow(rows, st, t) {
        if t.id == n && IsSelectedRow(rows, st, t) {
          assert t == x;
        }
      }
    }
    SelectedBelowStep(rows, st, n);
  }

  /** A scan past the largest id has seen every row. */
  lemma ScanDone(rows: map<int, Todo>, st: Status, last: nat, r: seq<Todo>)
    requires forall id :: id in rows ==> id <= last
    requires ScanInv(rows, st, last + 1, r)
    ensures SortedDesc(r) && IdsDistinct(r)
    ensures forall t :: t in r <==> IsSelectedRow(rows, st, t)
    ensures |r| == |SelectedIds(rows, st)|
  {
    assert SelectedBelow(rows, st, last + 1) == SelectedIds(rows, st);
  }

  lemma SelectedBelowStep(rows: map<int, Todo>, st: Status, n: int)
    ensures n !in SelectedBelow(rows, st, n)
    ensures SelectedBelow(rows, st, n + 1)
            == if n in rows && Selects(st, rows[n]) then SelectedBelow(rows, st, n) + {n}
               else SelectedBelow(rows, st, n)
  {
  }

  /** Inserting a record whose id is new keeps ids distinct. */
  lemma {:induction false} InsertDescKeepsIdsDistinct(s: seq<Todo>, x: Todo)
    requires IdsDistinct(s) && forall t :: t in s ==> t.id != x.id
    ensures IdsDistinct(InsertDesc(s, x))
  {
    if s == [] || s[0].createdAt < x.createdAt {
      var r := [x] + s;
      forall i, j | 0 <= i < j < |r| ensures r[i].id != r[j].id {
        if i == 0 {
          assert r[j] == s[j - 1] && r[j] in s;
        } else {
          assert r[i] == s[i - 1] && r[j] == s[j - 1];
        }
      }
    } else {
      assert IdsDistinct(s[1..]) by {
        forall i, j | 0 <= i < j < |s[1..]| ensures s[1..][i].id != s[1..][j].id {
          assert s[1..][i] == s[i + 1] && s[1..][j] == s[j + 1];
        }
      }
      InsertDescKeepsIdsDistinct(s[1..], x);
      var rest := InsertDesc(s[1..], x);
      InsertDescMembers(s[1..], x);
      var r := [s[0]] + rest;
      forall i, j | 0 <= i < j < |r| ensures r[i].id != r[j].id {
        if i == 0 {
          var t := r[j];
          assert t == rest[j - 1] && t in rest;
          if t != x {
            var k :| 0 <= k < |s[1..]| && s[1..][k] == t;
            assert s[k + 1] == t;
          }
        } else {
          assert r[i] == rest[i - 1] && r[j] == rest[j - 1];
        }
      }
    }
  }

  /** The records of `InsertDesc(s, x)` are those of `s` and `x`. */
  lemma {:induction false} InsertDescMembers(s: seq<Todo>, x: Todo)
    ensures forall t :: t in InsertDesc(s, x) <==> t in s || t == x
  {
    if !(s == [] || s[0].createdAt < x.createdAt) {
      InsertDescMembers(s[1..], x);
      assert s == [s[0]] + s[1..];
    }
  }
}

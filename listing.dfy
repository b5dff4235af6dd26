/** Selecting and ordering todo records: the status filter every backend and
    the client apply, removal by id, and the created_at-descending order. */
module Listing {
  import opened Models

  /** The `status` filter: 'all', 'active', 'completed', or anything else. */
  datatype Status = All | Active | Completed | Other

  function ParseStatus(s: string): (st: Status)
    ensures st == Active <==> s == "active"
    ensures st == Completed <==> s == "completed"
    ensures st == All <==> s == "all"
  {
    if s == "active" then Active
    else if s == "completed" then Completed
    else if s == "all" then All
    else Other
  }

  /** The `status` query parameter, which defaults to 'all' when absent. */
  function StatusParam(q: Option<string>): Status {
    match q
    case None => All
    case Some(s) => ParseStatus(s)
  }

  /** Whether a filter keeps a record: only 'active' and 'completed' restrict. */
  predicate Selects(st: Status, t: Todo) {
    match st
    case Active => !t.completed
    case Completed => t.completed
    case _ => true
  }

  /** The records a filter keeps, in their original order. */
  function FilterByStatus(s: seq<Todo>, st: Status): (r: seq<Todo>)
    ensures forall t :: t in r <==> t in s && Selects(st, t)
  {
    if s == [] then []
    else
      assert s == [s[0]] + s[1..];
      (if Selects(st, s[0]) then [s[0]] else []) + FilterByStatus(s[1..], st)
  }

  /** A filter that keeps no record of the list yields the empty list. */
  lemma {:induction false} NothingSelectedFiltersEmpty(s: seq<Todo>, st: Status)
    requires forall t :: t in s ==> !Selects(st, t)
    ensures FilterByStatus(s, st) == []
  {
    if s != [] {
      assert s[0] in s;
      NothingSelectedFiltersEmpty(s[1..], st);
    }
  }

  /** 'all' and every unknown status keep the list as it is. */
  lemma {:induction false} UnrestrictedFilterKeepsAll(s: seq<Todo>, st: Status)
    requires st == All || st == Other
    ensures FilterByStatus(s, st) == s
  {
    if s != [] {
      UnrestrictedFilterKeepsAll(s[1..], st);
    }
  }

  /** Filtering distributes over concatenation, so it preserves relative order. */
  lemma {:induction false} FilterAppend(a: seq<Todo>, b: seq<Todo>, st: Status)
    ensures FilterByStatus(a + b, st) == FilterByStatus(a, st) + FilterByStatus(b, st)
  {
    if a == [] {
      assert a + b == b;
    } else {
      assert (a + b)[1..] == a[1..] + b;
      FilterAppend(a[1..], b, st);
    }
  }

  /** Filtering twice with the same status is filtering once. */
  lemma {:induction false} FilterIdempotent(s: seq<Todo>, st: Status)
    ensures FilterByStatus(FilterByStatus(s, st), st) == FilterByStatus(s, st)
  {
    if s != [] {
      FilterIdempotent(s[1..], st);
      var rest := FilterByStatus(s[1..], st);
      if Selects(st, s[0]) {
        var r := [s[0]] + rest;
        assert FilterByStatus(s, st) == r;
        assert r[0] == s[0] && r[1..] == rest;
        assert FilterByStatus(r, st) == [s[0]] + FilterByStatus(rest, st);
      } else {
        assert FilterByStatus(s, st) == rest;
      }
    }
  }

  /** Active and completed records split the list: counts add up and together
      they are a permutation of it. */
  lemma {:induction false} ActiveCompletedPartition(s: seq<Todo>)
    ensures |FilterByStatus(s, Active)| + |FilterByStatus(s, Completed)| == |s|
    ensures multiset(FilterByStatus(s, Active)) + multiset(FilterByStatus(s, Completed)) == multiset(s)
  {
    if s != [] {
      ActiveCompletedPartition(s[1..]);
      assert s == [s[0]] + s[1..];
    }
  }



  /** Some record in `s` has this id. */
  predicate HasId(s: seq<Todo>, id: int) {
    exists i :: 0 <= i < |s| && s[i].id == id
  }

  /** No two records in `s` share an id. */
  predicate IdsDistinct(s: seq<Todo>) {
    forall i, j :: 0 <= i < j < |s| ==> s[i].id != s[j].id
  }

  /** The records whose id differs from `id`, in their original order. */
  function WithoutId(s: seq<Todo>, id: int): (r: seq<Todo>)
    ensures |r| <= |s|
    ensures forall t :: t in r <==> t in s && t.id != id
  {
    if s == [] then []
    else
      assert s == [s[0]] + s[1..];
      (if s[0].id != id then [s[0]] else []) + WithoutId(s[1..], id)
  }

  /** Removing by id leaves the length unchanged exactly when no record had
      that id. */
  lemma {:induction false} WithoutIdLength(s: seq<Todo>, id: int)
    ensures |WithoutId(s, id)| == |s| <==> !HasId(s, id)
  {
    if s != [] {
      WithoutIdLength(s[1..], id);
      if s[0].id == id {
        assert HasId(s, id);
      } else if HasId(s, id) {
        var i :| 0 <= i < |s| && s[i].id == id;
        assert s[1..][i - 1].id == id;
      } else {
        assert !HasId(s[1..], id) by {
          forall i | 0 <= i < |s[1..]| ensures s[1..][i].id != id {
            assert s[1..][i] == s[i + 1];
          }
        }
      }
    }
  }

  /** Removing an id that is absent changes nothing. */
  lemma {:induction false} WithoutAbsentId(s: seq<Todo>, id: int)
    requires !HasId(s, id)
    ensures WithoutId(s, id) == s
  {
    if s != [] {
      assert !HasId(s[1..], id) by {
        forall i | 0 <= i < |s[1..]| ensures s[1..][i].id != id {
          assert s[1..][i] == s[i + 1];
        }
      }
      WithoutAbsentId(s[1..], id);
      assert s[0].id != id;
    }
  }

  /** A list has distinct ids exactly when its tail does and its head's id
      occurs nowhere in the tail. */
  lemma ConsIdsDistinct(x: Todo, rest: seq<Todo>)
    ensures IdsDistinct([x] + rest) <==> IdsDistinct(rest) && forall t :: t in rest ==> t.id != x.id
  {
    var s := [x] + rest;
    if IdsDistinct(s) {
      forall i, j | 0 <= i < j < |rest| ensures rest[i].id != rest[j].id {
        assert s[i + 1] == rest[i] && s[j + 1] == rest[j];
      }
      forall t | t in rest ensures t.id != x.id {
        var k :| 0 <= k < |rest| && rest[k] == t;
        assert s[0] == x && s[k + 1] == t;
        assert s[0].id != s[k + 1].id;
      }
    }
    if IdsDistinct(rest) && forall t :: t in rest ==> t.id != x.id {
      forall i, j | 0 <= i < j < |s| ensures s[i].id != s[j].id {
        assert s[j] == rest[j - 1] && s[j] in rest;
        if i > 0 {
          assert s[i] == rest[i - 1];
        }
      }
    }
  }

  /** Filtering keeps ids distinct. */
  lemma {:induction false} FilterKeepsIdsDistinct(s: seq<Todo>, st: Status)
    requires IdsDistinct(s)
    ensures IdsDistinct(FilterByStatus(s, st))
  {
    if s != [] {
      assert s == [s[0]] + s[1..];
      ConsIdsDistinct(s[0], s[1..]);
      FilterKeepsIdsDistinct(s[1..], st);
      if Selects(st, s[0]) {
        ConsIdsDistinct(s[0], FilterByStatus(s[1..], st));
      }
    }
  }

  /** Removing by id keeps ids distinct. */
  lemma {:induction false} WithoutIdKeepsIdsDistinct(s: seq<Todo>, id: int)
    requires IdsDistinct(s)
    ensures IdsDistinct(WithoutId(s, id))
  {
    if s != [] {
      assert s == [s[0]] + s[1..];
      ConsIdsDistinct(s[0], s[1..]);
      WithoutIdKeepsIdsDistinct(s[1..], id);
      if s[0].id != id {
        ConsIdsDistinct(s[0], WithoutId(s[1..], id));
      }
    }
  }

  /** With distinct ids, removing an id that is present removes exactly one
      record. */
  lemma {:induction false} WithoutPresentId(s: seq<Todo>, id: int)
    requires IdsDistinct(s) && HasId(s, id)
    ensures |WithoutId(s, id)| == |s| - 1
  {
    assert s == [s[0]] + s[1..];
    ConsIdsDistinct(s[0], s[1..]);
    if s[0].id == id {
      assert !HasId(s[1..], id) by {
        forall i | 0 <= i < |s[1..]| ensures s[1..][i].id != id {
          assert s[1..][i] in s[1..];
        }
      }
      WithoutAbsentId(s[1..], id);
    } else {
      var i :| 0 <= i < |s| && s[i].id == id;
      assert s[1..][i - 1].id == id;
      WithoutPresentId(s[1..], id);
    }
  }

  // ----- ordering by created_at, most recent first -----

  predicate SortedDesc(s: seq<Todo>) {
    forall i, j :: 0 <= i < j < |s| ==> s[i].createdAt >= s[j].createdAt
  }

  /** Places `x` just before the first record strictly older than it, so after
      every record created at the same instant or later. */
  function InsertDesc(s: seq<Todo>, x: Todo): seq<Todo> {
    if s == [] || s[0].createdAt < x.createdAt then [x] + s
    else [s[0]] + InsertDesc(s[1..], x)
  }

  /** Insertion adds exactly the one record. */
  lemma {:induction false} InsertDescMultiset(s: seq<Todo>, x: Todo)
    ensures multiset(InsertDesc(s, x)) == multiset(s) + multiset{x}
    ensures |InsertDesc(s, x)| == |s| + 1
  {
    if s != [] && s[0].createdAt >= x.createdAt {
      InsertDescMultiset(s[1..], x);
      assert s == [s[0]] + s[1..];
    }
  }

  /** Every record of the insertion is at most as recent as a bound that holds
      for the list and for the inserted record. */
  lemma {:induction false} InsertDescBounded(s: seq<Todo>, x: Todo, bound: Timestamp)
    requires x.createdAt <= bound
    requires forall i :: 0 <= i < |s| ==> s[i].createdAt <= bound
    ensures forall i :: 0 <= i < |InsertDesc(s, x)| ==> InsertDesc(s, x)[i].createdAt <= bound
  {
    if s != [] && s[0].createdAt >= x.createdAt {
      InsertDescBounded(s[1..], x, bound);
    }
  }

  lemma {:induction false} InsertDescSorted(s: seq<Todo>, x: Todo)
    requires SortedDesc(s)
    ensures SortedDesc(InsertDesc(s, x))
  {
    if s != [] && s[0].createdAt >= x.createdAt {
      var tail := s[1..];
      InsertDescSorted(tail, x);
      InsertDescBounded(tail, x, s[0].createdAt);
      var r := InsertDesc(tail, x);
      var out := [s[0]] + r;
      forall i, j | 0 <= i < j < |out| ensures out[i].createdAt >= out[j].createdAt {
        if i == 0 {
          assert out[j] == r[j - 1];
        } else {
          assert out[i] == r[i - 1] && out[j] == r[j - 1];
        }
      }
    } else if s != [] {
      var out := [x] + s;
      forall i, j | 0 <= i < j < |out| ensures out[i].createdAt >= out[j].createdAt {
        if i > 0 {
          assert out[i] == s[i - 1] && out[j] == s[j - 1];
        } else {
          assert out[j] == s[j - 1];
        }
      }
    }
  }

  /** Insertion into a list ordered most recent first keeps it ordered and adds
      exactly the one record. */
  lemma InsertDescSpec(s: seq<Todo>, x: Todo)
    requires SortedDesc(s)
    ensures SortedDesc(InsertDesc(s, x))
    ensures multiset(InsertDesc(s, x)) == multiset(s) + multiset{x}
    ensures |InsertDesc(s, x)| == |s| + 1
  {
    InsertDescSorted(s, x);
    InsertDescMultiset(s, x);
  }

  /** The records of `s` created at instant `k`, in order. */
  function CreatedAt(s: seq<Todo>, k: Timestamp): seq<Todo> {
    if s == [] then []
    else (if s[0].createdAt == k then [s[0]] else []) + CreatedAt(s[1..], k)
  }

  lemma {:induction false} OlderThanHeadHasNone(s: seq<Todo>, k: Timestamp)
    requires SortedDesc(s) && s != [] && s[0].createdAt < k
    ensures CreatedAt(s, k) == []
  {
    if |s| > 1 {
      assert SortedDesc(s[1..]) by {
        forall i, j | 0 <= i < j < |s[1..]| ensures s[1..][i].createdAt >= s[1..][j].createdAt {
          assert s[1..][i] == s[i + 1] && s[1..][j] == s[j + 1];
        }
      }
      assert s[1].createdAt <= s[0].createdAt;
      OlderThanHeadHasNone(s[1..], k);
    }
  }

  /** Inserting into a sorted list puts `x` after every record with its own
      creation time. */
  lemma {:induction false} InsertDescStable(s: seq<Todo>, x: Todo, k: Timestamp)
    requires SortedDesc(s)
    ensures CreatedAt(InsertDesc(s, x), k)
            == CreatedAt(s, k) + (if x.createdAt == k then [x] else [])
  {
    if s == [] {
    } else if s[0].createdAt < x.createdAt {
      var r := [x] + s;
      assert r[1..] == s;
      if x.createdAt == k {
        OlderThanHeadHasNone(s, k);
      }
    } else {
      assert SortedDesc(s[1..]) by {
        forall i, j | 0 <= i < j < |s[1..]| ensures s[1..][i].createdAt >= s[1..][j].createdAt {
          assert s[1..][i] == s[i + 1] && s[1..][j] == s[j + 1];
        }
      }
      InsertDescStable(s[1..], x, k);
      var r := [s[0]] + InsertDesc(s[1..], x);
      assert r[1..] == InsertDesc(s[1..], x);
    }
  }

  /** Python's stable `sort(key=created_at, reverse=True)`: an insertion sort
      that takes the records in list order. */
  function SortByCreatedDesc(s: seq<Todo>): seq<Todo> {
    if s == [] then [] else InsertDesc(SortByCreatedDesc(s[..|s| - 1]), s[|s| - 1])
  }

  /** The sorted list is ordered most recent first and is a permutation of the
      input. */
  lemma {:induction false} SortByCreatedDescSpec(s: seq<Todo>)
    ensures SortedDesc(SortByCreatedDesc(s))
    ensures multiset(SortByCreatedDesc(s)) == multiset(s)
    ensures |SortByCreatedDesc(s)| == |s|
  {
    if s != [] {
      SortByCreatedDescSpec(s[..|s| - 1]);
      InsertDescSpec(SortByCreatedDesc(s[..|s| - 1]), s[|s| - 1]);
      assert s == s[..|s| - 1] + [s[|s| - 1]];
    }
  }

  lemma {:induction false} CreatedAtAppend(a: seq<Todo>, b: seq<Todo>, k: Timestamp)
    ensures CreatedAt(a + b, k) == CreatedAt(a, k) + CreatedAt(b, k)
  {
    if a == [] {
      assert a + b == b;
    } else {
      var ab, head := a + b, if a[0].createdAt == k then [a[0]] else [];
      assert ab[0] == a[0] && ab[1..] == a[1..] + b;
      CreatedAtAppend(a[1..], b, k);
      assert CreatedAt(ab, k) == head + (CreatedAt(a[1..], k) + CreatedAt(b, k));
      assert CreatedAt(a, k) == head + CreatedAt(a[1..], k);
    }
  }

  /** Stability: records created at the same instant keep their list order. */
  lemma {:induction false} SortByCreatedDescStable(s: seq<Todo>, k: Timestamp)
    ensures CreatedAt(SortByCreatedDesc(s), k) == CreatedAt(s, k)
  {
    if s != [] {
      var init, last := s[..|s| - 1], s[|s| - 1];
      SortByCreatedDescStable(init, k);
      SortByCreatedDescSpec(init);
      InsertDescStable(SortByCreatedDesc(init), last, k);
      assert s == init + [last];
      CreatedAtAppend(init, [last], k);
      assert CreatedAt([last], k) == (if last.createdAt == k then [last] else []) + CreatedAt([], k);
    }
  }
}

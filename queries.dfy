/*
 * The read side of the executor association service: `getUsersByTask`,
 * `getList` and `getUsersByTaskIds`, as functions of the relation and the
 * users table.
 */
module Queries {
  import opened Relation
  import opened Collation

  /** The user record the join selects for an existing user id. */
  function AsUser(id: UserId, users: UserTable): User
    requires id in users
  {
    User(id, users[id].username, users[id].name)
  }

  /**
   * getUsersByTask: every user joined to a row of task `t`. The query has no
   * ORDER BY, so the order is no promise; the model returns the users in
   * relation order. GetUsersByTaskCount states how often each is listed.
   */
  function GetUsersByTask(rows: seq<Row>, users: UserTable, t: TaskId): (r: seq<User>)
    ensures forall x :: x in r <==> x.id in users && Row(t, x.id) in rows && users[x.id] == Profile(x.username, x.name)
    ensures |r| <= |rows|
  {
    if rows == [] then []
    else
      var last := rows[|rows| - 1];
      assert rows == rows[..|rows| - 1] + [last];
      GetUsersByTask(rows[..|rows| - 1], users, t)
        + (if last.task == t && last.user in users then [AsUser(last.user, users)] else [])
  }

  /**
   * The join lists a user once per row of task `t` that names it, and a user
   * that is not the users table's record for its id not at all.
   */
  lemma {:induction false} GetUsersByTaskCount(rows: seq<Row>, users: UserTable, t: TaskId)
    ensures forall x :: multiset(GetUsersByTask(rows, users, t))[x] ==
                        (if x.id in users && users[x.id] == Profile(x.username, x.name) then multiset(rows)[Row(t, x.id)] else 0)
  {
    if rows != [] {
      var init, last := rows[..|rows| - 1], rows[|rows| - 1];
      assert rows == init + [last];
      GetUsersByTaskCount(init, users, t);
      var tail := if last.task == t && last.user in users then [AsUser(last.user, users)] else [];
      assert GetUsersByTask(rows, users, t) == GetUsersByTask(init, users, t) + tail;
      assert multiset(rows) == multiset(init) + multiset{last};
      forall x: User
        ensures multiset(GetUsersByTask(rows, users, t))[x] ==
                (if x.id in users && users[x.id] == Profile(x.username, x.name) then multiset(rows)[Row(t, x.id)] else 0)
      {
        assert multiset(GetUsersByTask(rows, users, t)) == multiset(GetUsersByTask(init, users, t)) + multiset(tail);
      }
    }
  }

  /** Sets key `k` of an ordered dictionary to `v`: an existing key keeps its position, a new one goes last. */
  function Put(d: Dict, k: UserId, v: string): (r: Dict)
    requires UniqueKeys(d)
    ensures UniqueKeys(r)
    ensures KeySet(r) == KeySet(d) + {k}
    ensures (k, v) in r
    ensures forall p :: p in r ==> p in d || p == (k, v)
  {
    if d == [] then [(k, v)]
    else if d[0].0 == k then [(k, v)] + d[1..]
    else
      var rest := Put(d[1..], k, v);
      assert KeySet(d) == {d[0].0} + KeySet(d[1..]) by {
        assert d == [d[0]] + d[1..];
      }
      [d[0]] + rest
  }

  /** Setting key `k` keeps every pair under another key. */
  lemma {:induction false} PutKeepsOthers(d: Dict, k: UserId, v: string)
    requires UniqueKeys(d)
    ensures forall p :: p in d && p.0 != k ==> p in Put(d, k, v)
  {
    if d != [] && d[0].0 != k {
      assert UniqueKeys(d[1..]) by {
        forall i, j | 0 <= i < j < |d[1..]| ensures d[1..][i].0 != d[1..][j].0 {
          assert d[1..][i] == d[i + 1] && d[1..][j] == d[j + 1];
        }
      }
      PutKeepsOthers(d[1..], k, v);
      assert d == [d[0]] + d[1..];
    }
  }

  function Columns(us: seq<User>): set<(UserId, string)>
  {
    set x | x in us :: (x.id, x.username)
  }

  /**
   * array_column($users, 'username', 'id'): a dictionary from id to username
   * built row by row, a later row overwriting the value of an earlier key.
   */
  function ArrayColumn(us: seq<User>): (d: Dict)
    ensures UniqueKeys(d)
    ensures KeySet(d) == set x | x in us :: x.id
    ensures forall p :: p in d ==> p in Columns(us)
  {
    if us == [] then []
    else
      var last := us[|us| - 1];
      assert us == us[..|us| - 1] + [last];
      Put(ArrayColumn(us[..|us| - 1]), last.id, last.username)
  }

  /** The value kept for an id is the username of the last row with that id. */
  lemma {:induction false} ArrayColumnLastWins(us: seq<User>)
    ensures forall i :: 0 <= i < |us| && (forall j :: i < j < |us| ==> us[j].id != us[i].id) ==>
      (us[i].id, us[i].username) in ArrayColumn(us)
  {
    if us != [] {
      var init, last := us[..|us| - 1], us[|us| - 1];
      ArrayColumnLastWins(init);
      var before := ArrayColumn(init);
      assert ArrayColumn(us) == Put(before, last.id, last.username);
      PutKeepsOthers(before, last.id, last.username);
      forall i | 0 <= i < |us| && (forall j :: i < j < |us| ==> us[j].id != us[i].id)
        ensures (us[i].id, us[i].username) in ArrayColumn(us)
      {
        if i < |us| - 1 {
          assert init[i] == us[i];
          forall j | i < j < |init| ensures init[j].id != init[i].id {
            assert init[j] == us[j];
          }
          assert (us[i].id, us[i].username) in before;
        }
      }
    }
  }

  /** getList: the executors of task `t` as an id => username dictionary. */
  function GetList(rows: seq<Row>, users: UserTable, t: TaskId): (d: Dict)
    ensures UniqueKeys(d)
    ensures KeySet(d) == ListedIds(rows, users, t)
    ensures forall p :: p in d ==> p.0 in users && p.1 == users[p.0].username
  {
    var us := GetUsersByTask(rows, users, t);
    var d := ArrayColumn(us);
    assert KeySet(d) == ListedIds(rows, users, t) by {
      forall u | u in ListedIds(rows, users, t) ensures u in KeySet(d) {
        assert AsUser(u, users) in us;
      }
    }
    d
  }

  /** A joined user row of the bulk query, with the `task_id` column it was selected for. */
  datatype TaskUser = TaskUser(id: UserId, username: string, name: string, task: TaskId)

  /** The users of `us`, each tagged with task `t`. */
  function Annotate(us: seq<User>, t: TaskId): (r: seq<TaskUser>)
    ensures |r| == |us|
  {
    seq(|us|, i requires 0 <= i < |us| => TaskUser(us[i].id, us[i].username, us[i].name, t))
  }

  /** The unsorted result of the bulk join: every row whose task is one of `ids` and whose user exists. */
  function JoinTasks(rows: seq<Row>, users: UserTable, ids: seq<TaskId>): (r: seq<TaskUser>)
  {
    if rows == [] then []
    else
      var last := rows[|rows| - 1];
      JoinTasks(rows[..|rows| - 1], users, ids)
        + (if last.task in ids && last.user in users
           then [TaskUser(last.user, users[last.user].username, users[last.user].name, last.task)]
           else [])
  }

  predicate SortedByUsername(s: seq<TaskUser>)
  {
    forall i, j :: 0 <= i < j < |s| ==> LexLe(s[i].username, s[j].username)
  }

  /**
   * Places `x` before the first element it sorts at or before, so `x` goes
   * ahead of every element with the same username.
   */
  function InsertByUsername(x: TaskUser, s: seq<TaskUser>): (r: seq<TaskUser>)
    ensures multiset(r) == multiset(s) + multiset{x}
  {
    if s == [] then [x]
    else if LexLe(x.username, s[0].username) then [x] + s
    else
      assert s == [s[0]] + s[1..];
      [s[0]] + InsertByUsername(x, s[1..])
  }

  /**
   * ORDER BY username ASC, as a stable insertion sort: each element is
   * inserted ahead of the already sorted later ones with the same username,
   * so rows with equal usernames keep their relative order.
   */
  function SortByUsername(s: seq<TaskUser>): (r: seq<TaskUser>)
    ensures multiset(r) == multiset(s)
  {
    if s == [] then []
    else
      assert s == [s[0]] + s[1..];
      InsertByUsername(s[0], SortByUsername(s[1..]))
  }

  /** The elements of `s` selected for task `k`, in the order of `s`. */
  function FilterTask(s: seq<TaskUser>, k: TaskId): (r: seq<TaskUser>)
    ensures forall x :: x in r <==> x in s && x.task == k
  {
    if s == [] then []
    else
      var last := s[|s| - 1];
      assert s == s[..|s| - 1] + [last];
      FilterTask(s[..|s| - 1], k) + (if last.task == k then [last] else [])
  }

  /** Selecting the rows of one task keeps each of them as often as it occurs. */
  lemma {:induction false} FilterTaskCount(s: seq<TaskUser>, k: TaskId)
    ensures forall x :: multiset(FilterTask(s, k))[x] == if x.task == k then multiset(s)[x] else 0
  {
    if s != [] {
      var init, last := s[..|s| - 1], s[|s| - 1];
      assert s == init + [last];
      FilterTaskCount(init, k);
    }
  }

  function Tasks(s: seq<TaskUser>): set<TaskId>
  {
    set x | x in s :: x.task
  }

  /** array_column_index($users, 'task_id'): the rows grouped under their task id, each group in row order. */
  function GroupByTask(s: seq<TaskUser>): (m: map<TaskId, seq<TaskUser>>)
    ensures m.Keys == Tasks(s)
  {
    if s == [] then map[]
    else
      var init, last := s[..|s| - 1], s[|s| - 1];
      var m := GroupByTask(init);
      assert s == init + [last];
      assert Tasks(s) == Tasks(init) + {last.task};
      m[last.task := (if last.task in m then m[last.task] else []) + [last]]
  }

  /** No rows of task `k` are selected exactly when no row belongs to it. */
  lemma FilterTaskEmpty(s: seq<TaskUser>, k: TaskId)
    ensures FilterTask(s, k) == [] <==> k !in Tasks(s)
  {
    var f := FilterTask(s, k);
    if f != [] {
      assert f[0] in f;
    }
  }

  /** Each group of array_column_index holds the rows of its task, in row order. */
  lemma {:induction false} GroupByTaskFilter(s: seq<TaskUser>, k: TaskId)
    requires k in GroupByTask(s)
    ensures GroupByTask(s)[k] == FilterTask(s, k)
  {
    var init, last := s[..|s| - 1], s[|s| - 1];
    if k in GroupByTask(init) {
      GroupByTaskFilter(init, k);
    } else if k == last.task {
      FilterTaskEmpty(init, k);
    }
  }

  /**
   * getUsersByTaskIds: for an empty list, no query and an empty result;
   * otherwise the joined rows of the listed tasks sorted by username and
   * grouped by task id.
   */
  function GetUsersByTaskIds(rows: seq<Row>, users: UserTable, ids: seq<TaskId>): (m: map<TaskId, seq<TaskUser>>)
    ensures ids == [] ==> m == map[]
  {
    if ids == [] then map[]
    else GroupByTask(SortByUsername(JoinTasks(rows, users, ids)))
  }

  // ---------------------------------------------------------------------
  // Sorting

  /** A row that sorts at or before every row of a sorted list can go in front of it. */
  lemma ConsSorted(x: TaskUser, s: seq<TaskUser>)
    requires SortedByUsername(s)
    requires forall y | y in s :: LexLe(x.username, y.username)
    ensures SortedByUsername([x] + s)
  {
    var r := [x] + s;
    forall i, j | 0 <= i < j < |r| ensures LexLe(r[i].username, r[j].username) {
      if i > 0 {
        assert r[i] == s[i - 1] && r[j] == s[j - 1];
      } else {
        assert r[j] in s;
      }
    }
  }

  lemma {:induction false} InsertByUsernameSorted(x: TaskUser, s: seq<TaskUser>)
    requires SortedByUsername(s)
    ensures SortedByUsername(InsertByUsername(x, s))
  {
    if s == [] {
    } else if LexLe(x.username, s[0].username) {
      forall y | y in s ensures LexLe(x.username, y.username) {
        var j :| 0 <= j < |s| && s[j] == y;
        if j > 0 {
          LexLeTransitive(x.username, s[0].username, s[j].username);
        }
      }
      ConsSorted(x, s);
    } else {
      LexLeTotal(x.username, s[0].username);
      var rest := InsertByUsername(x, s[1..]);
      assert SortedByUsername(rest) by {
        InsertByUsernameSorted(x, s[1..]);
      }
      forall y | y in rest ensures LexLe(s[0].username, y.username) {
        assert y in multiset(rest);
        if y != x {
          assert y in s[1..];
        }
      }
      ConsSorted(s[0], rest);
    }
  }

  lemma {:induction false} SortByUsernameSorted(s: seq<TaskUser>)
    ensures SortedByUsername(SortByUsername(s))
  {
    if s != [] {
      SortByUsernameSorted(s[1..]);
      InsertByUsernameSorted(s[0], SortByUsername(s[1..]));
    }
  }

  /** Each group of a sorted sequence keeps the order. */
  lemma {:induction false} FilterTaskSorted(s: seq<TaskUser>, k: TaskId)
    requires SortedByUsername(s)
    ensures SortedByUsername(FilterTask(s, k))
  {
    if s != [] {
      var init, last := s[..|s| - 1], s[|s| - 1];
      assert SortedByUsername(init);
      FilterTaskSorted(init, k);
      if last.task == k {
        var f := FilterTask(init, k);
        var r := f + [last];
        forall i, j | 0 <= i < j < |r| ensures LexLe(r[i].username, r[j].username) {
          if j == |f| {
            assert r[i] in multiset(f);
            var n :| 0 <= n < |init| && init[n] == r[i];
            assert s[n] == r[i] && s[|s| - 1] == last;
          } else {
            assert r[i] == f[i] && r[j] == f[j];
          }
        }
      }
    }
  }

  // ---------------------------------------------------------------------
  // Grouping against the single-task query

  lemma {:induction false} FilterTaskAppend(a: seq<TaskUser>, b: seq<TaskUser>, k: TaskId)
    ensures FilterTask(a + b, k) == FilterTask(a, k) + FilterTask(b, k)
  {
    if b == [] {
      assert a + b == a;
    } else {
      var init, last := b[..|b| - 1], b[|b| - 1];
      var tail := if last.task == k then [last] else [];
      assert (a + b)[..|a + b| - 1] == a + init && (a + b)[|a + b| - 1] == last;
      assert FilterTask(a + b, k) == FilterTask(a + init, k) + tail;
      assert FilterTask(b, k) == FilterTask(init, k) + tail;
      FilterTaskAppend(a, init, k);
    }
  }

  lemma AnnotateAppend(a: seq<User>, b: seq<User>, t: TaskId)
    ensures Annotate(a + b, t) == Annotate(a, t) + Annotate(b, t)
  {
  }

  /** For a requested task, its rows of the bulk join are exactly the single-task join, tagged with its id. */
  lemma {:induction false} JoinTasksFilter(rows: seq<Row>, users: UserTable, ids: seq<TaskId>, k: TaskId)
    ensures k in ids ==> FilterTask(JoinTasks(rows, users, ids), k) == Annotate(GetUsersByTask(rows, users, k), k)
    ensures k !in ids ==> FilterTask(JoinTasks(rows, users, ids), k) == []
  {
    if rows != [] {
      var init, last := rows[..|rows| - 1], rows[|rows| - 1];
      var joined := JoinTasks(init, users, ids);
      var single := GetUsersByTask(init, users, k);
      var added := if last.task in ids && last.user in users
        then [TaskUser(last.user, users[last.user].username, users[last.user].name, last.task)]
        else [];
      var addedUser := if last.task == k && last.user in users then [AsUser(last.user, users)] else [];
      var addedHere := if added != [] && last.task == k then added else [];
      assert FilterTask(JoinTasks(rows, users, ids), k) == FilterTask(joined, k) + addedHere by {
        assert JoinTasks(rows, users, ids) == joined + added;
        FilterTaskAppend(joined, added, k);
        if added != [] {
          assert added[..0] == [];
        }
      }
      assert Annotate(GetUsersByTask(rows, users, k), k) == Annotate(single, k) + Annotate(addedUser, k) by {
        assert GetUsersByTask(rows, users, k) == single + addedUser;
        AnnotateAppend(single, addedUser, k);
      }
      JoinTasksFilter(init, users, ids, k);
    }
  }

  /** Sorting keeps, for every task, the same rows. */
  lemma SortKeepsGroups(joined: seq<TaskUser>, k: TaskId)
    ensures multiset(FilterTask(SortByUsername(joined), k)) == multiset(FilterTask(joined, k))
    ensures k in Tasks(SortByUsername(joined)) <==> k in Tasks(joined)
  {
    var sorted := SortByUsername(joined);
    assert multiset(sorted) == multiset(joined);
    assert multiset(FilterTask(sorted, k)) == multiset(FilterTask(joined, k)) by {
      FilterTaskCount(sorted, k);
      FilterTaskCount(joined, k);
      forall x ensures multiset(FilterTask(sorted, k))[x] == multiset(FilterTask(joined, k))[x] {
      }
    }
    assert k in Tasks(sorted) ==> k in Tasks(joined) by {
      if k in Tasks(sorted) {
        var x :| x in sorted && x.task == k;
        assert x in multiset(joined);
      }
    }
    assert k in Tasks(joined) ==> k in Tasks(sorted) by {
      if k in Tasks(joined) {
        var x :| x in joined && x.task == k;
        assert x in multiset(sorted);
      }
    }
  }

  /** A requested task has a group exactly when the single-task query finds an executor for it. */
  lemma JoinTasksHas(rows: seq<Row>, users: UserTable, ids: seq<TaskId>, k: TaskId)
    ensures k in Tasks(JoinTasks(rows, users, ids)) <==> k in ids && GetUsersByTask(rows, users, k) != []
  {
    var joined := JoinTasks(rows, users, ids);
    JoinTasksFilter(rows, users, ids, k);
    FilterTaskEmpty(joined, k);
  }

  /**
   * The promises of getUsersByTaskIds: the keys are exactly the requested
   * tasks that have at least one executor (a task with none is absent, not an
   * empty group); each group is that task's executors, tagged with its id, in
   * ascending username order.
   */
  lemma GetUsersByTaskIdsSpec(rows: seq<Row>, users: UserTable, ids: seq<TaskId>)
    ensures var m := GetUsersByTaskIds(rows, users, ids);
      && (forall k :: k in m <==> k in ids && GetUsersByTask(rows, users, k) != [])
      && (forall k :: k in m ==> SortedByUsername(m[k]))
      && (forall k :: k in m ==> multiset(m[k]) == multiset(Annotate(GetUsersByTask(rows, users, k), k)))
  {
    var m := GetUsersByTaskIds(rows, users, ids);
    if ids != [] {
      var joined := JoinTasks(rows, users, ids);
      var sorted := SortByUsername(joined);
      assert m == GroupByTask(sorted);
      forall k ensures k in m <==> k in ids && GetUsersByTask(rows, users, k) != [] {
        SortKeepsGroups(joined, k);
        JoinTasksHas(rows, users, ids, k);
      }
      forall k | k in m
        ensures SortedByUsername(m[k])
        ensures multiset(m[k]) == multiset(Annotate(GetUsersByTask(rows, users, k), k))
      {
        SortByUsernameSorted(joined);
        FilterTaskSorted(sorted, k);
        GroupByTaskFilter(sorted, k);
        SortKeepsGroups(joined, k);
        JoinTasksHas(rows, users, ids, k);
        JoinTasksFilter(rows, users, ids, k);
      }
    }
  }
}

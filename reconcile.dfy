/*
 * The write plan of `save`: which single-row inserts and deletes the
 * associate and dissociate phases attempt, in which order, and what the
 * relation looks like after any prefix of them has been applied.
 */
module Reconcile {
  import opened Relation
  import opened Queries

  /** array_filter($users): the desired ids without the falsy placeholder 0, in their order. */
  function NonZero(xs: seq<UserId>): (r: seq<UserId>)
    ensures forall x :: x in r <==> x in xs && x != 0
    ensures multiset(r) == multiset(xs)[0 := 0]
  {
    if xs == [] then []
    else
      var init, last := xs[..|xs| - 1], xs[|xs| - 1];
      assert xs == init + [last];
      NonZero(init) + (if last != 0 then [last] else [])
  }

  predicate Distinct(s: seq<UserId>)
  {
    forall i, j :: 0 <= i < j < |s| ==> s[i] != s[j]
  }

  /** A single-row write on `task_has_executors`. */
  datatype Write = Insert(row: Row) | Delete(row: Row)

  /** The user ids a sequence of writes targets. */
  function Targets(ws: seq<Write>): set<UserId>
  {
    set w | w in ws :: w.row.user
  }

  /**
   * The associate phase: an insert for each desired id (in order, repeats
   * included) that is not a key of the dictionary read before the loop.
   */
  function Inserts(t: TaskId, current: set<UserId>, desired: seq<UserId>): seq<Write>
  {
    if desired == [] then []
    else
      var init, last := desired[..|desired| - 1], desired[|desired| - 1];
      Inserts(t, current, init) + (if last !in current then [Insert(Row(t, last))] else [])
  }

  /**
   * The associate phase inserts rows of task `t` only, each for a desired id
   * that is not current, and every desired id that is not current gets one.
   */
  lemma {:induction false} InsertsTargets(t: TaskId, current: set<UserId>, desired: seq<UserId>)
    ensures var ws := Inserts(t, current, desired);
      && |ws| <= |desired|
      && (forall w :: w in ws ==> w.Insert? && w.row.task == t && w.row.user in desired && w.row.user !in current)
      && (forall u :: u in desired && u !in current ==> Insert(Row(t, u)) in ws)
  {
    if desired != [] {
      var init, last := desired[..|desired| - 1], desired[|desired| - 1];
      assert desired == init + [last];
      InsertsTargets(t, current, init);
    }
  }

  /**
   * The dissociate phase: a delete for each key of the dictionary read before
   * the associate phase (in dictionary order) that is not among the desired ids.
   */
  function Deletes(t: TaskId, current: Dict, desired: seq<UserId>): seq<Write>
  {
    if current == [] then []
    else
      var init, last := current[..|current| - 1], current[|current| - 1];
      Deletes(t, init, desired) + (if last.0 !in desired then [Delete(Row(t, last.0))] else [])
  }

  /**
   * The dissociate phase deletes rows of task `t` only, each for a current id
   * that is not desired, and every current id that is not desired gets one.
   */
  lemma {:induction false} DeletesTargets(t: TaskId, current: Dict, desired: seq<UserId>)
    ensures var ws := Deletes(t, current, desired);
      && |ws| <= |current|
      && (forall w :: w in ws ==> w.Delete? && w.row.task == t && w.row.user in KeySet(current) && w.row.user !in desired)
      && (forall u :: u in KeySet(current) && u !in desired ==> Delete(Row(t, u)) in ws)
  {
    if current != [] {
      var init, last := current[..|current| - 1], current[|current| - 1];
      assert current == init + [last];
      assert KeySet(current) == KeySet(init) + {last.0};
      DeletesTargets(t, init, desired);
    }
  }

  /** Every write `save` attempts when none fails, in order. */
  function Plan(t: TaskId, current: Dict, desired: seq<UserId>): seq<Write>
  {
    Inserts(t, KeySet(current), desired) + Deletes(t, current, desired)
  }

  /** The plan of `save(t, desired)` against the relation as it stands. */
  function SavePlan(rows: seq<Row>, users: UserTable, t: TaskId, desired: seq<UserId>): seq<Write>
  {
    Plan(t, GetList(rows, users, t), NonZero(desired))
  }

  /** DELETE ... WHERE task_id = ? AND user_id = ?: every copy of the row goes. */
  function Without(rows: seq<Row>, r: Row): (s: seq<Row>)
    ensures forall x :: x in s <==> x in rows && x != r
    ensures multiset(s) == multiset(rows)[r := 0]
  {
    if rows == [] then []
    else
      var init, last := rows[..|rows| - 1], rows[|rows| - 1];
      assert rows == init + [last];
      Without(init, r) + (if last != r then [last] else [])
  }

  /** Deleting a row of task `t` keeps the rows of every other task, in order. */
  lemma {:induction false} WithoutFrame(rows: seq<Row>, r: Row)
    ensures OtherTasks(Without(rows, r), r.task) == OtherTasks(rows, r.task)
  {
    if rows != [] {
      var t := r.task;
      var init, last := rows[..|rows| - 1], rows[|rows| - 1];
      var w := Without(init, r);
      var keep := if last.task != t then [last] else [];
      assert OtherTasks(rows, t) == OtherTasks(init, t) + keep;
      WithoutFrame(init, r);
      if last != r {
        var s := w + [last];
        assert Without(rows, r) == s;
        assert s[..|s| - 1] == w && s[|s| - 1] == last;
        assert OtherTasks(s, t) == OtherTasks(w, t) + keep;
      } else {
        assert Without(rows, r) == w;
      }
    }
  }

  /** The relation after one successful write. */
  function Apply(rows: seq<Row>, w: Write): seq<Row>
  {
    match w
    case Insert(r) => rows + [r]
    case Delete(r) => Without(rows, r)
  }

  /** The relation after a sequence of successful writes, applied in order. */
  function ApplyAll(rows: seq<Row>, ws: seq<Write>): seq<Row>
  {
    if ws == [] then rows
    else Apply(ApplyAll(rows, ws[..|ws| - 1]), ws[|ws| - 1])
  }

  // ---------------------------------------------------------------------
  // Plans split along their inputs

  lemma {:induction false} InsertsAppend(t: TaskId, current: set<UserId>, a: seq<UserId>, b: seq<UserId>)
    ensures Inserts(t, current, a + b) == Inserts(t, current, a) + Inserts(t, current, b)
  {
    if b == [] {
      assert a + b == a;
    } else {
      var init, last := b[..|b| - 1], b[|b| - 1];
      assert (a + b)[..|a + b| - 1] == a + init && (a + b)[|a + b| - 1] == last;
      InsertsAppend(t, current, a, init);
    }
  }

  lemma {:induction false} DeletesAppend(t: TaskId, a: Dict, b: Dict, desired: seq<UserId>)
    ensures Deletes(t, a + b, desired) == Deletes(t, a, desired) + Deletes(t, b, desired)
  {
    if b == [] {
      assert a + b == a;
    } else {
      var init, last := b[..|b| - 1], b[|b| - 1];
      assert (a + b)[..|a + b| - 1] == a + init && (a + b)[|a + b| - 1] == last;
      DeletesAppend(t, a, init, desired);
    }
  }

  lemma {:induction false} ApplyAllAppend(rows: seq<Row>, a: seq<Write>, b: seq<Write>)
    ensures ApplyAll(rows, a + b) == ApplyAll(ApplyAll(rows, a), b)
  {
    if b == [] {
      assert a + b == a;
    } else {
      var init, last := b[..|b| - 1], b[|b| - 1];
      assert (a + b)[..|a + b| - 1] == a + init && (a + b)[|a + b| - 1] == last;
      ApplyAllAppend(rows, a, init);
    }
  }

  /**
   * Running a first phase `a` in full and then a prefix of a second phase `b`
   * is running that much of the joined plan.
   */
  lemma PhasesPrefix(rows: seq<Row>, a: seq<Write>, b: seq<Write>, k: nat)
    requires k <= |b|
    ensures (a + b)[..|a| + k] == a + b[..k]
    ensures ApplyAll(ApplyAll(rows, a), b[..k]) == ApplyAll(rows, (a + b)[..|a| + k])
  {
    assert (a + b)[..|a| + k] == a + b[..k];
    ApplyAllAppend(rows, a, b[..k]);
  }

  /** One more write applied after a sequence of them. */
  lemma ApplyAllSnoc(rows: seq<Row>, ws: seq<Write>, w: Write)
    ensures ApplyAll(rows, ws + [w]) == Apply(ApplyAll(rows, ws), w)
  {
    assert (ws + [w])[..|ws|] == ws;
  }

  /** The associate phase, one desired id further. */
  lemma InsertsStep(t: TaskId, current: set<UserId>, us: seq<UserId>, i: nat)
    requires i < |us|
    ensures Inserts(t, current, us[..i + 1])
         == Inserts(t, current, us[..i]) + (if us[i] !in current then [Insert(Row(t, us[i]))] else [])
  {
    assert us[..i + 1][..i] == us[..i];
  }

  /** An insert refused at position `i` leaves the plan's remaining inserts undone. */
  lemma InsertsStop(t: TaskId, current: set<UserId>, us: seq<UserId>, i: nat)
    requires i < |us| && us[i] !in current
    ensures var done := Inserts(t, current, us[..i]);
      |done| < |Inserts(t, current, us)| && Inserts(t, current, us)[..|done|] == done
  {
    InsertsAppend(t, current, us[..i], us[i..]);
    assert us[..i] + us[i..] == us;
    assert us[i] in us[i..];
    InsertsTargets(t, current, us[i..]);
    var done, rest := Inserts(t, current, us[..i]), Inserts(t, current, us[i..]);
    assert Insert(Row(t, us[i])) in rest;
    assert (done + rest)[..|done|] == done;
  }

  /** The dissociate phase, one dictionary entry further. */
  lemma DeletesStep(t: TaskId, current: Dict, desired: seq<UserId>, i: nat)
    requires i < |current|
    ensures Deletes(t, current[..i + 1], desired)
         == Deletes(t, current[..i], desired) + (if current[i].0 !in desired then [Delete(Row(t, current[i].0))] else [])
  {
    assert current[..i + 1][..i] == current[..i];
  }

  /** A delete failing at entry `i` leaves the plan's remaining deletes undone. */
  lemma DeletesStop(t: TaskId, current: Dict, desired: seq<UserId>, i: nat)
    requires i < |current| && current[i].0 !in desired
    ensures var done := Deletes(t, current[..i], desired);
      |done| < |Deletes(t, current, desired)| && Deletes(t, current, desired)[..|done|] == done
  {
    DeletesAppend(t, current[..i], current[i..], desired);
    assert current[..i] + current[i..] == current;
    assert current[i..][0] == current[i];
    assert current[i].0 in KeySet(current[i..]);
    DeletesTargets(t, current[i..], desired);
    var done, rest := Deletes(t, current[..i], desired), Deletes(t, current[i..], desired);
    assert Delete(Row(t, current[i].0)) in rest;
    assert (done + rest)[..|done|] == done;
  }

  // ---------------------------------------------------------------------
  // How many writes

  /**
   * Each desired id missing from the current set is inserted once per
   * occurrence in the desired list; a present one never.
   */
  lemma {:induction false} InsertsPerUser(t: TaskId, current: set<UserId>, desired: seq<UserId>, u: UserId)
    ensures multiset(Inserts(t, current, desired))[Insert(Row(t, u))] == if u in current then 0 else multiset(desired)[u]
  {
    if desired != [] {
      var init, last := desired[..|desired| - 1], desired[|desired| - 1];
      assert desired == init + [last];
      InsertsPerUser(t, current, init, u);
    }
  }

  /** Dropping the last id of a list without repeats leaves a list without repeats that lacks it. */
  lemma DistinctInit(s: seq<UserId>)
    requires s != [] && Distinct(s)
    ensures Distinct(s[..|s| - 1])
    ensures Elems(s) == Elems(s[..|s| - 1]) + {s[|s| - 1]}
    ensures s[|s| - 1] !in Elems(s[..|s| - 1])
  {
    var init, last := s[..|s| - 1], s[|s| - 1];
    assert s == init + [last];
    forall i | 0 <= i < |init| ensures init[i] != last {
      assert init[i] == s[i];
    }
  }

  /** Without repeats in the desired list, the associate phase makes |D \ C| inserts. */
  lemma {:induction false} InsertsCount(t: TaskId, current: set<UserId>, desired: seq<UserId>)
    requires Distinct(desired)
    ensures |Inserts(t, current, desired)| == |Elems(desired) - current|
  {
    if desired == [] {
      assert Elems(desired) == {};
    } else {
      var init, last := desired[..|desired| - 1], desired[|desired| - 1];
      DistinctInit(desired);
      InsertsCount(t, current, init);
      var missing := Elems(init) - current;
      if last !in current {
        assert Elems(desired) - current == missing + {last};
      } else {
        assert Elems(desired) - current == missing;
      }
    }
  }

  /** Dropping the last entry of a dictionary with unique keys leaves unique keys without that key. */
  lemma UniqueKeysInit(d: Dict)
    requires d != [] && UniqueKeys(d)
    ensures UniqueKeys(d[..|d| - 1])
    ensures d[|d| - 1].0 !in KeySet(d[..|d| - 1])
    ensures KeySet(d) == KeySet(d[..|d| - 1]) + {d[|d| - 1].0}
  {
    var init, last := d[..|d| - 1], d[|d| - 1];
    assert d == init + [last];
    forall p | p in init ensures p.0 != last.0 {
      var i :| 0 <= i < |init| && init[i] == p;
      assert d[i] == p;
    }
  }

  /** The dissociate phase makes |C \ D| deletes, one per stale executor. */
  lemma {:induction false} DeletesCount(t: TaskId, current: Dict, desired: seq<UserId>)
    requires UniqueKeys(current)
    ensures |Deletes(t, current, desired)| == |KeySet(current) - Elems(desired)|
  {
    if current == [] {
      assert KeySet(current) == {};
    } else {
      var init, last := current[..|current| - 1], current[|current| - 1];
      UniqueKeysInit(current);
      DeletesCount(t, init, desired);
      var stale := KeySet(init) - Elems(desired);
      if last.0 !in desired {
        assert Deletes(t, current, desired) == Deletes(t, init, desired) + [Delete(Row(t, last.0))];
        assert KeySet(current) - Elems(desired) == stale + {last.0};
        assert last.0 !in stale;
      } else {
        assert Deletes(t, current, desired) == Deletes(t, init, desired);
        assert KeySet(current) - Elems(desired) == stale;
      }
    }
  }

  /** No insert is planned when every desired id is already current. */
  lemma {:induction false} InsertsNone(t: TaskId, current: set<UserId>, desired: seq<UserId>)
    requires Elems(desired) <= current
    ensures Inserts(t, current, desired) == []
  {
    if desired != [] {
      var init := desired[..|desired| - 1];
      assert Elems(init) <= Elems(desired);
      InsertsNone(t, current, init);
    }
  }

  /** No delete is planned when every current id is desired. */
  lemma {:induction false} DeletesNone(t: TaskId, current: Dict, desired: seq<UserId>)
    requires KeySet(current) <= Elems(desired)
    ensures Deletes(t, current, desired) == []
  {
    if current != [] {
      var init, last := current[..|current| - 1], current[|current| - 1];
      assert KeySet(current) == KeySet(init) + {last.0} by {
        assert current == init + [last];
      }
      DeletesNone(t, init, desired);
    }
  }

  /** Reconciling to the set already stored plans no write at all, and only then. */
  lemma PlanEmptyIff(t: TaskId, current: Dict, desired: seq<UserId>)
    ensures Plan(t, current, desired) == [] <==> Elems(desired) == KeySet(current)
  {
    var ins, del := Inserts(t, KeySet(current), desired), Deletes(t, current, desired);
    InsertsTargets(t, KeySet(current), desired);
    DeletesTargets(t, current, desired);
    forall u | u in Elems(desired) - KeySet(current) ensures Insert(Row(t, u)) in ins {
    }
    forall u | u in KeySet(current) - Elems(desired) ensures Delete(Row(t, u)) in del {
    }
    if ins == [] && del == [] {
      forall u | u in Elems(desired) ensures u in KeySet(current) {
      }
      forall u | u in KeySet(current) ensures u in Elems(desired) {
      }
    }
    if Elems(desired) == KeySet(current) {
      InsertsNone(t, KeySet(current), desired);
      DeletesNone(t, current, desired);
    }
  }

  // ---------------------------------------------------------------------
  // What applying writes does to the relation

  /** A row appears only through an insert of it and disappears only through a delete of it. */
  lemma {:induction false} ApplyAllChanges(rows: seq<Row>, ws: seq<Write>)
    ensures forall r :: r in ApplyAll(rows, ws) && r !in rows ==> Insert(r) in ws
    ensures forall r :: r in rows && r !in ApplyAll(rows, ws) ==> Delete(r) in ws
  {
    if ws != [] {
      var init, last := ws[..|ws| - 1], ws[|ws| - 1];
      assert ws == init + [last];
      ApplyAllChanges(rows, init);
    }
  }

  /** Writes that all concern task `t` leave every other task's rows as they were, in order. */
  lemma {:induction false} ApplyAllFrame(rows: seq<Row>, ws: seq<Write>, t: TaskId)
    requires forall w :: w in ws ==> w.row.task == t
    ensures OtherTasks(ApplyAll(rows, ws), t) == OtherTasks(rows, t)
  {
    if ws != [] {
      var init, last := ws[..|ws| - 1], ws[|ws| - 1];
      assert ws == init + [last];
      ApplyAllFrame(rows, init, t);
      var before := ApplyAll(rows, init);
      if last.Insert? {
        var after := before + [last.row];
        assert after[..|after| - 1] == before;
      } else {
        WithoutFrame(before, last.row);
      }
    }
  }

  /** Inserts of task `t` add their users to the task and nothing else. */
  lemma {:induction false} ApplyInserts(rows: seq<Row>, ws: seq<Write>, t: TaskId)
    requires forall w :: w in ws ==> w.Insert? && w.row.task == t
    ensures TaskUserIds(ApplyAll(rows, ws), t) == TaskUserIds(rows, t) + Targets(ws)
  {
    if ws == [] {
      assert Targets(ws) == {};
    } else {
      var init, last := ws[..|ws| - 1], ws[|ws| - 1];
      assert ws == init + [last];
      assert Targets(ws) == Targets(init) + {last.row.user};
      ApplyInserts(rows, init, t);
      var before := ApplyAll(rows, init);
      assert TaskUserIds(before + [last.row], t) == TaskUserIds(before, t) + {last.row.user};
    }
  }

  /** A delete of a row of task `t` removes exactly its user from the task. */
  lemma WithoutTaskUsers(rows: seq<Row>, r: Row)
    ensures TaskUserIds(Without(rows, r), r.task) == TaskUserIds(rows, r.task) - {r.user}
  {
  }

  /** Deletes of task `t` remove their users from the task and nothing else. */
  lemma {:induction false} ApplyDeletes(rows: seq<Row>, ws: seq<Write>, t: TaskId)
    requires forall w :: w in ws ==> w.Delete? && w.row.task == t
    ensures TaskUserIds(ApplyAll(rows, ws), t) == TaskUserIds(rows, t) - Targets(ws)
  {
    if ws == [] {
      assert Targets(ws) == {};
    } else {
      var init, last := ws[..|ws| - 1], ws[|ws| - 1];
      assert ws == init + [last];
      assert Targets(ws) == Targets(init) + {last.row.user};
      ApplyDeletes(rows, init, t);
      WithoutTaskUsers(ApplyAll(rows, init), last.row);
    }
  }

  /** Inserts only append: the relation before them is a prefix of the one after. */
  lemma {:induction false} ApplyInsertsExtends(rows: seq<Row>, ws: seq<Write>)
    requires forall w :: w in ws ==> w.Insert?
    ensures rows <= ApplyAll(rows, ws)
  {
    if ws != [] {
      var init := ws[..|ws| - 1];
      assert forall w :: w in init ==> w in ws;
      ApplyInsertsExtends(rows, init);
    }
  }

  lemma ListedIdsIsJoin(rows: seq<Row>, users: UserTable, t: TaskId)
    ensures ListedIds(rows, users, t) == TaskUserIds(rows, t) * users.Keys
  {
  }

  // ---------------------------------------------------------------------
  // The promises of save

  /**
   * After any prefix of a plan, the relation differs from the one the plan
   * was made against only in rows of task `t`: an added row is a wanted id
   * that was not current, a removed row a current id that is not wanted.
   */
  lemma PlanPrefixChanges(rows: seq<Row>, t: TaskId, current: Dict, wanted: seq<UserId>, k: nat)
    requires k <= |Plan(t, current, wanted)|
    ensures var after := ApplyAll(rows, Plan(t, current, wanted)[..k]);
      && (forall r :: r in after && r !in rows ==> r.task == t && r.user in wanted && r.user !in KeySet(current))
      && (forall r :: r in rows && r !in after ==> r.task == t && r.user in KeySet(current) && r.user !in wanted)
      && OtherTasks(after, t) == OtherTasks(rows, t)
  {
    var ins, del := Inserts(t, KeySet(current), wanted), Deletes(t, current, wanted);
    var plan := ins + del;
    var done := plan[..k];
    InsertsTargets(t, KeySet(current), wanted);
    DeletesTargets(t, current, wanted);
    assert forall w :: w in done ==> w in plan;
    ApplyAllChanges(rows, done);
    ApplyAllFrame(rows, done, t);
  }

  /**
   * Whatever prefix of the plan has gone through before a write failed, the
   * relation differs from the one read only in rows of task `t`: an added row
   * is a desired, non-zero user id that was not an executor; a removed row is
   * an executor that is not desired (or is the placeholder 0, which the filter
   * drops even from the desired list). Other tasks keep their rows.
   */
  lemma SaveWritesOnlyTheDifference(rows: seq<Row>, users: UserTable, t: TaskId, desired: seq<UserId>, k: nat)
    requires k <= |SavePlan(rows, users, t, desired)|
    ensures var after := ApplyAll(rows, SavePlan(rows, users, t, desired)[..k]);
      && (forall r :: r in after && r !in rows ==>
            r.task == t && r.user != 0 && r.user in desired && r.user !in ListedIds(rows, users, t))
      && (forall r :: r in rows && r !in after ==>
            r.task == t && r.user in ListedIds(rows, users, t) && (r.user !in desired || r.user == 0))
      && OtherTasks(after, t) == OtherTasks(rows, t)
  {
    PlanPrefixChanges(rows, t, GetList(rows, users, t), NonZero(desired), k);
  }

  /**
   * A save that stops during its associate phase (after `k` of its inserts)
   * never reached the dissociate phase: every row read is still there, in
   * place, and the new rows follow them.
   */
  lemma AssociateFailureRemovesNothing(rows: seq<Row>, users: UserTable, t: TaskId, desired: seq<UserId>, k: nat)
    requires k <= |Inserts(t, KeySet(GetList(rows, users, t)), NonZero(desired))|
    ensures rows <= ApplyAll(rows, SavePlan(rows, users, t, desired)[..k])
  {
    var ins := Inserts(t, KeySet(GetList(rows, users, t)), NonZero(desired));
    var del := Deletes(t, GetList(rows, users, t), NonZero(desired));
    InsertsTargets(t, KeySet(GetList(rows, users, t)), NonZero(desired));
    assert (ins + del)[..k] == ins[..k];
    assert forall w :: w in ins[..k] ==> w in ins;
    ApplyInsertsExtends(rows, ins[..k]);
  }

  /** No user is an executor of task `t` twice: `(task_id, user_id)` is a key of the relation. */
  ghost predicate KeyedRows(rows: seq<Row>, t: TaskId)
  {
    forall u :: multiset(rows)[Row(t, u)] <= 1
  }

  /** A delete never adds a copy of any row. */
  lemma WithoutCount(rows: seq<Row>, r: Row)
    ensures forall x :: multiset(Without(rows, r))[x] <= multiset(rows)[x]
  {
  }

  /** Inserts add exactly one copy of their row each. */
  lemma {:induction false} ApplyInsertsCount(rows: seq<Row>, ws: seq<Write>)
    requires forall w :: w in ws ==> w.Insert?
    ensures forall x :: multiset(ApplyAll(rows, ws))[x] == multiset(rows)[x] + multiset(ws)[Insert(x)]
  {
    if ws != [] {
      var init, last := ws[..|ws| - 1], ws[|ws| - 1];
      assert ws == init + [last];
      assert forall w :: w in init ==> w in ws;
      ApplyInsertsCount(rows, init);
    }
  }

  /** Deletes never add a copy of any row. */
  lemma {:induction false} ApplyDeletesCount(rows: seq<Row>, ws: seq<Write>)
    requires forall w :: w in ws ==> w.Delete?
    ensures forall x :: multiset(ApplyAll(rows, ws))[x] <= multiset(rows)[x]
  {
    if ws != [] {
      var init, last := ws[..|ws| - 1], ws[|ws| - 1];
      assert last in ws;
      assert forall w :: w in init ==> w in ws;
      ApplyDeletesCount(rows, init);
      WithoutCount(ApplyAll(rows, init), last.row);
    }
  }

  /** A list without repeats holds each id at most once. */
  lemma {:induction false} DistinctCount(s: seq<UserId>, u: UserId)
    requires Distinct(s)
    ensures multiset(s)[u] <= 1
  {
    if s != [] {
      DistinctInit(s);
      var init := s[..|s| - 1];
      assert s == init + [s[|s| - 1]];
      DistinctCount(init, u);
      if u == s[|s| - 1] {
        assert u !in init;
      }
    }
  }

  /**
   * Any prefix of the associate phase keeps the key when the desired list has
   * no repeats and every executor already in the relation is current.
   */
  lemma InsertsKeepKey(rows: seq<Row>, t: TaskId, current: set<UserId>, wanted: seq<UserId>, k: nat)
    requires Distinct(wanted)
    requires KeyedRows(rows, t)
    requires TaskUserIds(rows, t) <= current
    requires k <= |Inserts(t, current, wanted)|
    ensures KeyedRows(ApplyAll(rows, Inserts(t, current, wanted)[..k]), t)
  {
    forall u ensures multiset(ApplyAll(rows, Inserts(t, current, wanted)[..k]))[Row(t, u)] <= 1 {
      InsertsKeepKeyAt(rows, t, current, wanted, k, u);
    }
  }

  /** The key argument of InsertsKeepKey for one user. */
  lemma InsertsKeepKeyAt(rows: seq<Row>, t: TaskId, current: set<UserId>, wanted: seq<UserId>, k: nat, u: UserId)
    requires Distinct(wanted)
    requires KeyedRows(rows, t)
    requires TaskUserIds(rows, t) <= current
    requires k <= |Inserts(t, current, wanted)|
    ensures multiset(ApplyAll(rows, Inserts(t, current, wanted)[..k]))[Row(t, u)] <= 1
  {
    var ins := Inserts(t, current, wanted);
    var done := ins[..k];
    var x := Row(t, u);
    assert multiset(ApplyAll(rows, done))[x] == multiset(rows)[x] + multiset(done)[Insert(x)] by {
      assert forall w :: w in done ==> w.Insert? by {
        InsertsTargets(t, current, wanted);
        assert forall w :: w in done ==> w in ins;
      }
      ApplyInsertsCount(rows, done);
    }
    assert multiset(done)[Insert(x)] <= multiset(ins)[Insert(x)] by {
      assert ins == done + ins[k..];
      assert multiset(ins) == multiset(done) + multiset(ins[k..]);
    }
    InsertsPerUser(t, current, wanted, u);
    if u !in current {
      DistinctCount(wanted, u);
      assert x !in rows;
    }
  }

  /** Deletes never break the key. */
  lemma DeletesKeepKey(rows: seq<Row>, ws: seq<Write>, t: TaskId)
    requires forall w :: w in ws ==> w.Delete?
    requires KeyedRows(rows, t)
    ensures KeyedRows(ApplyAll(rows, ws), t)
  {
    ApplyDeletesCount(rows, ws);
  }

  /** Any prefix of the dissociate phase keeps the key. */
  lemma DeletesPrefixKeepKey(rows: seq<Row>, t: TaskId, current: Dict, wanted: seq<UserId>, j: nat)
    requires KeyedRows(rows, t)
    requires j <= |Deletes(t, current, wanted)|
    ensures KeyedRows(ApplyAll(rows, Deletes(t, current, wanted)[..j]), t)
  {
    var del := Deletes(t, current, wanted);
    DeletesTargets(t, current, wanted);
    assert forall w :: w in del[..j] ==> w in del;
    DeletesKeepKey(rows, del[..j], t);
  }

  /** A property of the relation after phase `a` and part of phase `b` holds after that prefix of `a + b`. */
  lemma PhasesPrefixKeepKey(rows: seq<Row>, t: TaskId, a: seq<Write>, b: seq<Write>, j: nat)
    requires j <= |b|
    requires KeyedRows(ApplyAll(ApplyAll(rows, a), b[..j]), t)
    ensures KeyedRows(ApplyAll(rows, (a + b)[..|a| + j]), t)
  {
    PhasesPrefix(rows, a, b, j);
  }

  /** The dissociate phase, run after the whole associate phase, keeps the key. */
  lemma DeletePhaseKeepsKey(rows: seq<Row>, t: TaskId, current: Dict, wanted: seq<UserId>, j: nat)
    requires KeyedRows(ApplyAll(rows, Inserts(t, KeySet(current), wanted)), t)
    requires j <= |Deletes(t, current, wanted)|
    ensures KeyedRows(ApplyAll(rows, Plan(t, current, wanted)[..|Inserts(t, KeySet(current), wanted)| + j]), t)
  {
    var ins, del := Inserts(t, KeySet(current), wanted), Deletes(t, current, wanted);
    DeletesPrefixKeepKey(ApplyAll(rows, ins), t, current, wanted, j);
    PhasesPrefixKeepKey(rows, t, ins, del, j);
  }

  /** Stopping within the associate phase keeps the key. */
  lemma InsertPhaseKeepsKey(rows: seq<Row>, t: TaskId, current: Dict, wanted: seq<UserId>, k: nat)
    requires Distinct(wanted)
    requires KeyedRows(rows, t)
    requires TaskUserIds(rows, t) <= KeySet(current)
    requires k <= |Inserts(t, KeySet(current), wanted)|
    ensures KeyedRows(ApplyAll(rows, Plan(t, current, wanted)[..k]), t)
  {
    InsertsKeepKey(rows, t, KeySet(current), wanted, k);
    assert Plan(t, current, wanted)[..k] == Inserts(t, KeySet(current), wanted)[..k];
  }

  /** Every prefix of a plan keeps the key when every executor in the relation is current. */
  lemma PlanKeepsKey(rows: seq<Row>, t: TaskId, current: Dict, wanted: seq<UserId>, k: nat)
    requires Distinct(wanted)
    requires KeyedRows(rows, t)
    requires TaskUserIds(rows, t) <= KeySet(current)
    requires k <= |Plan(t, current, wanted)|
    ensures KeyedRows(ApplyAll(rows, Plan(t, current, wanted)[..k]), t)
  {
    var ins := Inserts(t, KeySet(current), wanted);
    if k <= |ins| {
      InsertPhaseKeepsKey(rows, t, current, wanted, k);
    } else {
      assert KeyedRows(ApplyAll(rows, ins), t) by {
        InsertsKeepKey(rows, t, KeySet(current), wanted, |ins|);
        assert ins[..|ins|] == ins;
      }
      DeletePhaseKeepsKey(rows, t, current, wanted, k - |ins|);
    }
  }

  /**
   * Save keeps `(task_id, user_id)` a key of the relation, at every point it
   * can stop, provided the filtered desired list has no repeats and every
   * executor of the task is an existing user (so the join hides none of them).
   */
  lemma SaveKeepsKey(rows: seq<Row>, users: UserTable, t: TaskId, desired: seq<UserId>, k: nat)
    requires Distinct(NonZero(desired))
    requires KeyedRows(rows, t)
    requires TaskUserIds(rows, t) <= users.Keys
    requires k <= |SavePlan(rows, users, t, desired)|
    ensures KeyedRows(ApplyAll(rows, SavePlan(rows, users, t, desired)[..k]), t)
  {
    ListedIdsIsJoin(rows, users, t);
    PlanKeepsKey(rows, t, GetList(rows, users, t), NonZero(desired), k);
  }

  /**
   * After a whole plan, task `t` has lost the current ids that are not wanted
   * and gained the wanted ids that were not current; other tasks are untouched.
   */
  lemma PlanConverges(rows: seq<Row>, t: TaskId, current: Dict, wanted: seq<UserId>)
    ensures var after := ApplyAll(rows, Plan(t, current, wanted));
      && TaskUserIds(after, t)
         == (TaskUserIds(rows, t) - (KeySet(current) - Elems(wanted))) + (Elems(wanted) - KeySet(current))
      && OtherTasks(after, t) == OtherTasks(rows, t)
  {
    var ins, del := Inserts(t, KeySet(current), wanted), Deletes(t, current, wanted);
    var mid := ApplyAll(rows, ins);
    InsertsTargets(t, KeySet(current), wanted);
    DeletesTargets(t, current, wanted);
    ApplyAllAppend(rows, ins, del);
    ApplyInserts(rows, ins, t);
    ApplyDeletes(mid, del, t);
    assert Targets(ins) == Elems(wanted) - KeySet(current) by {
      forall u | u in Elems(wanted) - KeySet(current) ensures u in Targets(ins) {
        assert Insert(Row(t, u)) in ins;
      }
    }
    assert Targets(del) == KeySet(current) - Elems(wanted) by {
      forall u | u in KeySet(current) - Elems(wanted) ensures u in Targets(del) {
        assert Delete(Row(t, u)) in del;
      }
    }
    ApplyAllFrame(rows, ins + del, t);
  }

  /**
   * When every write succeeds, the task's executors are the desired non-zero
   * ids, plus any rows whose user no longer exists (the join hides them, so
   * save never sees or deletes them); other tasks are untouched.
   */
  lemma SaveConverges(rows: seq<Row>, users: UserTable, t: TaskId, desired: seq<UserId>)
    ensures var after := ApplyAll(rows, SavePlan(rows, users, t, desired));
      && TaskUserIds(after, t) == Elems(NonZero(desired)) + (TaskUserIds(rows, t) - users.Keys)
      && ListedIds(after, users, t) == Elems(NonZero(desired)) * users.Keys
      && OtherTasks(after, t) == OtherTasks(rows, t)
  {
    var current := GetList(rows, users, t);
    var wanted := NonZero(desired);
    var after := ApplyAll(rows, Plan(t, current, wanted));
    PlanConverges(rows, t, current, wanted);
    ListedIdsIsJoin(rows, users, t);
    ListedIdsIsJoin(after, users, t);
    JoinDifference(TaskUserIds(rows, t), users.Keys, KeySet(current), Elems(wanted));
  }

  /**
   * The set algebra behind SaveConverges: when the visible ids are the raw ids
   * restricted to existing users, replacing the visible ids by `w` keeps the
   * invisible ones.
   */
  lemma JoinDifference(raw: set<UserId>, existing: set<UserId>, visible: set<UserId>, w: set<UserId>)
    requires visible == raw * existing
    ensures (raw - (visible - w)) + (w - visible) == w + (raw - existing)
    ensures (w + (raw - existing)) * existing == w * existing
  {
  }

  /**
   * Saving the same desired ids twice: the second save plans no write, as long
   * as every desired id is an existing user (an id the join cannot see would be
   * inserted again).
   */
  lemma SaveTwiceIsNoop(rows: seq<Row>, users: UserTable, t: TaskId, desired: seq<UserId>)
    requires Elems(NonZero(desired)) <= users.Keys
    ensures SavePlan(ApplyAll(rows, SavePlan(rows, users, t, desired)), users, t, desired) == []
  {
    var after := ApplyAll(rows, SavePlan(rows, users, t, desired));
    SaveConverges(rows, users, t, desired);
    PlanEmptyIff(t, GetList(after, users, t), NonZero(desired));
  }
}

/*
 * TaskExecutorModel: the write side of the executor association service.
 * The object holds the storage it talks to: the `task_has_executors`
 * relation, which its methods change one row at a time, and the users table,
 * which it only reads.
 */
module Executors {
  import opened Relation
  import opened Queries
  import opened Reconcile

  class TaskExecutorModel {
    /** The rows of `task_has_executors`, in storage order. */
    var rows: seq<Row>
    /** The users table; nothing here writes it. */
    const users: UserTable

    constructor (rows0: seq<Row>, users0: UserTable)
      ensures rows == rows0 && users == users0
    {
      rows := rows0;
      users := users0;
    }

    /**
     * associateUser: a single INSERT. The storage may refuse it (a uniqueness
     * or foreign-key constraint, a fault); a refused insert changes nothing.
     */
    method AssociateUser(t: TaskId, u: UserId) returns (ok: bool)
      modifies this
      ensures rows == if ok then Apply(old(rows), Insert(Row(t, u))) else old(rows)
    {
      ok :| true;
      if ok {
        rows := rows + [Row(t, u)];
      }
    }

    /**
     * dissociateUser: a DELETE of every row matching both the task and the
     * user. The storage may report failure, and then nothing changes.
     */
    method DissociateUser(t: TaskId, u: UserId) returns (ok: bool)
      modifies this
      ensures rows == if ok then Apply(old(rows), Delete(Row(t, u))) else old(rows)
    {
      ok :| true;
      if ok {
        rows := Without(rows, Row(t, u));
      }
    }

    /**
     * associateUsers: inserts every listed id that is not a key of
     * `taskUsers`, in list order, and stops at the first refused insert.
     * `applied` counts the inserts that went through.
     */
    method AssociateUsers(t: TaskId, taskUsers: Dict, us: seq<UserId>) returns (ok: bool, ghost applied: nat)
      modifies this
      ensures var plan := Inserts(t, KeySet(taskUsers), us);
        && applied <= |plan|
        && (ok <==> applied == |plan|)
        && rows == ApplyAll(old(rows), plan[..applied])
    {
      ghost var current := KeySet(taskUsers);
      applied := 0;
      var i := 0;
      while i < |us|
        invariant 0 <= i <= |us|
        invariant applied == |Inserts(t, current, us[..i])|
        invariant rows == ApplyAll(old(rows), Inserts(t, current, us[..i]))
      {
        var u := us[i];
        ghost var done := Inserts(t, current, us[..i]);
        if u !in KeySet(taskUsers) {
          var inserted := AssociateUser(t, u);
          if !inserted {
            InsertsStop(t, current, us, i);
            return false, applied;
          }
          assert Inserts(t, current, us[..i + 1]) == done + [Insert(Row(t, u))] by {
            InsertsStep(t, current, us, i);
          }
          ApplyAllSnoc(old(rows), done, Insert(Row(t, u)));
          applied := applied + 1;
        } else {
          assert Inserts(t, current, us[..i + 1]) == done by {
            InsertsStep(t, current, us, i);
          }
        }
        i := i + 1;
      }
      assert us[..|us|] == us;
      ghost var plan := Inserts(t, current, us);
      assert plan[..|plan|] == plan;
      return true, applied;
    }

    /**
     * dissociateUsers: deletes every key of `taskUsers` that is not among the
     * listed ids, in dictionary order, and stops at the first failed delete.
     * `applied` counts the deletes that went through.
     */
    method DissociateUsers(t: TaskId, taskUsers: Dict, us: seq<UserId>) returns (ok: bool, ghost applied: nat)
      modifies this
      ensures var plan := Deletes(t, taskUsers, us);
        && applied <= |plan|
        && (ok <==> applied == |plan|)
        && rows == ApplyAll(old(rows), plan[..applied])
    {
      applied := 0;
      var i := 0;
      while i < |taskUsers|
        invariant 0 <= i <= |taskUsers|
        invariant applied == |Deletes(t, taskUsers[..i], us)|
        invariant rows == ApplyAll(old(rows), Deletes(t, taskUsers[..i], us))
      {
        var u := taskUsers[i].0;
        ghost var done := Deletes(t, taskUsers[..i], us);
        if u !in us {
          var deleted := DissociateUser(t, u);
          if !deleted {
            DeletesStop(t, taskUsers, us, i);
            return false, applied;
          }
          assert Deletes(t, taskUsers[..i + 1], us) == done + [Delete(Row(t, u))] by {
            DeletesStep(t, taskUsers, us, i);
          }
          ApplyAllSnoc(old(rows), done, Delete(Row(t, u)));
          applied := applied + 1;
        } else {
          assert Deletes(t, taskUsers[..i + 1], us) == done by {
            DeletesStep(t, taskUsers, us, i);
          }
        }
        i := i + 1;
      }
      assert taskUsers[..|taskUsers|] == taskUsers;
      ghost var plan := Deletes(t, taskUsers, us);
      assert plan[..|plan|] == plan;
      return true, applied;
    }

    /**
     * save: reads the task's executors once, drops the placeholder 0 from the
     * desired ids and runs the two phases against what it read. The first
     * failed write ends the call with false; the writes made before it stay.
     * `applied` counts the writes that went through, so the relation
     * afterwards is the one read with that prefix of the plan applied.
     */
    method Save(t: TaskId, desired: seq<UserId>) returns (ok: bool, ghost applied: nat)
      modifies this
      ensures var plan := SavePlan(old(rows), users, t, desired);
        && applied <= |plan|
        && (ok <==> applied == |plan|)
        && rows == ApplyAll(old(rows), plan[..applied])
    {
      var taskUsers := GetList(rows, users, t);
      var wanted := NonZero(desired);
      ok, applied := RunPhases(t, taskUsers, wanted);
    }

    /**
     * The body of save once the executors are read: the associate phase and,
     * only if it fully succeeds, the dissociate phase, both against the same
     * dictionary and the same filtered list.
     */
    method RunPhases(t: TaskId, taskUsers: Dict, wanted: seq<UserId>) returns (ok: bool, ghost applied: nat)
      modifies this
      ensures var plan := Plan(t, taskUsers, wanted);
        && applied <= |plan|
        && (ok <==> applied == |plan|)
        && rows == ApplyAll(old(rows), plan[..applied])
    {
      ghost var ins, del := Inserts(t, KeySet(taskUsers), wanted), Deletes(t, taskUsers, wanted);
      var associated, inserted := AssociateUsers(t, taskUsers, wanted);
      if !associated {
        assert (ins + del)[..inserted] == ins[..inserted];
        return false, inserted;
      }
      assert ins[..inserted] == ins;
      var dissociated, deleted := DissociateUsers(t, taskUsers, wanted);
      PhasesPrefix(old(rows), ins, del, deleted);
      return dissociated, inserted + deleted;
    }
  }
}

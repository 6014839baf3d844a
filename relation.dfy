/*
 * The data this component works on: the `task_has_executors` join relation,
 * the part of the users table it reads, and the ordered id => username
 * dictionary that `getList` builds.
 */
module Relation {

  type TaskId = int
  type UserId = int

  /** The columns of a users-table row that this component selects (besides the id). */
  datatype Profile = Profile(username: string, name: string)

  /** The users table, keyed by its primary key. */
  type UserTable = map<UserId, Profile>

  /** One row of `task_has_executors`: the user is an executor of the task. */
  datatype Row = Row(task: TaskId, user: UserId)

  /** A user as returned by the join of the users table with `task_has_executors`. */
  datatype User = User(id: UserId, username: string, name: string)

  /** The elements of a sequence, as a set. */
  function Elems<T>(s: seq<T>): set<T>
  {
    set x | x in s
  }

  /** The user ids the relation associates with task `t`, whether or not the user still exists. */
  function TaskUserIds(rows: seq<Row>, t: TaskId): set<UserId>
  {
    set r | r in rows && r.task == t :: r.user
  }

  /** The user ids that a join with the users table shows as executors of task `t`. */
  function ListedIds(rows: seq<Row>, users: UserTable, t: TaskId): set<UserId>
  {
    set r | r in rows && r.task == t && r.user in users :: r.user
  }

  /** The rows that belong to tasks other than `t`, in relation order. */
  function OtherTasks(rows: seq<Row>, t: TaskId): (r: seq<Row>)
    ensures forall x :: x in r <==> x in rows && x.task != t
  {
    if rows == [] then []
    else OtherTasks(rows[..|rows| - 1], t) + (if rows[|rows| - 1].task != t then [rows[|rows| - 1]] else [])
  }

  /**
   * An ordered dictionary from user id to username, the shape of the PHP
   * array `getList` returns: keys in insertion order.
   */
  type Dict = seq<(UserId, string)>

  function KeySet(d: Dict): set<UserId>
  {
    set p | p in d :: p.0
  }

  predicate UniqueKeys(d: Dict)
  {
    forall i, j :: 0 <= i < j < |d| ==> d[i].0 != d[j].0
  }
}

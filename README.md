# Task executors: a verified model of Kanboard's `TaskExecutorModel`

Kanboard can associate any number of users with a task as its *executors*.
The association lives in the join table `task_has_executors`, one
`(task_id, user_id)` row per association. `TaskExecutorModel` reads it:
- `getUsersByTask` lists one task's executors;
- `getList` builds an id → username dictionary;
- `getUsersByTaskIds` groups the executors of several tasks by task, sorted by username.

It writes it through `save`, which reconciles a task's executors with a desired list of user ids:
- it reads the current executors once;
- it drops the falsy id 0 from the desired list;
- it inserts each desired id that is not current, in list order;
- only if every insert succeeded, it deletes each current id that is not desired, in dictionary order.

The first failed write makes `save` return false at once. Writes already made stay.

The model has five modules:

- `Relation` (relation.dfy): the data. The join table is a `seq<Row>`. It can hold duplicate rows, because nothing in the model enforces the `(task_id, user_id)` key; `SaveKeepsKey` states when `save` keeps it anyway. The users table is a `map` from id to `(username, name)`. The ordered PHP array that `getList` returns is a `Dict`, a sequence of `(id, username)` pairs.
- `Collation` (collation.dfy): the username order of `ORDER BY username ASC`, as a binary (character-code) collation, with its order laws.
- `Queries` (queries.dfy): the read side, as functions of the two tables. `array_column` and `array_column_index` are written out over the query results.
- `Reconcile` (reconcile.dfy): the write plan of `save`.
  - `Inserts`: the associate phase.
  - `Deletes`: the dissociate phase.
  - `SavePlan`: both, against the dictionary that was read.
  - `ApplyAll`: the relation after a prefix of the plan.
  - The lemmas about the plan: counts, idempotence, convergence, frame, and what a partial run leaves behind.
- `Executors` (task_executor_model.dfy): class `TaskExecutorModel` holds the relation as a field, and its methods change it one row at a time.
  - The single-row insert and delete may fail; each is a nondeterministic choice, and a failed write changes nothing.
  - `AssociateUsers`, `DissociateUsers` and `Save` run the source's loops. Each is proved to leave the relation as `ApplyAll(old(rows), plan[..applied])`, where `applied` counts the writes that went through. Its result is true exactly when the whole plan was applied.

All reads go through the join with the users table. A row whose user no longer exists is invisible to `getList`, so `save` never deletes it. `SaveConverges` states the executor set after a successful save both for the raw relation and for the joined view.

## Model

| member | source | states |
|---|---|---|
| Queries.GetUsersByTask | app/Model/TaskExecutorModel.php:29-36 | a user is listed for task t exactly when the relation has a row (t, id) and the users table has that id with that username and name; the list is no longer than the relation; GetUsersByTaskCount gives the number of copies |
| Queries.GetUsersByTaskCount | app/Model/TaskExecutorModel.php:29-36 | the join lists a user once per row (t, id) of the relation when the users table holds that id with that username and name, and otherwise not at all |
| Queries.Put | app/Model/TaskExecutorModel.php:71 | assigning a key in an ordered array keeps keys unique, adds the key, holds the new pair and keeps only old pairs or the new one |
| Queries.ArrayColumn | app/Model/TaskExecutorModel.php:71 | array_column(users, 'username', 'id'): keys are unique, the key set is exactly the ids of the list, every pair is some listed user's (id, username) |
| Queries.PutKeepsOthers | app/Model/TaskExecutorModel.php:71 | assigning one key keeps every pair stored under another key |
| Queries.ArrayColumnLastWins | app/Model/TaskExecutorModel.php:71 | array_column keeps, for each id, the username of the last row with that id |
| Queries.GetList | app/Model/TaskExecutorModel.php:68-72 | the dictionary has unique keys, its keys are exactly the ids the join shows for the task, and each value is that user's username |
| Collation.LexLeReflexive | app/Model/TaskExecutorModel.php:55 | every username sorts at or before itself |
| Collation.LexLeTotal | app/Model/TaskExecutorModel.php:55 | any two usernames are comparable |
| Collation.LexLeTransitive | app/Model/TaskExecutorModel.php:55 | the username order is transitive |
| Collation.LexLeAntisymmetric | app/Model/TaskExecutorModel.php:55 | two usernames that sort each before the other are equal |
| Queries.InsertByUsername | app/Model/TaskExecutorModel.php:55 | inserting a row into the sorted result adds exactly that row (multiset) |
| Queries.SortByUsername | app/Model/TaskExecutorModel.php:55 | sorting by username is a permutation of the query result |
| Queries.InsertByUsernameSorted | app/Model/TaskExecutorModel.php:55 | inserting into a username-sorted list keeps it sorted |
| Queries.SortByUsernameSorted | app/Model/TaskExecutorModel.php:55 | the sorted result is in ascending username order |
| Queries.FilterTask | app/Model/TaskExecutorModel.php:58 | a row is in a task's group exactly when it is in the result and has that task id |
| Queries.FilterTaskCount | app/Model/TaskExecutorModel.php:58 | a group keeps every row of its task as often as the result has it, and no other row |
| Queries.FilterTaskSorted | app/Model/TaskExecutorModel.php:58 | grouping keeps the username order within each group |
| Queries.GroupByTask | app/Model/TaskExecutorModel.php:58 | array_column_index: the keys are exactly the task ids occurring in the result |
| Queries.GroupByTaskFilter | app/Model/TaskExecutorModel.php:58 | the group under a key is the result's rows of that task, in result order |
| Queries.FilterTaskEmpty | app/Model/TaskExecutorModel.php:58 | a task's group is empty exactly when the task does not occur in the result |
| Queries.JoinTasks | app/Model/TaskExecutorModel.php:51-56 | no contract of its own: the unsorted bulk join, every row of a requested task whose user exists, tagged with its task id; its meaning is stated by JoinTasksFilter and JoinTasksHas |
| Queries.JoinTasksHas | app/Model/TaskExecutorModel.php:51-56 | a task occurs in the bulk join exactly when it was requested and has at least one executor that is a user |
| Queries.JoinTasksFilter | app/Model/TaskExecutorModel.php:51-54 | the joined rows of a requested task are that task's users tagged with the task id; an unrequested task has none |
| Queries.GetUsersByTaskIds | app/Model/TaskExecutorModel.php:47-49 | an empty list of task ids gives the empty map |
| Queries.GetUsersByTaskIdsSpec | app/Model/TaskExecutorModel.php:45-59 | keys are exactly the requested tasks that have at least one executor; each group is sorted by username and is, as a multiset, that task's executors tagged with the task id |
| Reconcile.NonZero | app/Model/TaskExecutorModel.php:86 | array_filter keeps exactly the non-zero ids, each as often as given |
| Reconcile.Inserts | app/Model/TaskExecutorModel.php:134-143 | no contract of its own: the associate phase's inserts, in list order; its meaning is stated by InsertsTargets, InsertsPerUser and InsertsCount |
| Reconcile.InsertsTargets | app/Model/TaskExecutorModel.php:134-143 | the associate phase only inserts rows of the task for desired ids not read as current, and every such id gets an insert |
| Reconcile.InsertsPerUser | app/Model/TaskExecutorModel.php:134-143 | an id missing from the current set is inserted once per occurrence in the desired list; a current id never |
| Reconcile.InsertsCount | app/Model/TaskExecutorModel.php:134-143 | without repeats, the associate phase makes exactly D \ C inserts |
| Reconcile.Deletes | app/Model/TaskExecutorModel.php:154-165 | no contract of its own: the dissociate phase's deletes, in dictionary order; its meaning is stated by DeletesTargets and DeletesCount |
| Reconcile.Plan | app/Model/TaskExecutorModel.php:88-89 | no contract of its own: the associate phase's inserts followed by the dissociate phase's deletes; stated by PlanEmptyIff, PlanPrefixChanges and PlanConverges |
| Reconcile.SavePlan | app/Model/TaskExecutorModel.php:83-90 | no contract of its own: the plan against the dictionary read and the filtered ids; stated by SaveWritesOnlyTheDifference, SaveConverges, SaveTwiceIsNoop and SaveKeepsKey |
| Reconcile.DeletesTargets | app/Model/TaskExecutorModel.php:154-165 | the dissociate phase only deletes rows of the task for current ids not desired, and every such id gets a delete |
| Reconcile.DeletesCount | app/Model/TaskExecutorModel.php:154-165 | over a dictionary, the dissociate phase makes exactly C \ D deletes |
| Reconcile.PlanEmptyIff | app/Model/TaskExecutorModel.php:134-165 | the two phases plan no write exactly when the desired ids and the current keys are the same set |
| Reconcile.Apply | app/Model/TaskExecutorModel.php:100-122 | no contract of its own: one successful insert appends its row, one successful delete is Without; stated by ApplyAllChanges, ApplyInserts and ApplyDeletes |
| Reconcile.ApplyAll | app/Model/TaskExecutorModel.php:100-122 | no contract of its own: successful writes applied in order; stated by ApplyAllChanges, ApplyAllFrame, ApplyInserts and ApplyDeletes |
| Reconcile.Without | app/Model/TaskExecutorModel.php:116-122 | the delete removes every copy of the matching row and keeps every other row with all of its copies (as a multiset, the old relation with that row's count set to zero) |
| Reconcile.WithoutFrame | app/Model/TaskExecutorModel.php:116-122 | the delete leaves other tasks' rows as they were, in order |
| Reconcile.ApplyAllChanges | app/Model/TaskExecutorModel.php:100-122 | a row appears only through an insert of it and disappears only through a delete of it |
| Reconcile.ApplyAllFrame | app/Model/TaskExecutorModel.php:100-122 | writes for one task leave the rows of every other task unchanged |
| Reconcile.ApplyInserts | app/Model/TaskExecutorModel.php:100-106 | inserts for a task add exactly their users to the task |
| Reconcile.ApplyDeletes | app/Model/TaskExecutorModel.php:116-122 | deletes for a task remove exactly their users from the task |
| Reconcile.ApplyInsertsExtends | app/Model/TaskExecutorModel.php:100-106 | inserts only append: the relation before is a prefix of the one after |
| Reconcile.PlanPrefixChanges | app/Model/TaskExecutorModel.php:134-165 | after any prefix of the plan, added rows are wanted ids not current, removed rows are current ids not wanted, and other tasks are unchanged |
| Reconcile.SaveWritesOnlyTheDifference | app/Model/TaskExecutorModel.php:83-90 | however far save got, it added only non-zero desired ids that were not executors, removed only executors that were not desired, and left other tasks alone |
| Reconcile.AssociateFailureRemovesNothing | app/Model/TaskExecutorModel.php:88-89 | a save that stops in the associate phase never deletes: the relation read is a prefix of the relation after |
| Reconcile.PlanConverges | app/Model/TaskExecutorModel.php:134-165 | a completed plan removes exactly C \ D and adds exactly D \ C to the task, leaving other tasks unchanged |
| Reconcile.SaveConverges | app/Model/TaskExecutorModel.php:83-90 | after a fully successful save the task's executors are the non-zero desired ids (plus rows of deleted users the join hides), the joined view shows exactly the desired ids that are users, and other tasks are unchanged |
| Reconcile.SaveTwiceIsNoop | app/Model/TaskExecutorModel.php:83-90 | when every desired id is a user, saving the same list again plans no write |
| Reconcile.InsertsKeepKey | app/Model/TaskExecutorModel.php:134-143 | any prefix of the associate phase keeps `(task_id, user_id)` a key when the desired list has no repeats and every executor in the relation is current |
| Reconcile.DeletesKeepKey | app/Model/TaskExecutorModel.php:116-122 | deletes never create a duplicate row |
| Reconcile.PlanKeepsKey | app/Model/TaskExecutorModel.php:134-165 | every prefix of the plan keeps the key under the same conditions |
| Reconcile.SaveKeepsKey | app/Model/TaskExecutorModel.php:83-90 | wherever save stops, no user is an executor of the task twice, provided the filtered desired list has no repeats and every executor of the task is an existing user |
| Executors.TaskExecutorModel.AssociateUser | app/Model/TaskExecutorModel.php:100-106 | on success the row (task, user) is appended; on failure the relation is unchanged |
| Executors.TaskExecutorModel.DissociateUser | app/Model/TaskExecutorModel.php:116-122 | on success every matching row is removed; on failure the relation is unchanged |
| Executors.TaskExecutorModel.AssociateUsers | app/Model/TaskExecutorModel.php:134-143 | the relation afterwards is the one before with a prefix of the associate phase's inserts applied; true exactly when all of them went through |
| Executors.TaskExecutorModel.DissociateUsers | app/Model/TaskExecutorModel.php:154-165 | the relation afterwards is the one before with a prefix of the dissociate phase's deletes applied; true exactly when all of them went through |
| Executors.TaskExecutorModel.RunPhases | app/Model/TaskExecutorModel.php:88-89 | the dissociate phase runs only after the whole associate phase; the relation is the old one with a prefix of inserts-then-deletes applied; true exactly when all went through |
| Executors.TaskExecutorModel.Save | app/Model/TaskExecutorModel.php:83-90 | the relation afterwards is the one read with a prefix of save's plan applied, and the result is true exactly when the whole plan went through |

## Left out

- The SQL layer: query building, the `$this->db` handle and the storage engine. The tables are values, and a join is a comprehension over them.
- Storage failures are not modelled by cause (constraint violation, fault, a remove reported as failed). Each single-row write succeeds or fails by a nondeterministic choice, and a failed write changes nothing.
- The `$project_id` parameter of `save` and `associateUsers` is never used, so it is dropped.
- The row order of `getUsersByTask` is not modelled: its query has no sort clause. `GetUsersByTask` is stated by which users it lists and how often (`GetUsersByTaskCount`), not in what order, so the order of the keys in `getList` is not a promise either. The write order of the dissociate phase is modelled over whatever order the dictionary has.
- `ORDER BY username` depends on the database's collation. It is modelled as a binary collation with a stable sort, so ties in username keep query order; that query order is itself not promised.
- PHP loose comparison in `isset`, `in_array` and `array_filter` (numeric strings, `null`, `false`) is not modelled. Ids are integers, and 0 is the only falsy id.
- The order of the task keys in the array that `getUsersByTaskIds` returns is not modelled: the result is a `map`.
- Concurrency: two saves interleaving on the same task are not modelled. Each method runs alone on the relation.
- The users table never changes. User creation and the foreign-key cascade on user removal belong to other models, which are not part of this model.
- The `(task_id, user_id)` key of `task_has_executors` is not enforced. A key would make the storage refuse a second insert of the same pair, so `save` would return false. In the model that insert succeeds and adds a duplicate row. This happens for a new id repeated in the desired list, and for a desired id whose row the join hides. `SaveKeepsKey` proves that neither case arises when the filtered list has no repeats and every executor is an existing user.
- Reconcile.SaveTwiceIsNoop: it requires every desired id to be an existing user. An id with no user row is invisible to `getList`, so `save` inserts it again every time.

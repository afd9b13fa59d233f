/** The records shared by the backend and the browser client: a task as the
    document store keeps it, and the change events broadcast after each
    successful mutation. */
module Tasks {

  /** A task identity. The document store assigns a fresh one on creation. */
  type Id = nat

  /** One task record `{_id, text, priority}`. Neither text nor priority is
      validated by the backend, so both are free strings here. */
  datatype Task = Task(id: Id, text: string, priority: string)

  /** The three socket messages: `new-task`, `delete-task`, `update-task`. */
  datatype ChangeEvent =
    | Created(task: Task)
    | Deleted(id: Id)
    | Updated(task: Task)

  datatype Option<T> = None | Some(value: T)

  /** The identities present in a list of tasks. */
  function Ids(tasks: seq<Task>): set<Id>
  {
    set t | t in tasks :: t.id
  }

  /** No two entries of the list share an identity. */
  ghost predicate DistinctIds(tasks: seq<Task>)
  {
    forall i, j :: 0 <= i < j < |tasks| ==> tasks[i].id != tasks[j].id
  }

  /** Every stored record sits under its own identity. */
  ghost predicate WellKeyed(store: map<Id, Task>)
  {
    forall k :: k in store ==> store[k].id == k
  }

  /** The list holds exactly the store's records, each once, in some order. */
  ghost predicate Mirrors(tasks: seq<Task>, store: map<Id, Task>)
  {
    && DistinctIds(tasks)
    && Ids(tasks) == store.Keys
    && forall i :: 0 <= i < |tasks| ==> tasks[i].id in store && store[tasks[i].id] == tasks[i]
  }

  lemma MirrorsIntro(tasks: seq<Task>, store: map<Id, Task>)
    requires DistinctIds(tasks) && Ids(tasks) == store.Keys
    requires forall i :: 0 <= i < |tasks| ==> tasks[i].id in store && store[tasks[i].id] == tasks[i]
    ensures Mirrors(tasks, store)
  {
  }

  lemma IdsAppend(a: seq<Task>, b: seq<Task>)
    ensures Ids(a + b) == Ids(a) + Ids(b)
  {
    assert forall t :: t in a + b <==> t in a || t in b;
  }

  /** In a list with distinct identities, the last entry's identity does
      not occur before it. */
  lemma LastIdFresh(tasks: seq<Task>)
    requires DistinctIds(tasks) && tasks != []
    ensures tasks[|tasks| - 1].id !in Ids(tasks[..|tasks| - 1])
  {
    var init, last := tasks[..|tasks| - 1], tasks[|tasks| - 1];
    forall t | t in init ensures t.id != last.id {
      var i :| 0 <= i < |init| && init[i] == t;
      assert tasks[i] == t;
    }
  }

  /** A list with distinct identities has as many identities as entries. */
  lemma {:induction false} DistinctIdsCount(tasks: seq<Task>)
    requires DistinctIds(tasks)
    ensures |Ids(tasks)| == |tasks|
    decreases |tasks|
  {
    if tasks != [] {
      var init, last := tasks[..|tasks| - 1], tasks[|tasks| - 1];
      assert tasks == init + [last];
      assert DistinctIds(init);
      DistinctIdsCount(init);
      IdsAppend(init, [last]);
      assert Ids([last]) == {last.id};
      LastIdFresh(tasks);
    }
  }

  /** A list mirroring a store holds one entry per stored record. */
  lemma MirrorSize(tasks: seq<Task>, store: map<Id, Task>)
    requires Mirrors(tasks, store)
    ensures |tasks| == |store|
  {
    DistinctIdsCount(tasks);
    assert |store.Keys| == |store|;
  }
}

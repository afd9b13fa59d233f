/** The browser client's view state: the updater functions it hands to
    `setTasks` for the initial snapshot and for each socket message, and
    their in-order application to a list. */
module Client {
  import opened Tasks

  /** The initial fetch: a successful answer replaces the view; a failed
      one is only logged, so the view stays as it was. */
  function OnSnapshot(view: seq<Task>, fetched: Option<seq<Task>>): seq<Task>
  {
    match fetched
    case Some(tasks) => tasks
    case None => view
  }

  lemma SnapshotReplaces(view: seq<Task>, other: seq<Task>, fetched: seq<Task>)
    ensures OnSnapshot(view, Some(fetched)) == OnSnapshot(other, Some(fetched)) == fetched
  {
  }

  lemma FailedSnapshotKeepsView(view: seq<Task>, events: seq<ChangeEvent>)
    ensures OnSnapshot(view, None) == view
    ensures Session(view, None, events) == ApplyAll(view, events)
  {
  }

  /** `new-task`: the task is appended after the existing entries. */
  function OnNewTask(view: seq<Task>, task: Task): (r: seq<Task>)
    ensures |r| == |view| + 1 && r[..|view|] == view && r[|view|] == task
    ensures Ids(r) == Ids(view) + {task.id}
  {
    IdsAppend(view, [task]);
    view + [task]
  }

  /** `delete-task`: keeps, in order, the entries whose identity differs. */
  function OnDeleteTask(view: seq<Task>, id: Id): (r: seq<Task>)
    ensures |r| <= |view|
    ensures id in Ids(view) ==> |r| < |view|
    ensures forall t :: t in r <==> t in view && t.id != id
    ensures Ids(r) == Ids(view) - {id}
  {
    if view == [] then []
    else
      var rest := OnDeleteTask(view[1..], id);
      assert view == [view[0]] + view[1..];
      IdsAppend([view[0]], view[1..]);
      if view[0].id != id then
        IdsAppend([view[0]], rest);
        [view[0]] + rest
      else
        rest
  }

  /** `update-task`: every entry with the task's identity becomes the task. */
  function OnUpdateTask(view: seq<Task>, task: Task): (r: seq<Task>)
    ensures |r| == |view|
    ensures forall i :: 0 <= i < |view| ==> r[i] == if view[i].id == task.id then task else view[i]
  {
    if view == [] then []
    else [if view[0].id == task.id then task else view[0]] + OnUpdateTask(view[1..], task)
  }

  /** Deleting from a concatenation deletes from each part and keeps the
      parts in order: the filter never reorders surviving entries. */
  lemma {:induction false} DeleteKeepsOrder(a: seq<Task>, b: seq<Task>, id: Id)
    ensures OnDeleteTask(a + b, id) == OnDeleteTask(a, id) + OnDeleteTask(b, id)
  {
    if a == [] {
      assert a + b == b;
    } else {
      assert (a + b)[1..] == a[1..] + b;
      DeleteKeepsOrder(a[1..], b, id);
    }
  }

  /** A `delete-task` for an identity the view does not hold changes nothing. */
  lemma {:induction false} DeleteAbsentIsNoOp(view: seq<Task>, id: Id)
    requires id !in Ids(view)
    ensures OnDeleteTask(view, id) == view
  {
    if view != [] {
      assert view[0] in view;
      assert Ids(view[1..]) <= Ids(view) by {
        forall t | t in view[1..] ensures t in view { }
      }
      DeleteAbsentIsNoOp(view[1..], id);
      assert view == [view[0]] + view[1..];
    }
  }

  /** Receiving the same `delete-task` twice is the same as receiving it once. */
  lemma DeleteIdempotent(view: seq<Task>, id: Id)
    ensures OnDeleteTask(OnDeleteTask(view, id), id) == OnDeleteTask(view, id)
  {
    DeleteAbsentIsNoOp(OnDeleteTask(view, id), id);
  }

  /** Deleting keeps the identities of the surviving entries distinct. */
  lemma {:induction false} DeleteKeepsDistinct(view: seq<Task>, id: Id)
    requires DistinctIds(view)
    ensures DistinctIds(OnDeleteTask(view, id))
  {
    if view != [] {
      var rest := OnDeleteTask(view[1..], id);
      DeleteKeepsDistinct(view[1..], id);
      if view[0].id != id {
        var r := [view[0]] + rest;
        forall j | 0 < j < |r| ensures r[0].id != r[j].id {
          assert rest[j - 1] in rest;
          assert rest[j - 1] in view[1..];
          var k :| 0 <= k < |view[1..]| && view[1..][k] == rest[j - 1];
          assert view[k + 1] == rest[j - 1];
        }
      }
    }
  }

  /** An `update-task` for an identity the view does not hold changes
      nothing: an update is never turned into an insertion. */
  lemma UpdateAbsentIsNoOp(view: seq<Task>, task: Task)
    requires task.id !in Ids(view)
    ensures OnUpdateTask(view, task) == view
  {
    var r := OnUpdateTask(view, task);
    forall i | 0 <= i < |view| ensures r[i] == view[i] {
      assert view[i] in view;
    }
  }

  /** Updating keeps the set of identities the view holds. */
  lemma UpdateKeepsIds(view: seq<Task>, task: Task)
    ensures Ids(OnUpdateTask(view, task)) == Ids(view)
  {
    var r := OnUpdateTask(view, task);
    forall x | x in Ids(r) ensures x in Ids(view) {
      var t :| t in r && t.id == x;
      var i :| 0 <= i < |r| && r[i] == t;
      assert view[i] in view;
    }
    forall x | x in Ids(view) ensures x in Ids(r) {
      var t :| t in view && t.id == x;
      var i :| 0 <= i < |view| && view[i] == t;
      assert r[i] in r;
    }
  }

  /** Updating keeps every entry's identity, so it keeps them distinct. */
  lemma UpdateKeepsDistinct(view: seq<Task>, task: Task)
    requires DistinctIds(view)
    ensures DistinctIds(OnUpdateTask(view, task))
  {
    var r := OnUpdateTask(view, task);
    forall i, j | 0 <= i < j < |r| ensures r[i].id != r[j].id {
      assert r[i].id == view[i].id && r[j].id == view[j].id;
    }
  }

  /** Receiving the same `update-task` twice is the same as receiving it once. */
  lemma UpdateIdempotent(view: seq<Task>, task: Task)
    ensures OnUpdateTask(OnUpdateTask(view, task), task) == OnUpdateTask(view, task)
  {
    var once := OnUpdateTask(view, task);
    var twice := OnUpdateTask(once, task);
    forall i | 0 <= i < |view| ensures twice[i] == once[i] { }
  }

  /** A deletion erases every trace of earlier updates to the same identity. */
  lemma {:induction false} DeleteAfterUpdate(view: seq<Task>, task: Task)
    ensures OnDeleteTask(OnUpdateTask(view, task), task.id) == OnDeleteTask(view, task.id)
  {
    if view != [] {
      var u := OnUpdateTask(view, task);
      assert u[1..] == OnUpdateTask(view[1..], task);
      DeleteAfterUpdate(view[1..], task);
    }
  }

  /** The reaction to one socket message. */
  function Apply(view: seq<Task>, event: ChangeEvent): seq<Task>
  {
    match event
    case Created(t) => OnNewTask(view, t)
    case Deleted(id) => OnDeleteTask(view, id)
    case Updated(t) => OnUpdateTask(view, t)
  }

  /** The messages applied one after another, oldest first. */
  function ApplyAll(view: seq<Task>, events: seq<ChangeEvent>): seq<Task>
    decreases |events|
  {
    if events == [] then view
    else Apply(ApplyAll(view, events[..|events| - 1]), events[|events| - 1])
  }

  /** A session: a snapshot attempt over whatever the view held, then the
      messages. */
  function Session(view: seq<Task>, fetched: Option<seq<Task>>, events: seq<ChangeEvent>): seq<Task>
  {
    ApplyAll(OnSnapshot(view, fetched), events)
  }

  /** Applying two batches in turn is applying their concatenation. */
  lemma {:induction false} ApplyAllAppend(view: seq<Task>, a: seq<ChangeEvent>, b: seq<ChangeEvent>)
    ensures ApplyAll(view, a + b) == ApplyAll(ApplyAll(view, a), b)
    decreases |b|
  {
    if b == [] {
      assert a + b == a;
    } else {
      assert (a + b)[..|a + b| - 1] == a + b[..|b| - 1];
      ApplyAllAppend(view, a, b[..|b| - 1]);
    }
  }

  /** Create of a task, any update, then delete of the task's identity
      leaves no entry with that identity, and returns an empty view to
      empty. */
  lemma CreateUpdateDeleteLeavesNothing(view: seq<Task>, a: Task, a': Task)
    ensures a.id !in Ids(ApplyAll(view, [Created(a), Updated(a'), Deleted(a.id)]))
    ensures view == [] ==> ApplyAll(view, [Created(a), Updated(a'), Deleted(a.id)]) == []
  {
    var events := [Created(a), Updated(a'), Deleted(a.id)];
    assert events[..2][..1] == [Created(a)];
    assert events[..2] == [Created(a), Updated(a')];
    assert ApplyAll(view, events[..2][..1]) == OnNewTask(view, a);
    if view == [] {
      var u := OnUpdateTask([a], a');
      assert u == [if a.id == a'.id then a' else a];
      assert OnDeleteTask(u, a.id) == [];
    }
  }
}

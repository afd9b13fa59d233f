/** The backend's four routes as operations on an abstract task store with
    an append-only log of the change events it has broadcast. */
module Server {
  import opened Tasks

  /** What a route sends back as JSON. */
  datatype Body =
    | TaskBody(task: Task)
    | TaskListBody(tasks: seq<Task>)
    | DeleteBody(result: Option<Task>)
    | ErrorBody(message: string)

  datatype Response = Response(status: nat, body: Body)

  /** The store change a successful mutation makes, named by the event it
      broadcasts: creation and update write the record under its identity,
      deletion drops the identity (whether or not it was present). */
  function Commit(store: map<Id, Task>, event: ChangeEvent): map<Id, Task>
  {
    match event
    case Created(t) => store[t.id := t]
    case Deleted(id) => store - {id}
    case Updated(t) => store[t.id := t]
  }

  /** The store reached from `store` by committing `events` in order. */
  function Replay(store: map<Id, Task>, events: seq<ChangeEvent>): map<Id, Task>
    decreases |events|
  {
    if events == [] then store
    else Commit(Replay(store, events[..|events| - 1]), events[|events| - 1])
  }

  /** The routes only emit an event the store state allows: a creation under
      an identity not yet stored, an update of an identity that is stored.
      A deletion is emitted whether or not its identity is stored. */
  ghost predicate Admissible(store: map<Id, Task>, event: ChangeEvent)
  {
    match event
    case Created(t) => t.id !in store
    case Deleted(_) => true
    case Updated(t) => t.id in store
  }

  /** Each event of the log was admissible when it was emitted. */
  ghost predicate Justified(store: map<Id, Task>, events: seq<ChangeEvent>)
    decreases |events|
  {
    events == [] ||
    (Justified(store, events[..|events| - 1]) &&
     Admissible(Replay(store, events[..|events| - 1]), events[|events| - 1]))
  }

  /** Committing an event keeps every record under its own identity. */
  lemma CommitKeepsKeying(store: map<Id, Task>, event: ChangeEvent)
    requires WellKeyed(store)
    ensures WellKeyed(Commit(store, event))
  {
  }

  /** Replaying two logs in turn is replaying their concatenation. */
  lemma {:induction false} ReplayAppend(store: map<Id, Task>, a: seq<ChangeEvent>, b: seq<ChangeEvent>)
    ensures Replay(store, a + b) == Replay(Replay(store, a), b)
    decreases |b|
  {
    if b == [] {
      assert a + b == a;
    } else {
      assert (a + b)[..|a + b| - 1] == a + b[..|b| - 1];
      ReplayAppend(store, a, b[..|b| - 1]);
    }
  }

  /** A justified log stays justified from any point on it. */
  lemma {:induction false} JustifiedSplit(store: map<Id, Task>, a: seq<ChangeEvent>, b: seq<ChangeEvent>)
    requires Justified(store, a + b)
    ensures Justified(store, a) && Justified(Replay(store, a), b)
    decreases |b|
  {
    if b == [] {
      assert a + b == a;
    } else {
      var init := b[..|b| - 1];
      assert (a + b)[..|a + b| - 1] == a + init;
      JustifiedSplit(store, a, init);
      ReplayAppend(store, a, init);
    }
  }

  /** The identities of all tasks the log reports as created. */
  ghost function CreatedIds(events: seq<ChangeEvent>): set<Id>
  {
    set e | e in events && e.Created? :: e.task.id
  }

  /** No two creations in the log share an identity: identities are never
      reused, not even after the record was deleted. */
  ghost predicate CreationsDistinct(events: seq<ChangeEvent>)
  {
    forall i, j :: 0 <= i < j < |events| && events[i].Created? && events[j].Created? ==>
      events[i].task.id != events[j].task.id
  }

  /** The backend: the document store, the identities the store has handed
      out, and the log of everything broadcast with `io.emit`. */
  class TaskService {
    var store: map<Id, Task>
    var issued: set<Id>
    var nextId: Id
    var emitted: seq<ChangeEvent>

    ghost predicate Valid()
      reads this
    {
      && WellKeyed(store)
      && store.Keys <= issued
      && CreatedIds(emitted) <= issued
      && CreationsDistinct(emitted)
      && (forall id :: id in issued ==> id < nextId)
      && Justified(map[], emitted)
      && store == Replay(map[], emitted)
    }

    constructor ()
      ensures Valid()
      ensures store == map[] && issued == {} && emitted == []
    {
      store := map[];
      issued := {};
      nextId := 0;
      emitted := [];
    }

    /** The store hands out an identity it has never handed out before. */
    method IssueId() returns (id: Id)
      requires Valid()
      modifies this
      ensures Valid()
      ensures id !in old(issued) && issued == old(issued) + {id}
      ensures store == old(store) && emitted == old(emitted)
    {
      id := nextId;
      nextId := nextId + 1;
      issued := issued + {id};
    }

    /** Broadcast an event the current store admits, after committing it. */
    method CommitAndEmit(event: ChangeEvent)
      requires Valid()
      requires Admissible(store, event)
      requires event.Created? ==> event.task.id in issued && event.task.id !in CreatedIds(emitted)
      modifies this
      ensures Valid()
      ensures store == Commit(old(store), event)
      ensures emitted == old(emitted) + [event]
      ensures issued == old(issued) && nextId == old(nextId)
    {
      var before := emitted;
      store := Commit(store, event);
      emitted := emitted + [event];
      assert emitted[..|emitted| - 1] == before;
      CommitKeepsKeying(old(store), event);
      assert CreatedIds(emitted) == CreatedIds(before) + (if event.Created? then {event.task.id} else {});
      forall i | 0 <= i < |before| && before[i].Created? && event.Created?
        ensures before[i].task.id != event.task.id
      {
        assert before[i] in before;
      }
    }

    /** `GET /tasks`: every stored record, each once, in an order the store
        does not promise; a failed query answers 500 with its message. */
    method ListTasks(failure: Option<string>) returns (resp: Response)
      requires Valid()
      ensures failure.Some? ==> resp == Response(500, ErrorBody(failure.value))
      ensures failure.None? ==> resp.status == 200 && resp.body.TaskListBody?
      ensures failure.None? ==> Mirrors(resp.body.tasks, store)
    {
      if failure.Some? {
        return Response(500, ErrorBody(failure.value));
      }
      var pending := store.Keys;
      var listed: seq<Task> := [];
      while pending != {}
        invariant pending <= store.Keys
        invariant Ids(listed) == store.Keys - pending
        invariant DistinctIds(listed)
        invariant forall i :: 0 <= i < |listed| ==> listed[i].id in store && store[listed[i].id] == listed[i]
        decreases pending
      {
        var id :| id in pending;
        IdsAppend(listed, [store[id]]);
        listed := listed + [store[id]];
        pending := pending - {id};
      }
      return Response(200, TaskListBody(listed));
    }

    /** `POST /task/new`: a record with the request's text and priority under
        a fresh identity; on a successful save, one `new-task` broadcast of
        the saved record and 201. A failed save answers 500 and changes
        neither the store nor the log. */
    method CreateTask(text: string, priority: string, saveFailure: Option<string>) returns (resp: Response)
      requires Valid()
      modifies this
      ensures Valid()
      ensures old(issued) <= issued
      ensures saveFailure.Some? ==> resp == Response(500, ErrorBody(saveFailure.value))
      ensures saveFailure.Some? ==> store == old(store) && emitted == old(emitted)
      ensures saveFailure.None? ==> resp.status == 201 && resp.body.TaskBody?
      ensures saveFailure.None? ==>
        var t := resp.body.task;
        && t.text == text && t.priority == priority
        && t.id !in old(issued) && t.id !in old(store) && t.id !in CreatedIds(old(emitted))
        && issued == old(issued) + {t.id}
        && store == old(store)[t.id := t]
        && emitted == old(emitted) + [Created(t)]
    {
      var id := IssueId();
      var task := Task(id, text, priority);
      if saveFailure.Some? {
        return Response(500, ErrorBody(saveFailure.value));
      }
      CommitAndEmit(Created(task));
      return Response(201, TaskBody(task));
    }

    /** `DELETE /task/delete/:id`: drops the record if there is one, then
        broadcasts `delete-task` and answers 200 with the deleted record or
        nothing, whether or not a record existed. A failed deletion answers
        500 and changes nothing. */
    method DeleteTask(id: Id, deleteFailure: Option<string>) returns (resp: Response)
      requires Valid()
      modifies this
      ensures Valid()
      ensures issued == old(issued)
      ensures deleteFailure.Some? ==> resp == Response(500, ErrorBody(deleteFailure.value))
      ensures deleteFailure.Some? ==> store == old(store) && emitted == old(emitted)
      ensures deleteFailure.None? ==>
        && resp == Response(200, DeleteBody(if id in old(store) then Some(old(store)[id]) else None))
        && id !in store
        && store == old(store) - {id}
        && emitted == old(emitted) + [Deleted(id)]
    {
      if deleteFailure.Some? {
        return Response(500, ErrorBody(deleteFailure.value));
      }
      var result := if id in store then Some(store[id]) else None;
      CommitAndEmit(Deleted(id));
      return Response(200, DeleteBody(result));
    }

    /** `PUT /task/update/:id`: 404 with no broadcast for an identity that is
        not stored; otherwise overwrites the text only, saves, broadcasts
        `update-task` with the saved record and answers 200. A failed lookup
        or save answers 500 and changes nothing. */
    method UpdateTask(id: Id, text: string, findFailure: Option<string>, saveFailure: Option<string>)
      returns (resp: Response)
      requires Valid()
      modifies this
      ensures Valid()
      ensures issued == old(issued)
      ensures findFailure.Some? ==> resp == Response(500, ErrorBody(findFailure.value))
      ensures findFailure.None? && id !in old(store) ==> resp == Response(404, ErrorBody("Task not found"))
      ensures findFailure.None? && id in old(store) && saveFailure.Some? ==>
        resp == Response(500, ErrorBody(saveFailure.value))
      ensures resp.status != 200 ==> store == old(store) && emitted == old(emitted)
      ensures resp.status == 200 <==> findFailure.None? && id in old(store) && saveFailure.None?
      ensures resp.status == 200 ==>
        var t := old(store)[id].(text := text);
        && t.id == id && t.priority == old(store)[id].priority
        && resp.body == TaskBody(t)
        && store == old(store)[id := t]
        && emitted == old(emitted) + [Updated(t)]
    {
      if findFailure.Some? {
        return Response(500, ErrorBody(findFailure.value));
      }
      if id !in store {
        return Response(404, ErrorBody("Task not found"));
      }
      var task := store[id].(text := text);
      if saveFailure.Some? {
        return Response(500, ErrorBody(saveFailure.value));
      }
      CommitAndEmit(Updated(task));
      return Response(200, TaskBody(task));
    }
  }
}

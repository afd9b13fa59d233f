/** The synchronisation contract between the two participants: a client
    that takes a snapshot of the store and then applies, in order, every
    event the backend broadcasts after it, holds the store's records. The
    order of the client's list is not promised, since the store lists its
    records in no particular order. */
module Sync {
  import opened Tasks
  import opened Client
  import opened Server

  /** `new-task` for a fresh identity keeps a mirroring view in step. */
  lemma NewTaskKeepsMirror(view: seq<Task>, store: map<Id, Task>, t: Task)
    requires Mirrors(view, store) && t.id !in store
    ensures Mirrors(OnNewTask(view, t), store[t.id := t])
  {
    forall i | 0 <= i < |view| ensures view[i].id != t.id {
      assert view[i] in view;
    }
  }

  /** `delete-task` keeps a mirroring view in step, present identity or not. */
  lemma DeleteTaskKeepsMirror(view: seq<Task>, store: map<Id, Task>, id: Id)
    requires Mirrors(view, store)
    ensures Mirrors(OnDeleteTask(view, id), store - {id})
  {
    var r := OnDeleteTask(view, id);
    DeleteKeepsDistinct(view, id);
    forall i | 0 <= i < |r| ensures r[i].id in store - {id} && (store - {id})[r[i].id] == r[i] {
      assert r[i] in r;
      var j :| 0 <= j < |view| && view[j] == r[i];
    }
  }

  /** After `update-task`, every entry of the view is the record the store
      holds under its identity once the update is committed. */
  lemma UpdatedEntriesStored(view: seq<Task>, store: map<Id, Task>, t: Task)
    requires Mirrors(view, store)
    ensures var r, s := OnUpdateTask(view, t), store[t.id := t];
      forall i :: 0 <= i < |r| ==> r[i].id in s && s[r[i].id] == r[i]
  {
    var r, s := OnUpdateTask(view, t), store[t.id := t];
    forall i | 0 <= i < |r| ensures r[i].id in s && s[r[i].id] == r[i] {
      assert r[i].id == view[i].id;
    }
  }

  /** `update-task` for a stored identity keeps a mirroring view in step. */
  lemma UpdateTaskKeepsMirror(view: seq<Task>, store: map<Id, Task>, t: Task)
    requires Mirrors(view, store) && t.id in store
    ensures Mirrors(OnUpdateTask(view, t), store[t.id := t])
  {
    var r, s := OnUpdateTask(view, t), store[t.id := t];
    assert Ids(r) == s.Keys by {
      UpdateKeepsIds(view, t);
      assert store.Keys + {t.id} == store.Keys;
    }
    UpdateKeepsDistinct(view, t);
    UpdatedEntriesStored(view, store, t);
    MirrorsIntro(r, s);
  }

  /** One admissible event keeps a mirroring view in step with the store. */
  lemma ApplyKeepsMirror(view: seq<Task>, store: map<Id, Task>, event: ChangeEvent)
    requires Mirrors(view, store) && Admissible(store, event)
    ensures Mirrors(Apply(view, event), Commit(store, event))
  {
    match event
    case Created(t) => NewTaskKeepsMirror(view, store, t);
    case Deleted(id) => DeleteTaskKeepsMirror(view, store, id);
    case Updated(t) => UpdateTaskKeepsMirror(view, store, t);
  }

  /** A mirroring view stays mirroring through any admissible run of events. */
  lemma {:induction false} ApplyAllKeepsMirror(view: seq<Task>, store: map<Id, Task>, events: seq<ChangeEvent>)
    requires Mirrors(view, store) && Justified(store, events)
    ensures Mirrors(ApplyAll(view, events), Replay(store, events))
    decreases |events|
  {
    if events != [] {
      var init := events[..|events| - 1];
      ApplyAllKeepsMirror(view, store, init);
      ApplyKeepsMirror(ApplyAll(view, init), Replay(store, init), events[|events| - 1]);
    }
  }

  /** A client whose snapshot was taken after the first `k` broadcasts, and
      that has received every later broadcast in order, holds exactly the
      backend's current records, whatever it held before the snapshot. */
  lemma ClientConverges(service: TaskService, k: nat, stale: seq<Task>, fetched: seq<Task>)
    requires service.Valid() && k <= |service.emitted|
    requires Mirrors(fetched, Replay(map[], service.emitted[..k]))
    ensures Mirrors(Session(stale, Some(fetched), service.emitted[k..]), service.store)
    ensures Ids(Session(stale, Some(fetched), service.emitted[k..])) == service.store.Keys
  {
    var log := service.emitted;
    assert log == log[..k] + log[k..];
    JustifiedSplit(map[], log[..k], log[k..]);
    ReplayAppend(map[], log[..k], log[k..]);
    ApplyAllKeepsMirror(fetched, Replay(map[], log[..k]), log[k..]);
  }

  /** Replaying from an empty view, a client never holds an identity the
      messages never report as created. */
  lemma {:induction false} NoCreateNoEntry(events: seq<ChangeEvent>, id: Id)
    requires id !in CreatedIds(events)
    ensures id !in Ids(ApplyAll([], events))
    decreases |events|
  {
    if events != [] {
      var init, last := events[..|events| - 1], events[|events| - 1];
      assert CreatedIds(init) <= CreatedIds(events) by {
        forall e | e in init ensures e in events { }
      }
      NoCreateNoEntry(init, id);
      assert last in events;
      match last
      case Created(t) =>
      case Deleted(_) =>
      case Updated(t) => UpdateKeepsIds(ApplyAll([], init), t);
    }
  }

  /** Starting from an empty store, every stored identity was created by
      some event of an admissible log. */
  lemma {:induction false} StoredIdsCreated(events: seq<ChangeEvent>)
    requires Justified(map[], events)
    ensures Replay(map[], events).Keys <= CreatedIds(events)
    decreases |events|
  {
    if events != [] {
      var init, last := events[..|events| - 1], events[|events| - 1];
      assert CreatedIds(init) <= CreatedIds(events) by {
        forall e | e in init ensures e in events { }
      }
      StoredIdsCreated(init);
      assert last in events;
    }
  }

  /** A client whose fetch on mount failed after the first `k` broadcasts is
      never refreshed: whatever broadcasts follow, it never holds any record
      that was stored when it mounted. */
  lemma FailedFetchNeverHoldsOld(service: TaskService, k: nat, id: Id)
    requires service.Valid() && k <= |service.emitted|
    requires id in Replay(map[], service.emitted[..k])
    ensures id !in Ids(Session([], None, service.emitted[k..]))
  {
    var log := service.emitted;
    var before, after := log[..k], log[k..];
    assert log == before + after;
    JustifiedSplit(map[], before, after);
    StoredIdsCreated(before);
    assert id !in CreatedIds(after) by {
      forall e | e in after && e.Created? ensures e.task.id != id {
        var j :| 0 <= j < |after| && after[j] == e;
        var c :| c in before && c.Created? && c.task.id == id;
        var i :| 0 <= i < |before| && before[i] == c;
        assert log[i] == c && log[k + j] == e;
      }
    }
    NoCreateNoEntry(after, id);
  }

  /** Two sessions, one backend: a task created through the backend reaches
      a second session that issued no request, which then holds exactly the
      backend's records; an update of an unknown identity is refused with
      404 and broadcasts nothing. */
  method TwoSessions(text: string, priority: string, unknown: Id, prior: seq<Task>)
  {
    var service := new TaskService();
    var listing := service.ListTasks(None);
    var second := Session(prior, Some(listing.body.tasks), []);
    MirrorSize(second, service.store);
    var mark := |service.emitted|;

    var created := service.CreateTask(text, priority, None);
    assert created.status == 201;
    var task := created.body.task;
    assert service.emitted[mark..] == [Created(task)];
    second := Apply(second, Created(task));
    assert second == [task] && task.text == text && task.priority == priority;
    ClientConverges(service, mark, prior, listing.body.tasks);

    if unknown != task.id {
      var before := service.emitted;
      var refused := service.UpdateTask(unknown, text, None, None);
      assert refused.status == 404 && service.emitted == before;
    }
  }
}

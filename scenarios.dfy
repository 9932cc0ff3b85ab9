/** Short call sequences on a fresh store, each stating what a caller of
    the facade observes at the end. */
module Scenarios {
  import opened Wrappers
  import opened StorageClient
  import Text
  import Sorting

  /** A session whose time to live runs out disappears from get_users,
      and get_users removes its id from the users index. */
  method ExpiredSessionIsPruned(sessionExpire: int, parseTimestamp: string -> Option<int>, user: Record)
    returns (listed: Result<seq<Record>, StorageError>, stillIndexed: bool)
    requires sessionExpire > 0 && SessionId in user
    ensures listed == Success([])
    ensures !stillIndexed
  {
    var store := new Storage(sessionExpire, parseTimestamp);
    var o := store.SetUser(user);
    store.ExpireElapsed(UserKey(user[SessionId]));
    assert store.hashes == map[];
    ghost var live;
    listed, live := store.GetUsers();
    assert live == [];
    stillIndexed := user[SessionId] in MembersOf(store.sets, UsersIndex);
  }

  /** A live session is listed, and the index keeps it. */
  method LiveSessionIsListed(sessionExpire: int, parseTimestamp: string -> Option<int>, user: Record)
    returns (listed: Result<seq<Record>, StorageError>, stillIndexed: bool)
    requires sessionExpire > 0 && SessionId in user && LastSeen in user
    ensures listed == Success([user])
    ensures stillIndexed
  {
    var store := new Storage(sessionExpire, parseTimestamp);
    var o := store.SetUser(user);
    assert map[] + user == user;
    assert store.hashes == map[UserKey(user[SessionId]) := user];
    ghost var live;
    listed, live := store.GetUsers();
    Sorting.SingletonDistinct(live, user[SessionId]);
    assert Resolve(store.hashes, UserKey, live) == [user];
    SortOne(user, LastSeen);
    stillIndexed := user[SessionId] in MembersOf(store.sets, UsersIndex);
  }

  /** Adding the same suspicious observable twice leaves one entry, keyed
      and valued by the stripped text. */
  method SuspiciousAddedTwice(observable: string, observableType: string) returns (entries: Record)
    ensures entries == map[Text.Strip(observable) := Text.Strip(observableType)]
  {
    var store := new Storage(0, (s: string) => None);
    store.AddSuspiciousObservable(observable, observableType);
    ghost var once := store.GetSuspiciousObservables();
    store.AddSuspiciousObservable(observable, observableType);
    entries := store.GetSuspiciousObservables();
    assert entries == once;
  }

  /** Deleting by the unstripped text removes the stripped entry. */
  method SuspiciousAddedThenDeleted(observable: string, observableType: string) returns (entries: Record)
    ensures entries == map[]
  {
    var store := new Storage(0, (s: string) => None);
    store.AddSuspiciousObservable(observable, observableType);
    var padding := "  \t";
    var trailing := " \r\n";
    assert Text.AllSpace(padding) && Text.AllSpace(trailing);
    store.DeleteSuspiciousObservable(padding + observable + trailing);
    entries := store.GetSuspiciousObservables();
    Text.StripPadded(observable, padding, trailing);
  }

  /** A report for a task leaves the task as stored minus its status. */
  method ReportClearsTaskStatus(parseTimestamp: string -> Option<int>, task: Record, report: Record)
    returns (storedTask: Record, storedReport: Record)
    requires SaveDate in task && Uuid in task && parseTimestamp(task[SaveDate]).Some?
    requires TaskUuid in report && WorkerName in report && report[TaskUuid] == task[Uuid]
    ensures storedTask == task - {Status}
    ensures Status !in storedTask && SaveDate in storedTask
    ensures storedReport == report
  {
    var store := new Storage(0, parseTimestamp);
    var o1 := store.SetTask(task);
    var o2 := store.SetReport(report);
    storedTask := store.GetTask(task[Uuid]);
    storedReport := store.GetReport(report[TaskUuid], report[WorkerName]);
  }

  /** An observable stored with a legacy warninglist field reads back
      without it, by parts and by identifier alike. */
  method ObservableRoundTrip(parseTimestamp: string -> Option<int>, observable: Record)
    returns (byParts: Record, byIdentifier: Record)
    requires LastSeen in observable && Sha256 in observable && ObservableType in observable
    requires parseTimestamp(observable[LastSeen]).Some?
    ensures byParts == byIdentifier == observable - {WarningList}
  {
    var store := new Storage(0, parseTimestamp);
    var o := store.SetObservable(observable);
    byParts := store.GetObservable(Some(observable[Sha256]), Some(observable[ObservableType]));
    byIdentifier := store.GetObservable(identifier := Some(ObservableId(observable[Sha256], observable[ObservableType])));
    store.GetObservableByParts(observable[Sha256], observable[ObservableType]);
  }

  /** A fresh store holding the one task, scored by its save_date. */
  method StoreOneTask(parseTimestamp: string -> Option<int>, task: Record) returns (store: Storage)
    requires SaveDate in task && Uuid in task && parseTimestamp(task[SaveDate]).Some?
    ensures fresh(store) && store.Valid()
    ensures store.hashes == map[TaskKey(task[Uuid]) := task]
    ensures ScoresOf(store.zsets, TasksIndex) == map[task[Uuid] := parseTimestamp(task[SaveDate]).value]
  {
    store := new Storage(0, parseTimestamp);
    var o := store.SetTask(task);
    assert map[] + task == task;
  }

  /** count_tasks agrees with the length of get_tasks over the defaults. */
  method CountMatchesListing(parseTimestamp: string -> Option<int>, task: Record)
    returns (listed: Result<seq<Record>, StorageError>, count: nat)
    requires SaveDate in task && Uuid in task && parseTimestamp(task[SaveDate]).Some?
    requires parseTimestamp(task[SaveDate]).value >= 0
    ensures listed == Success([task]) && count == 1
  {
    var store := StoreOneTask(parseTimestamp, task);
    var uuid := task[Uuid];
    assert MembersInRange(ScoresOf(store.zsets, TasksIndex), Score(0), PosInf) == {uuid};
    ghost var uuids;
    listed, uuids := store.GetTasks();
    count := store.CountTasks();
    Sorting.SingletonDistinct(uuids, uuid);
    assert Resolve(store.hashes, TaskKey, uuids) == [task];
    SortOne(task, SaveDate);
  }
}

/** The Storage facade of pandora/storage_client.py, over an in-memory
    model of the three Redis data types it uses: hashes (field maps),
    sets, and sorted sets (a score per member). */
module StorageClient {
  import opened Wrappers
  import Text
  import Sorting

  /** A hash as HGETALL hands it back (decode_responses=True). */
  type Record = map<string, string>

  /** Why a facade call raises before it writes anything. */
  datatype StorageError =
    | MissingField(field: string)      // KeyError on the record passed in, or in a sort key
    | InvalidTimestamp(value: string)  // datetime.fromisoformat raises ValueError

  // ============================================================= key schema

  const UsersIndex: string := "users"
  const RolesIndex: string := "roles"
  const FilesIndex: string := "files"
  const ObservablesIndex: string := "observables"
  const TasksIndex: string := "tasks"
  const SuspiciousList: string := "suspicious_observables"
  const LegitimateList: string := "legitimate_observables"

  const SessionId: string := "session_id"
  const LastSeen: string := "last_seen"
  const RoleName: string := "name"
  const Sha256: string := "sha256"
  const ObservableType: string := "observable_type"
  const WarningList: string := "warninglist"
  const Uuid: string := "uuid"
  const SaveDate: string := "save_date"
  const TaskUuid: string := "task_uuid"
  const WorkerName: string := "worker_name"
  const Status: string := "status"

  /** Keys built from an id carry a ':'; the fixed index keys do not. */
  predicate Composed(key: string) { ':' in key }

  function UserKey(sessionId: string): (key: string)
    ensures Composed(key) && SessionHashKey(key)
  {
    var key := "users:" + sessionId;
    assert key[5] == ':';
    key
  }

  function RoleKey(name: string): (key: string)
    ensures Composed(key)
  {
    var key := "roles:" + name;
    assert key[5] == ':';
    key
  }

  /** The composite primary key of an observable. */
  function ObservableId(sha256: string, observableType: string): (id: string)
    ensures |id| == |sha256| + 1 + |observableType|
    ensures id[..|sha256|] == sha256 && id[|sha256|] == '-' && id[|sha256| + 1..] == observableType
  {
    sha256 + "-" + observableType
  }

  function ObservableKey(identifier: string): (key: string)
    ensures Composed(key)
  {
    var key := "observables:" + identifier;
    assert key[11] == ':';
    key
  }

  function TaskObservablesKey(taskUuid: string): (key: string)
    ensures Composed(key)
  {
    var key := taskUuid + ":observables";
    assert key[|taskUuid|] == ':';
    key
  }

  function FileKey(uuid: string): (key: string)
    ensures Composed(key)
  {
    var key := "files:" + uuid;
    assert key[5] == ':';
    key
  }

  function TaskKey(uuid: string): (key: string)
    ensures Composed(key) && TaskHashKey(key)
  {
    var key := "tasks:" + uuid;
    assert key[5] == ':';
    key
  }

  function ExtractedKey(uuid: string): (key: string)
    ensures Composed(key)
  {
    var key := "tasks:" + uuid + ":extracted";
    assert key[5] == ':';
    key
  }

  function ReportKey(taskUuid: string, workerName: string): (key: string)
    ensures Composed(key)
  {
    var key := "reports:" + taskUuid + "-" + workerName;
    assert key[7] == ':';
    key
  }

  /** A sha256 digest has no '-', so the observable identifier splits
      back into its two parts. */
  lemma {:induction false} ObservableIdInjective(sha1: string, type1: string, sha2: string, type2: string)
    requires '-' !in sha1 && '-' !in sha2
    requires ObservableId(sha1, type1) == ObservableId(sha2, type2)
    ensures sha1 == sha2 && type1 == type2
  {
    var id := ObservableId(sha1, type1);
    assert id == ObservableId(sha2, type2);
    forall k | 0 <= k < |sha1| ensures id[k] != '-' { assert id[k] == sha1[k]; }
    forall k | 0 <= k < |sha2| ensures id[k] != '-' { assert id[k] == sha2[k]; }
    assert id[|sha1|] == '-' && id[|sha2|] == '-';
    assert |sha1| == |sha2|;
    assert sha1 == id[..|sha1|] && sha2 == id[..|sha2|];
    assert type1 == id[|sha1| + 1..] && type2 == id[|sha2| + 1..];
  }

  /** Task uuids all have one length, so the report key determines the
      task and the worker. */
  lemma {:induction false} ReportKeyInjective(task1: string, worker1: string, task2: string, worker2: string)
    requires |task1| == |task2|
    requires ReportKey(task1, worker1) == ReportKey(task2, worker2)
    ensures task1 == task2 && worker1 == worker2
  {
    var key := ReportKey(task1, worker1);
    assert key == "reports:" + task1 + "-" + worker1;
    assert key == "reports:" + task2 + "-" + worker2;
    assert task1 == key[8..8 + |task1|] && task2 == key[8..8 + |task2|];
    assert worker1 == key[9 + |task1|..] && worker2 == key[9 + |task2|..];
  }

  /** Without that length discipline the '-' separator is ambiguous. */
  lemma ReportKeyAmbiguous()
    ensures ReportKey("a-b", "c") == ReportKey("a", "b-c")
  {
  }

  /** Ids that themselves contain ':' make two entities' keys meet. */
  lemma ComposedKeysCollide()
    ensures TaskKey("p:extracted") == ExtractedKey("p")
    ensures UserKey("observables") == TaskObservablesKey("users")
  {
  }

  /** Keys that may hold a hash, a set or a sorted set: a fixed index
      key only ever holds its own kind. */
  predicate HashKey(key: string) { key == SuspiciousList || key == LegitimateList || Composed(key) }
  predicate SetKey(key: string) { key == UsersIndex || key == RolesIndex || key == FilesIndex || Composed(key) }
  predicate ZSetKey(key: string) { key == ObservablesIndex || key == TasksIndex }

  /** The keys of the session hashes, `users:{session_id}`. */
  predicate SessionHashKey(key: string) { "users:" <= key }
  /** The keys of the task hashes, `tasks:{uuid}`. */
  predicate TaskHashKey(key: string) { "tasks:" <= key }

  lemma FixedKeysAreNoTaskKeys()
    ensures !TaskHashKey(UsersIndex)
    ensures !TaskHashKey(SuspiciousList) && !TaskHashKey(LegitimateList)
  {
    assert SuspiciousList[0] != "tasks:"[0] && LegitimateList[0] != "tasks:"[0];
  }

  lemma SessionKeyIsNoTaskKey(key: string)
    requires SessionHashKey(key)
    ensures !TaskHashKey(key)
  {
    assert key[0] == "users:"[0];
  }

  /** `str(x)` in an f-string, for an argument that may be None. */
  function Formatted(x: Option<string>): string
  {
    if x.None? then "None" else x.value
  }

  /** The identifier get_observable looks up: a non-empty `identifier`
      wins; otherwise (None or "") it is composed from the two parts. */
  function LookupIdentifier(sha256: Option<string>, observableType: Option<string>, identifier: Option<string>): (id: string)
    ensures id != ""
  {
    if identifier.Some? && identifier.value != "" then identifier.value
    else
      var id := Formatted(sha256) + "-" + Formatted(observableType);
      assert id[|Formatted(sha256)|] == '-';
      id
  }

  /** The key get_observable(identifier=id) reads. */
  function IdentifierKey(identifier: string): string
  {
    ObservableKey(LookupIdentifier(None, None, Some(identifier)))
  }

  // ================================================ Redis primitives on values

  /** HGETALL: a missing key reads as the empty hash. */
  function HashOf(hashes: map<string, Record>, key: string): Record
  {
    if key in hashes then hashes[key] else map[]
  }

  /** SMEMBERS: a missing key reads as the empty set. */
  function MembersOf(sets: map<string, set<string>>, key: string): set<string>
  {
    if key in sets then sets[key] else {}
  }

  /** The member-to-score map of a sorted set; empty when missing. */
  function ScoresOf(zsets: map<string, map<string, int>>, key: string): map<string, int>
  {
    if key in zsets then zsets[key] else map[]
  }

  /** Redis removes a key once its hash, set or sorted set is empty. */
  ghost predicate NoEmptyValues(hashes: map<string, Record>, sets: map<string, set<string>>, zsets: map<string, map<string, int>>)
  {
    && (forall k | k in hashes :: hashes[k] != map[])
    && (forall k | k in sets :: sets[k] != {})
    && (forall k | k in zsets :: zsets[k] != map[])
  }

  /** Each fixed index key holds only its own kind. */
  ghost predicate IndexKeysTyped(hashes: map<string, Record>, sets: map<string, set<string>>, zsets: map<string, map<string, int>>)
  {
    && (forall k | k in hashes :: HashKey(k) || !(SetKey(k) || ZSetKey(k)))
    && (forall k | k in sets :: SetKey(k) || !(HashKey(k) || ZSetKey(k)))
    && (forall k | k in zsets :: ZSetKey(k) || !(HashKey(k) || SetKey(k)))
  }

  /** Every scored task has a hash that carries save_date: set_task
      writes the hash and the score together, set_report drops only
      `status`, and no other facade call writes or deletes a task hash. */
  ghost predicate TasksDated(hashes: map<string, Record>, zsets: map<string, map<string, int>>)
  {
    forall u | u in ScoresOf(zsets, TasksIndex) :: SaveDate in HashOf(hashes, TaskKey(u))
  }

  /** Dropping a session hash leaves every task hash in place. */
  lemma DropSessionKeepsTasksDated(hashes: map<string, Record>, zsets: map<string, map<string, int>>, key: string)
    requires TasksDated(hashes, zsets) && SessionHashKey(key)
    ensures TasksDated(hashes - {key}, zsets)
  {
    SessionKeyIsNoTaskKey(key);
    forall u | u in ScoresOf(zsets, TasksIndex) ensures SaveDate in HashOf(hashes - {key}, TaskKey(u)) {
      assert TaskKey(u) != key;
    }
  }

  /** Only session hashes are given a time to live. */
  ghost predicate OnlySessionsExpire(ttls: map<string, int>)
  {
    forall k | k in ttls :: SessionHashKey(k)
  }

  /** HSET key mapping=fields (what hmset does): fields are merged into
      the existing hash, the other fields stay. */
  function HashesAfterHSet(hashes: map<string, Record>, key: string, fields: Record): (r: map<string, Record>)
    requires fields != map[]
    ensures HashOf(r, key) == HashOf(hashes, key) + fields
    ensures forall k | k != key :: HashOf(r, k) == HashOf(hashes, k)
    ensures r.Keys == hashes.Keys + {key}
    ensures (forall k | k in hashes :: hashes[k] != map[]) ==> forall k | k in r :: r[k] != map[]
  {
    hashes[key := HashOf(hashes, key) + fields]
  }

  /** Merging a one-field mapping sets that one field. */
  lemma MergeOneField(fields: Record, field: string, value: string)
    ensures fields + map[field := value] == fields[field := value]
  {
  }

  /** HDEL key field: the key disappears with its last field. */
  function HashesAfterHDel(hashes: map<string, Record>, key: string, field: string): (r: map<string, Record>)
    ensures HashOf(r, key) == HashOf(hashes, key) - {field}
    ensures forall k | k != key :: HashOf(r, k) == HashOf(hashes, k)
    ensures r.Keys <= hashes.Keys
    ensures key in r <==> HashOf(hashes, key) - {field} != map[]
    ensures (forall k | k in hashes :: hashes[k] != map[]) ==> forall k | k in r :: r[k] != map[]
  {
    var rest := HashOf(hashes, key) - {field};
    if rest == map[] then hashes - {key} else hashes[key := rest]
  }

  /** HSET followed by HDEL of one field on the same key leaves the merge
      without that field, provided something remains. */
  lemma HSetThenHDel(hashes: map<string, Record>, key: string, fields: Record, field: string)
    requires fields != map[] && (HashOf(hashes, key) + fields) - {field} != map[]
    ensures HashesAfterHDel(HashesAfterHSet(hashes, key, fields), key, field)
              == hashes[key := (HashOf(hashes, key) + fields) - {field}]
  {
  }

  /** SADD key member. */
  function SetsAfterSAdd(sets: map<string, set<string>>, key: string, member: string): (r: map<string, set<string>>)
    ensures MembersOf(r, key) == MembersOf(sets, key) + {member}
    ensures forall k | k != key :: MembersOf(r, k) == MembersOf(sets, k)
    ensures r.Keys == sets.Keys + {key}
    ensures (forall k | k in sets :: sets[k] != {}) ==> forall k | k in r :: r[k] != {}
  {
    sets[key := MembersOf(sets, key) + {member}]
  }

  /** SREM key members...: the key disappears with its last member. */
  function SetsAfterSRem(sets: map<string, set<string>>, key: string, members: set<string>): (r: map<string, set<string>>)
    ensures MembersOf(r, key) == MembersOf(sets, key) - members
    ensures forall k | k != key :: MembersOf(r, k) == MembersOf(sets, k)
    ensures r.Keys <= sets.Keys
    ensures (forall k | k in sets :: sets[k] != {}) ==> forall k | k in r :: r[k] != {}
  {
    var rest := MembersOf(sets, key) - members;
    if rest == {} then sets - {key} else sets[key := rest]
  }

  /** ZADD key {member: score}: adds the member or moves it to the new score. */
  function ZSetsAfterZAdd(zsets: map<string, map<string, int>>, key: string, member: string, score: int): (r: map<string, map<string, int>>)
    ensures ScoresOf(r, key) == ScoresOf(zsets, key)[member := score]
    ensures forall k | k != key :: ScoresOf(r, k) == ScoresOf(zsets, k)
    ensures r.Keys == zsets.Keys + {key}
    ensures (forall k | k in zsets :: zsets[k] != map[]) ==> forall k | k in r :: r[k] != map[]
  {
    var updated := ScoresOf(zsets, key)[member := score];
    assert member in updated;
    zsets[key := updated]
  }

  /** One end of a ZRANGEBYSCORE / ZCOUNT interval; finite ends are inclusive. */
  datatype ScoreBound = NegInf | Score(value: int) | PosInf

  predicate InRange(score: int, min: ScoreBound, max: ScoreBound)
  {
    && (match min case NegInf => true case Score(v) => v <= score case PosInf => false)
    && (match max case NegInf => false case Score(v) => score <= v case PosInf => true)
  }

  /** The members of a sorted set whose score lies in [min, max]. */
  function MembersInRange(scores: map<string, int>, min: ScoreBound, max: ScoreBound): set<string>
  {
    set m | m in scores && InRange(scores[m], min, max)
  }

  /** Nothing is in range exactly when no score falls in the interval. */
  lemma MembersInRangeEmpty(scores: map<string, int>, min: ScoreBound, max: ScoreBound)
    ensures MembersInRange(scores, min, max) == {} <==> forall u | u in scores :: !InRange(scores[u], min, max)
  {
    forall u | u in scores && InRange(scores[u], min, max) ensures u in MembersInRange(scores, min, max) {
    }
    if MembersInRange(scores, min, max) != {} {
      var u :| u in MembersInRange(scores, min, max);
      assert u in scores && InRange(scores[u], min, max);
    }
  }

  /** ZREVRANGEBYSCORE order: higher score first, equal scores in reverse
      lexicographic order of the member. */
  predicate RevScoreBefore(scores: map<string, int>, a: string, b: string)
  {
    var sa := if a in scores then scores[a] else 0;
    var sb := if b in scores then scores[b] else 0;
    sa > sb || (sa == sb && Text.Less(b, a))
  }

  function ByScoreDescending(scores: map<string, int>): (string, string) -> bool
  {
    (a, b) => RevScoreBefore(scores, a, b)
  }

  lemma ByScoreDescendingIsStrictTotal(scores: map<string, int>)
    ensures Sorting.StrictOrder(ByScoreDescending(scores))
    ensures forall a, b :: a != b ==> ByScoreDescending(scores)(a, b) || ByScoreDescending(scores)(b, a)
  {
    var lt := ByScoreDescending(scores);
    forall a ensures !lt(a, a) { Text.LessIrreflexive(a); }
    forall a, b, c | lt(a, b) && lt(b, c) ensures lt(a, c) {
      if Text.Less(b, a) && Text.Less(c, b) { Text.LessTransitive(c, b, a); }
    }
    forall a, b | a != b ensures lt(a, b) || lt(b, a) { Text.LessTotal(a, b); }
  }

  /** sorted() on str: ascending code-point order. */
  function ByNameAscending(): (string, string) -> bool
  {
    (a, b) => Text.Less(a, b)
  }

  lemma ByNameAscendingIsStrictTotal()
    ensures Sorting.StrictOrder(ByNameAscending())
    ensures forall a, b :: a != b ==> ByNameAscending()(a, b) || ByNameAscending()(b, a)
  {
    var lt := ByNameAscending();
    forall a ensures !lt(a, a) { Text.LessIrreflexive(a); }
    forall a, b, c | lt(a, b) && lt(b, c) ensures lt(a, c) { Text.LessTransitive(a, b, c); }
    forall a, b | a != b ensures lt(a, b) || lt(b, a) { Text.LessTotal(a, b); }
  }

  /** sorted() of distinct names: the same names, strictly ascending. */
  function SortNames(names: seq<string>): (sorted: seq<string>)
    requires Sorting.Distinct(names)
    ensures multiset(sorted) == multiset(names)
    ensures Sorting.Distinct(sorted)
    ensures forall n :: n in sorted <==> n in names
    ensures forall i, j :: 0 <= i < j < |sorted| ==> Text.Less(sorted[i], sorted[j])
  {
    var sorted := Sorting.Sort(names, ByNameAscending());
    ByNameAscendingIsStrictTotal();
    Sorting.SortSorted(names, ByNameAscending());
    Sorting.DistinctPermutation(names, sorted);
    Sorting.SortedDistinctStrict(sorted, ByNameAscending());
    assert forall n :: n in sorted <==> n in multiset(names);
    sorted
  }

  /** The order ZREVRANGEBYSCORE returns distinct members in. */
  function SortByScoreDescending(scores: map<string, int>, members: seq<string>): (sorted: seq<string>)
    requires Sorting.Distinct(members)
    ensures multiset(sorted) == multiset(members)
    ensures Sorting.Distinct(sorted)
    ensures forall m :: m in sorted <==> m in members
    ensures forall i, j :: 0 <= i < j < |sorted| ==> RevScoreBefore(scores, sorted[i], sorted[j])
  {
    var sorted := Sorting.Sort(members, ByScoreDescending(scores));
    ByScoreDescendingIsStrictTotal(scores);
    Sorting.SortSorted(members, ByScoreDescending(scores));
    Sorting.DistinctPermutation(members, sorted);
    Sorting.SortedDistinctStrict(sorted, ByScoreDescending(scores));
    assert forall m :: m in sorted <==> m in multiset(members);
    sorted
  }

  function FieldOr(r: Record, field: string): string
  {
    if field in r then r[field] else ""
  }

  /** key=operator.itemgetter(field), reverse=True: a greater field value goes first. */
  function ByFieldDescending(field: string): (Record, Record) -> bool
  {
    (a, b) => Text.Less(FieldOr(b, field), FieldOr(a, field))
  }

  /** Comparing one field is a strict weak order: records with equal
      values are tied. */
  lemma ByFieldDescendingIsStrictOrder(field: string)
    ensures Sorting.StrictWeakOrder(ByFieldDescending(field))
  {
    var lt := ByFieldDescending(field);
    forall a ensures !lt(a, a) { Text.LessIrreflexive(FieldOr(a, field)); }
    forall a, b, c | lt(a, b) && lt(b, c) ensures lt(a, c) {
      Text.LessTransitive(FieldOr(c, field), FieldOr(b, field), FieldOr(a, field));
    }
    forall a, b, c | lt(a, b) ensures lt(a, c) || lt(c, b) {
      var fa, fb, fc := FieldOr(a, field), FieldOr(b, field), FieldOr(c, field);
      Text.LessTotal(fa, fc);
      if Text.Less(fa, fc) { Text.LessTransitive(fb, fa, fc); }
    }
  }

  /** Every record carries `field`, and no later value exceeds an earlier one. */
  ghost predicate DescendingBy(records: seq<Record>, field: string)
  {
    forall i, j :: 0 <= i < j < |records| ==>
      field in records[i] && field in records[j] && !Text.Less(records[i][field], records[j][field])
  }

  /** Sorting records that all carry `field` puts greater values first. */
  lemma SortByFieldOrdersDescending(records: seq<Record>, field: string)
    requires forall i :: 0 <= i < |records| ==> field in records[i]
    ensures DescendingBy(Sorting.Sort(records, ByFieldDescending(field)), field)
  {
    var lt := ByFieldDescending(field);
    var sorted := Sorting.Sort(records, lt);
    ByFieldDescendingIsStrictOrder(field);
    Sorting.SortSorted(records, lt);
    forall x | x in sorted ensures field in x {
      assert x in multiset(records);
    }
    forall i, j | 0 <= i < j < |sorted|
      ensures field in sorted[i] && field in sorted[j] && !Text.Less(sorted[i][field], sorted[j][field])
    {
      assert !lt(sorted[j], sorted[i]);
    }
  }

  /** `records.sort(key=operator.itemgetter(field), reverse=True)`: every
      key is fetched before anything moves, so one record without the
      field raises KeyError; otherwise a stable sort, greatest value first. */
  function SortByFieldDescending(records: seq<Record>, field: string): (r: Result<seq<Record>, StorageError>)
    ensures r.Failure? <==> exists i :: 0 <= i < |records| && field !in records[i]
    ensures r.Failure? ==> r.error == MissingField(field)
    ensures r.Success? ==> multiset(r.value) == multiset(records)
    ensures r.Success? ==> DescendingBy(r.value, field)
  {
    if exists i :: 0 <= i < |records| && field !in records[i] then Failure(MissingField(field))
    else
      SortByFieldOrdersDescending(records, field);
      Success(Sorting.Sort(records, ByFieldDescending(field)))
  }

  /** Sorting one record that carries the field returns it. */
  lemma SortOne(record: Record, field: string)
    requires field in record
    ensures SortByFieldDescending([record], field) == Success([record])
  {
    var lt := ByFieldDescending(field);
    assert [record][..0] == [];
    assert Sorting.Sort([record], lt) == Sorting.Insert([], record, lt) == [record];
  }

  /** Selects the records whose field holds `value`. */
  function WithValue(field: string, value: string): Record -> bool
  {
    rec => FieldOr(rec, field) == value
  }

  /** The sort is stable: records with the same value of the field keep
      the order they came in, so get_tasks lists tasks saved at the same
      instant in ZREVRANGEBYSCORE order. */
  lemma SortByFieldStable(records: seq<Record>, field: string, value: string)
    ensures var r := SortByFieldDescending(records, field);
            r.Success? ==> Sorting.Filter(r.value, WithValue(field, value)) == Sorting.Filter(records, WithValue(field, value))
  {
    var lt, tie := ByFieldDescending(field), WithValue(field, value);
    ByFieldDescendingIsStrictOrder(field);
    forall a, b | tie(a) && tie(b) ensures !lt(a, b) { Text.LessIrreflexive(value); }
    Sorting.SortStable(records, lt, tie);
  }

  /** The hashes behind a sequence of ids, one per id, in order; a
      missing hash reads as {}. */
  function Resolve(hashes: map<string, Record>, keyOf: string -> string, ids: seq<string>): (r: seq<Record>)
    ensures |r| == |ids|
    ensures forall i :: 0 <= i < |ids| ==> r[i] == HashOf(hashes, keyOf(ids[i]))
  {
    seq(|ids|, i requires 0 <= i < |ids| => HashOf(hashes, keyOf(ids[i])))
  }

  /** Iteration over an unordered set: every member once, in an order
      that the store decides. */
  method SeqOfSet(s: set<string>) returns (members: seq<string>)
    ensures Sorting.Distinct(members)
    ensures forall m :: m in members <==> m in s
  {
    var rest := s;
    members := [];
    while rest != {}
      invariant rest <= s
      invariant Sorting.Distinct(members)
      invariant forall m :: m in members <==> m in s && m !in rest
      decreases rest
    {
      var m :| m in rest;
      members := members + [m];
      rest := rest - {m};
    }
  }

  // ========================================================== the facade

  class Storage {
    var hashes: map<string, Record>
    var sets: map<string, set<string>>
    var zsets: map<string, map<string, int>>
    /** The keys that carry a time to live, with its length in seconds. */
    var ttls: map<string, int>

    /** get_config('generic', 'session_expire'). */
    const sessionExpire: int
    /** datetime.fromisoformat(s).timestamp(); None where it raises. */
    const parseTimestamp: string -> Option<int>

    ghost predicate Valid()
      reads this
    {
      && NoEmptyValues(hashes, sets, zsets)
      && IndexKeysTyped(hashes, sets, zsets)
      && ttls.Keys <= hashes.Keys
      && TasksDated(hashes, zsets)
      && OnlySessionsExpire(ttls)
    }

    /** A handle on an empty store. */
    constructor (sessionExpire: int, parseTimestamp: string -> Option<int>)
      ensures Valid()
      ensures hashes == map[] && sets == map[] && zsets == map[] && ttls == map[]
      ensures this.sessionExpire == sessionExpire && this.parseTimestamp == parseTimestamp
    {
      hashes, sets, zsets, ttls := map[], map[], map[], map[];
      this.sessionExpire := sessionExpire;
      this.parseTimestamp := parseTimestamp;
    }

    // ------------------------------------------------- store primitives

    function HGetAll(key: string): (fields: Record)
      reads this
      ensures key !in hashes ==> fields == map[]
      ensures key in hashes ==> fields == hashes[key]
    {
      HashOf(hashes, key)
    }

    /** EXISTS key. */
    function Exists(key: string): (b: bool)
      reads this
      requires Valid()
      ensures b <==> HashOf(hashes, key) != map[] || MembersOf(sets, key) != {} || ScoresOf(zsets, key) != map[]
    {
      key in hashes || key in sets || key in zsets
    }

    method HSet(key: string, fields: Record)
      requires Valid() && HashKey(key) && fields != map[]
      modifies this
      ensures Valid()
      ensures hashes == HashesAfterHSet(old(hashes), key, fields)
      ensures sets == old(sets) && zsets == old(zsets) && ttls == old(ttls)
    {
      hashes := HashesAfterHSet(hashes, key, fields);
    }

    method HDel(key: string, field: string)
      requires Valid() && (field == SaveDate ==> !TaskHashKey(key))
      modifies this
      ensures Valid()
      ensures hashes == HashesAfterHDel(old(hashes), key, field)
      ensures ttls == if key in hashes then old(ttls) else old(ttls) - {key}
      ensures sets == old(sets) && zsets == old(zsets)
    {
      hashes := HashesAfterHDel(hashes, key, field);
      if key !in hashes {
        ttls := ttls - {key};
      }
    }

    /** EXPIRE key seconds; a non-positive timeout deletes the key. */
    method Expire(key: string, seconds: int)
      requires Valid() && key in hashes && SessionHashKey(key)
      modifies this
      ensures Valid()
      ensures seconds > 0 ==> hashes == old(hashes) && ttls == old(ttls)[key := seconds]
      ensures seconds <= 0 ==> hashes == old(hashes) - {key} && ttls == old(ttls) - {key}
      ensures sets == old(sets) && zsets == old(zsets)
    {
      if seconds > 0 {
        ttls := ttls[key := seconds];
      } else {
        DropSessionKeepsTasksDated(hashes, zsets, key);
        hashes := hashes - {key};
        ttls := ttls - {key};
      }
    }

    method SAdd(key: string, member: string)
      requires Valid() && SetKey(key)
      modifies this
      ensures Valid()
      ensures sets == SetsAfterSAdd(old(sets), key, member)
      ensures hashes == old(hashes) && zsets == old(zsets) && ttls == old(ttls)
    {
      sets := SetsAfterSAdd(sets, key, member);
    }

    method SRem(key: string, members: set<string>)
      requires Valid()
      modifies this
      ensures Valid()
      ensures sets == SetsAfterSRem(old(sets), key, members)
      ensures hashes == old(hashes) && zsets == old(zsets) && ttls == old(ttls)
    {
      sets := SetsAfterSRem(sets, key, members);
    }

    method ZAdd(key: string, member: string, score: int)
      requires Valid() && ZSetKey(key)
      requires key == TasksIndex ==> SaveDate in HashOf(hashes, TaskKey(member))
      modifies this
      ensures Valid()
      ensures zsets == ZSetsAfterZAdd(old(zsets), key, member, score)
      ensures hashes == old(hashes) && sets == old(sets) && ttls == old(ttls)
    {
      zsets := ZSetsAfterZAdd(zsets, key, member, score);
    }

    /** DEL keys...: each key goes, whatever it holds. */
    method Delete(keys: set<string>)
      requires Valid() && forall k | k in keys :: !TaskHashKey(k)
      modifies this
      ensures Valid()
      ensures hashes == old(hashes) - keys && sets == old(sets) - keys
      ensures zsets == old(zsets) - keys && ttls == old(ttls) - keys
    {
      hashes, sets, zsets, ttls := hashes - keys, sets - keys, zsets - keys, ttls - keys;
    }

    method SMembers(key: string) returns (members: seq<string>)
      ensures Sorting.Distinct(members)
      ensures forall m :: m in members <==> m in MembersOf(sets, key)
    {
      members := SeqOfSet(MembersOf(sets, key));
    }

    /** HGETALL of each id's key in turn, as the listing loops do. */
    method FetchEach(keyOf: string -> string, ids: seq<string>) returns (records: seq<Record>)
      ensures records == Resolve(hashes, keyOf, ids)
    {
      records := [];
      var i := 0;
      while i < |ids|
        invariant 0 <= i <= |ids|
        invariant records == Resolve(hashes, keyOf, ids[..i])
      {
        records := records + [HGetAll(keyOf(ids[i]))];
        i := i + 1;
      }
      assert ids[..i] == ids;
    }

    /** ZREVRANGEBYSCORE key max min. */
    method ZRevRangeByScore(key: string, min: ScoreBound, max: ScoreBound) returns (members: seq<string>)
      ensures Sorting.Distinct(members)
      ensures forall m :: m in members <==> m in MembersInRange(ScoresOf(zsets, key), min, max)
      ensures forall i, j :: 0 <= i < j < |members| ==> RevScoreBefore(ScoresOf(zsets, key), members[i], members[j])
    {
      var scores := ScoresOf(zsets, key);
      var unordered := SeqOfSet(MembersInRange(scores, min, max));
      members := SortByScoreDescending(scores, unordered);
    }

    /** The time to live of a key runs out: Redis drops the key. This is
        the store acting, not a facade call. */
    method ExpireElapsed(key: string)
      requires Valid() && key in ttls
      modifies this
      ensures Valid()
      ensures hashes == old(hashes) - {key} && ttls == old(ttls) - {key}
      ensures sets == old(sets) && zsets == old(zsets)
    {
      DropSessionKeepsTasksDated(hashes, zsets, key);
      hashes := hashes - {key};
      ttls := ttls - {key};
    }

    // ----------------------------------------------------------- users

    /** get_user: the session's hash; {} once it is gone. */
    function GetUser(userId: string): (user: Record)
      reads this
      requires Valid()
      ensures user == map[] <==> UserKey(userId) !in hashes
    {
      HGetAll(UserKey(userId))
    }

    /** set_user: merges the record into users:{session_id}, (re)starts
        its time to live and indexes the session id. */
    method SetUser(user: Record) returns (o: Outcome<StorageError>)
      requires Valid()
      modifies this
      ensures Valid()
      ensures o == if SessionId in user then Pass else Fail(MissingField(SessionId))
      ensures o.Fail? ==> unchanged(this)
      ensures o.Pass? ==>
                var id := user[SessionId];
                var key := UserKey(id);
                && sets == SetsAfterSAdd(old(sets), UsersIndex, id)
                && zsets == old(zsets)
                && (sessionExpire > 0 ==> hashes == HashesAfterHSet(old(hashes), key, user) && ttls == old(ttls)[key := sessionExpire])
                && (sessionExpire <= 0 ==> hashes == old(hashes) - {key} && ttls == old(ttls) - {key})
      ensures o.Pass? && sessionExpire > 0 ==>
                && GetUser(user[SessionId]) == old(GetUser(user[SessionId])) + user
                && user[SessionId] in MembersOf(sets, UsersIndex)
    {
      if SessionId !in user {
        return Fail(MissingField(SessionId));
      }
      var id := user[SessionId];
      HSet(UserKey(id), user);
      Expire(UserKey(id), sessionExpire);
      SAdd(UsersIndex, id);
      o := Pass;
    }

    /** The indexed session ids whose hash has vanished (expired). */
    ghost function StaleUsers(): set<string>
      reads this
    {
      set id | id in MembersOf(sets, UsersIndex) && UserKey(id) !in hashes
    }

    /** get_users: reads every indexed session, drops the stale ids from
        the index in one SREM, then sorts the live records by last_seen,
        most recent first. `live` is the iteration order the store chose. */
    method GetUsers() returns (r: Result<seq<Record>, StorageError>, ghost live: seq<string>)
      requires Valid()
      modifies this
      ensures Valid()
      ensures hashes == old(hashes) && zsets == old(zsets) && ttls == old(ttls)
      ensures sets == if old(StaleUsers()) == {} then old(sets) else SetsAfterSRem(old(sets), UsersIndex, old(StaleUsers()))
      ensures MembersOf(sets, UsersIndex) == old(MembersOf(sets, UsersIndex)) - old(StaleUsers())
      ensures Sorting.Distinct(live)
      ensures forall id :: id in live <==> id in old(MembersOf(sets, UsersIndex)) && UserKey(id) in hashes
      ensures r == SortByFieldDescending(Resolve(hashes, UserKey, live), LastSeen)
      ensures r.Success? ==> multiset(r.value) == multiset(Resolve(hashes, UserKey, live))
      ensures r.Success? ==> DescendingBy(r.value, LastSeen)
    {
      var ids := SMembers(UsersIndex);
      var users: seq<Record> := [];
      var toPop: seq<string> := [];
      live := [];
      var i := 0;
      while i < |ids|
        invariant 0 <= i <= |ids|
        invariant users == Resolve(hashes, UserKey, live)
        invariant Sorting.Distinct(live)
        invariant forall id :: id in live <==> id in ids[..i] && UserKey(id) in hashes
        invariant forall id :: id in toPop <==> id in ids[..i] && UserKey(id) !in hashes
      {
        var id := ids[i];
        var user := HGetAll(UserKey(id));
        assert ids[..i + 1] == ids[..i] + [id];
        if user != map[] {
          users := users + [user];
          live := live + [id];
        } else {
          toPop := toPop + [id];
        }
        i := i + 1;
      }
      assert ids[..i] == ids;
      ghost var stale := StaleUsers();
      assert stale == old(StaleUsers()) && sets == old(sets);
      var gone := set id | id in toPop;
      forall id ensures id in gone <==> id in stale {
      }
      assert gone == stale;
      if toPop != [] {
        assert toPop[0] in stale;
        SRem(UsersIndex, gone);
      } else {
        assert stale == {};
      }
      r := SortByFieldDescending(users, LastSeen);
    }

    /** del_users: deletes users:{id} for every indexed id, and the index. */
    method DelUsers()
      requires Valid()
      modifies this
      ensures Valid()
      ensures var doomed := (set id | id in old(MembersOf(sets, UsersIndex)) :: UserKey(id)) + {UsersIndex};
              && hashes == old(hashes) - doomed && sets == old(sets) - doomed
              && zsets == old(zsets) - doomed && ttls == old(ttls) - doomed
      ensures forall id | id in old(MembersOf(sets, UsersIndex)) :: GetUser(id) == map[]
      ensures MembersOf(sets, UsersIndex) == {}
    {
      var ids := SMembers(UsersIndex);
      var toDelete := seq(|ids|, i requires 0 <= i < |ids| => UserKey(ids[i])) + [UsersIndex];
      ghost var doomed := (set id | id in MembersOf(sets, UsersIndex) :: UserKey(id)) + {UsersIndex};
      forall k | k in doomed ensures k in toDelete {
        if k == UsersIndex {
          assert toDelete[|ids|] == k;
        } else {
          var id :| id in MembersOf(sets, UsersIndex) && k == UserKey(id);
          var j :| 0 <= j < |ids| && ids[j] == id;
          assert toDelete[j] == k;
        }
      }
      forall k | k in toDelete ensures k in doomed && !TaskHashKey(k) {
        var j :| 0 <= j < |toDelete| && toDelete[j] == k;
        if j < |ids| {
          assert ids[j] in MembersOf(sets, UsersIndex);
          SessionKeyIsNoTaskKey(k);
        } else {
          FixedKeysAreNoTaskKeys();
        }
      }
      Delete(set k | k in toDelete);
    }

    // ----------------------------------------------------------- roles

    function GetRole(roleName: string): (role: Record)
      reads this
      requires Valid()
      ensures role == map[] <==> RoleKey(roleName) !in hashes
    {
      HGetAll(RoleKey(roleName))
    }

    /** get_roles: one hash per indexed role name, names in ascending
        order; a missing hash shows up as {}. */
    method GetRoles() returns (roles: seq<Record>, ghost names: seq<string>)
      requires Valid()
      ensures forall n :: n in names <==> n in MembersOf(sets, RolesIndex)
      ensures forall i, j :: 0 <= i < j < |names| ==> Text.Less(names[i], names[j])
      ensures roles == Resolve(hashes, RoleKey, names)
      ensures |roles| == |MembersOf(sets, RolesIndex)|
    {
      var members := SMembers(RolesIndex);
      var sorted := SortNames(members);
      roles := FetchEach(RoleKey, sorted);
      names := sorted;
      Sorting.DistinctCardinality(names);
      assert (set n | n in names) == MembersOf(sets, RolesIndex);
    }

    /** set_role: merges the record into roles:{name} and indexes the name. */
    method SetRole(role: Record) returns (o: Outcome<StorageError>)
      requires Valid()
      modifies this
      ensures Valid()
      ensures o == if RoleName in role then Pass else Fail(MissingField(RoleName))
      ensures o.Fail? ==> unchanged(this)
      ensures o.Pass? ==>
                && hashes == HashesAfterHSet(old(hashes), RoleKey(role[RoleName]), role)
                && sets == SetsAfterSAdd(old(sets), RolesIndex, role[RoleName])
                && zsets == old(zsets) && ttls == old(ttls)
      ensures o.Pass? ==> GetRole(role[RoleName]) == old(GetRole(role[RoleName])) + role && HasRoles()
    {
      if RoleName !in role {
        return Fail(MissingField(RoleName));
      }
      HSet(RoleKey(role[RoleName]), role);
      SAdd(RolesIndex, role[RoleName]);
      o := Pass;
    }

    /** has_roles: `exists('roles')`, true exactly when some role name is indexed. */
    function HasRoles(): (b: bool)
      reads this
      requires Valid()
      ensures b <==> MembersOf(sets, RolesIndex) != {}
    {
      Exists(RolesIndex)
    }

    // ----------------------------------------------------- observables

    /** set_observable: parses last_seen first, then merges the record
        into observables:{sha256}-{observable_type}, drops a legacy
        `warninglist` field and scores the identifier by last_seen. */
    method SetObservable(observable: Record) returns (o: Outcome<StorageError>)
      requires Valid()
      modifies this
      ensures Valid()
      ensures o == if LastSeen !in observable then Fail(MissingField(LastSeen))
                   else if parseTimestamp(observable[LastSeen]).None? then Fail(InvalidTimestamp(observable[LastSeen]))
                   else if Sha256 !in observable then Fail(MissingField(Sha256))
                   else if ObservableType !in observable then Fail(MissingField(ObservableType))
                   else Pass
      ensures o.Fail? ==> unchanged(this)
      ensures o.Pass? ==>
                var identifier := ObservableId(observable[Sha256], observable[ObservableType]);
                var key := ObservableKey(identifier);
                && hashes == old(hashes)[key := (old(HashOf(hashes, key)) + observable) - {WarningList}]
                && zsets == ZSetsAfterZAdd(old(zsets), ObservablesIndex, identifier, parseTimestamp(observable[LastSeen]).value)
                && sets == old(sets) && ttls == old(ttls)
      ensures o.Pass? ==>
                var stored := GetObservable(Some(observable[Sha256]), Some(observable[ObservableType]));
                && WarningList !in stored
                && (forall f | f in observable && f != WarningList :: f in stored && stored[f] == observable[f])
    {
      if LastSeen !in observable {
        return Fail(MissingField(LastSeen));
      }
      var timestamp := parseTimestamp(observable[LastSeen]);
      if timestamp.None? {
        return Fail(InvalidTimestamp(observable[LastSeen]));
      }
      if Sha256 !in observable {
        return Fail(MissingField(Sha256));
      }
      if ObservableType !in observable {
        return Fail(MissingField(ObservableType));
      }
      var identifier := ObservableId(observable[Sha256], observable[ObservableType]);
      var key := ObservableKey(identifier);
      ghost var merged := HashOf(hashes, key) + observable;
      assert LastSeen in merged - {WarningList};
      HSet(key, observable);
      if WarningList in HGetAll(key) {
        HDel(key, WarningList);
        HSetThenHDel(old(hashes), key, observable, WarningList);
      } else {
        assert merged - {WarningList} == merged;
      }
      ZAdd(ObservablesIndex, identifier, timestamp.value);
      o := Pass;
    }

    /** get_observable, by parts or by a precomposed identifier. */
    function GetObservable(sha256: Option<string> := None, observableType: Option<string> := None, identifier: Option<string> := None): (observable: Record)
      reads this
      requires Valid()
      ensures observable == map[] <==> ObservableKey(LookupIdentifier(sha256, observableType, identifier)) !in hashes
    {
      HGetAll(ObservableKey(LookupIdentifier(sha256, observableType, identifier)))
    }

    /** Looking up by the two parts reads the same hash as looking up
        by the identifier they compose; an empty identifier falls back
        to the parts, which default to the text "None". */
    lemma GetObservableByParts(sha256: string, observableType: string)
      requires Valid()
      ensures GetObservable(Some(sha256), Some(observableType))
              == GetObservable(identifier := Some(ObservableId(sha256, observableType)))
      ensures GetObservable(identifier := Some("")) == GetObservable(identifier := Some("None-None"))
    {
      assert ObservableId(sha256, observableType)[|sha256|] == '-';
      assert LookupIdentifier(None, None, Some("")) == "None-None";
    }

    /** get_task_observables: the task's linked observables whose hash
        still exists; the link set itself is left as it is. */
    method GetTaskObservables(taskUuid: string) returns (observables: seq<Record>, ghost ids: seq<string>)
      requires Valid()
      ensures Sorting.Distinct(ids)
      ensures forall id :: id in ids <==> id in MembersOf(sets, TaskObservablesKey(taskUuid)) && GetObservable(identifier := Some(id)) != map[]
      ensures observables == Resolve(hashes, IdentifierKey, ids)
      ensures forall i :: 0 <= i < |observables| ==> observables[i] != map[]
    {
      var members := SMembers(TaskObservablesKey(taskUuid));
      observables := [];
      ids := [];
      var i := 0;
      while i < |members|
        invariant 0 <= i <= |members|
        invariant observables == Resolve(hashes, IdentifierKey, ids)
        invariant Sorting.Distinct(ids)
        invariant forall id :: id in ids <==> id in members[..i] && GetObservable(identifier := Some(id)) != map[]
      {
        var identifier := members[i];
        var observable := GetObservable(identifier := Some(identifier));
        assert members[..i + 1] == members[..i] + [identifier];
        if observable != map[] {
          observables := observables + [observable];
          ids := ids + [identifier];
        }
        i := i + 1;
      }
      assert members[..i] == members;
    }

    /** add_task_observable: links {sha256}-{observable_type} to the task. */
    method AddTaskObservable(taskUuid: string, sha256: string, observableType: string)
      requires Valid()
      modifies this
      ensures Valid()
      ensures sets == SetsAfterSAdd(old(sets), TaskObservablesKey(taskUuid), ObservableId(sha256, observableType))
      ensures hashes == old(hashes) && zsets == old(zsets) && ttls == old(ttls)
    {
      SAdd(TaskObservablesKey(taskUuid), ObservableId(sha256, observableType));
    }

    // ------------------------------------------- observable allow/deny lists

    function GetSuspiciousObservables(): (entries: Record)
      reads this
      requires Valid()
      ensures entries == map[] <==> SuspiciousList !in hashes
    {
      HGetAll(SuspiciousList)
    }

    function GetLegitimateObservables(): (entries: Record)
      reads this
      requires Valid()
      ensures entries == map[] <==> LegitimateList !in hashes
    {
      HGetAll(LegitimateList)
    }

    /** HSET list strip(observable) strip(observable_type). */
    method AddToList(list: string, observable: string, observableType: string)
      requires Valid() && (list == SuspiciousList || list == LegitimateList)
      modifies this
      ensures Valid()
      ensures HGetAll(list) == old(HGetAll(list))[Text.Strip(observable) := Text.Strip(observableType)]
      ensures forall k | k != list :: HGetAll(k) == old(HGetAll(k))
      ensures hashes.Keys == old(hashes.Keys) + {list}
      ensures sets == old(sets) && zsets == old(zsets) && ttls == old(ttls)
    {
      var field, value := Text.Strip(observable), Text.Strip(observableType);
      MergeOneField(HashOf(hashes, list), field, value);
      assert field in map[field := value];
      HSet(list, map[field := value]);
    }

    /** HDEL list strip(observable). */
    method DeleteFromList(list: string, observable: string)
      requires Valid() && (list == SuspiciousList || list == LegitimateList)
      modifies this
      ensures Valid()
      ensures HGetAll(list) == old(HGetAll(list)) - {Text.Strip(observable)}
      ensures forall k | k != list :: HGetAll(k) == old(HGetAll(k))
      ensures hashes.Keys <= old(hashes.Keys)
      ensures sets == old(sets) && zsets == old(zsets)
      ensures ttls == if list in hashes then old(ttls) else old(ttls) - {list}
    {
      FixedKeysAreNoTaskKeys();
      HDel(list, Text.Strip(observable));
    }

    method AddSuspiciousObservable(observable: string, observableType: string)
      requires Valid()
      modifies this
      ensures Valid()
      ensures GetSuspiciousObservables() == old(GetSuspiciousObservables())[Text.Strip(observable) := Text.Strip(observableType)]
      ensures forall k | k != SuspiciousList :: HGetAll(k) == old(HGetAll(k))
      ensures hashes.Keys == old(hashes.Keys) + {SuspiciousList}
      ensures sets == old(sets) && zsets == old(zsets) && ttls == old(ttls)
    {
      AddToList(SuspiciousList, observable, observableType);
    }

    method DeleteSuspiciousObservable(observable: string)
      requires Valid()
      modifies this
      ensures Valid()
      ensures GetSuspiciousObservables() == old(GetSuspiciousObservables()) - {Text.Strip(observable)}
      ensures forall k | k != SuspiciousList :: HGetAll(k) == old(HGetAll(k))
      ensures hashes.Keys <= old(hashes.Keys)
      ensures sets == old(sets) && zsets == old(zsets)
      ensures ttls == if SuspiciousList in hashes then old(ttls) else old(ttls) - {SuspiciousList}
    {
      DeleteFromList(SuspiciousList, observable);
    }

    method AddLegitimateObservable(observable: string, observableType: string)
      requires Valid()
      modifies this
      ensures Valid()
      ensures GetLegitimateObservables() == old(GetLegitimateObservables())[Text.Strip(observable) := Text.Strip(observableType)]
      ensures forall k | k != LegitimateList :: HGetAll(k) == old(HGetAll(k))
      ensures hashes.Keys == old(hashes.Keys) + {LegitimateList}
      ensures sets == old(sets) && zsets == old(zsets) && ttls == old(ttls)
    {
      AddToList(LegitimateList, observable, observableType);
    }

    method DeleteLegitimateObservable(observable: string)
      requires Valid()
      modifies this
      ensures Valid()
      ensures GetLegitimateObservables() == old(GetLegitimateObservables()) - {Text.Strip(observable)}
      ensures forall k | k != LegitimateList :: HGetAll(k) == old(HGetAll(k))
      ensures hashes.Keys <= old(hashes.Keys)
      ensures sets == old(sets) && zsets == old(zsets)
      ensures ttls == if LegitimateList in hashes then old(ttls) else old(ttls) - {LegitimateList}
    {
      DeleteFromList(LegitimateList, observable);
    }

    // ----------------------------------------------------------- files

    function GetFile(fileId: string): (file: Record)
      reads this
      requires Valid()
      ensures file == map[] <==> FileKey(fileId) !in hashes
    {
      HGetAll(FileKey(fileId))
    }

    /** set_file: merges the record into files:{uuid} and indexes the uuid. */
    method SetFile(fileDetails: Record) returns (o: Outcome<StorageError>)
      requires Valid()
      modifies this
      ensures Valid()
      ensures o == if Uuid in fileDetails then Pass else Fail(MissingField(Uuid))
      ensures o.Fail? ==> unchanged(this)
      ensures o.Pass? ==>
                && hashes == HashesAfterHSet(old(hashes), FileKey(fileDetails[Uuid]), fileDetails)
                && sets == SetsAfterSAdd(old(sets), FilesIndex, fileDetails[Uuid])
                && zsets == old(zsets) && ttls == old(ttls)
      ensures o.Pass? ==> GetFile(fileDetails[Uuid]) == old(GetFile(fileDetails[Uuid])) + fileDetails
    {
      if Uuid !in fileDetails {
        return Fail(MissingField(Uuid));
      }
      HSet(FileKey(fileDetails[Uuid]), fileDetails);
      SAdd(FilesIndex, fileDetails[Uuid]);
      o := Pass;
    }

    /** get_files: one hash per indexed uuid, in the store's order,
        without filtering out missing ones. */
    method GetFiles() returns (files: seq<Record>, ghost uuids: seq<string>)
      requires Valid()
      ensures Sorting.Distinct(uuids)
      ensures forall u :: u in uuids <==> u in MembersOf(sets, FilesIndex)
      ensures files == Resolve(hashes, FileKey, uuids)
      ensures |files| == |MembersOf(sets, FilesIndex)|
    {
      var members := SMembers(FilesIndex);
      files := FetchEach(FileKey, members);
      uuids := members;
      Sorting.DistinctCardinality(uuids);
      assert (set u | u in uuids) == MembersOf(sets, FilesIndex);
    }

    // ----------------------------------------------------------- tasks

    function GetTask(taskId: string): (task: Record)
      reads this
      requires Valid()
      ensures task == map[] <==> TaskKey(taskId) !in hashes
    {
      HGetAll(TaskKey(taskId))
    }

    /** set_task: parses save_date first, then merges the record into
        tasks:{uuid} and scores the uuid by save_date. */
    method SetTask(task: Record) returns (o: Outcome<StorageError>)
      requires Valid()
      modifies this
      ensures Valid()
      ensures o == if SaveDate !in task then Fail(MissingField(SaveDate))
                   else if parseTimestamp(task[SaveDate]).None? then Fail(InvalidTimestamp(task[SaveDate]))
                   else if Uuid !in task then Fail(MissingField(Uuid))
                   else Pass
      ensures o.Fail? ==> unchanged(this)
      ensures o.Pass? ==>
                && hashes == HashesAfterHSet(old(hashes), TaskKey(task[Uuid]), task)
                && zsets == ZSetsAfterZAdd(old(zsets), TasksIndex, task[Uuid], parseTimestamp(task[SaveDate]).value)
                && sets == old(sets) && ttls == old(ttls)
      ensures o.Pass? ==> GetTask(task[Uuid]) == old(GetTask(task[Uuid])) + task
    {
      if SaveDate !in task {
        return Fail(MissingField(SaveDate));
      }
      var timestamp := parseTimestamp(task[SaveDate]);
      if timestamp.None? {
        return Fail(InvalidTimestamp(task[SaveDate]));
      }
      if Uuid !in task {
        return Fail(MissingField(Uuid));
      }
      HSet(TaskKey(task[Uuid]), task);
      ZAdd(TasksIndex, task[Uuid], timestamp.value);
      o := Pass;
    }

    /** get_tasks: the tasks scored within [firstDate, lastDate], fetched
        in descending score order (missing hashes included as {}), then
        sorted by save_date, most recent first. */
    method GetTasks(nameonly firstDate: ScoreBound := Score(0), nameonly lastDate: ScoreBound := PosInf) returns (r: Result<seq<Record>, StorageError>, ghost uuids: seq<string>)
      requires Valid()
      ensures Sorting.Distinct(uuids)
      ensures forall u :: u in uuids <==> u in MembersInRange(ScoresOf(zsets, TasksIndex), firstDate, lastDate)
      ensures forall i, j :: 0 <= i < j < |uuids| ==> RevScoreBefore(ScoresOf(zsets, TasksIndex), uuids[i], uuids[j])
      ensures r == SortByFieldDescending(Resolve(hashes, TaskKey, uuids), SaveDate)
      ensures r.Success? && |r.value| == CountTasks(firstDate := firstDate, lastDate := lastDate)
      ensures r.Success? ==> DescendingBy(r.value, SaveDate)
    {
      var ordered := ZRevRangeByScore(TasksIndex, firstDate, lastDate);
      var tasks := FetchEach(TaskKey, ordered);
      uuids := ordered;
      forall i | 0 <= i < |tasks| ensures SaveDate in tasks[i] {
        assert uuids[i] in MembersInRange(ScoresOf(zsets, TasksIndex), firstDate, lastDate);
      }
      r := SortByFieldDescending(tasks, SaveDate);
      Sorting.DistinctCardinality(uuids);
      assert (set u | u in uuids) == MembersInRange(ScoresOf(zsets, TasksIndex), firstDate, lastDate);
    }

    /** count_tasks: ZCOUNT over the same inclusive interval. */
    function CountTasks(nameonly firstDate: ScoreBound := Score(0), nameonly lastDate: ScoreBound := PosInf): (n: nat)
      reads this
      ensures n <= |ScoresOf(zsets, TasksIndex)|
      ensures n == 0 <==> forall u | u in ScoresOf(zsets, TasksIndex) :: !InRange(ScoresOf(zsets, TasksIndex)[u], firstDate, lastDate)
    {
      var scores := ScoresOf(zsets, TasksIndex);
      var inRange := MembersInRange(scores, firstDate, lastDate);
      assert inRange <= scores.Keys;
      Sorting.SubsetCardinality(inRange, scores.Keys);
      MembersInRangeEmpty(scores, firstDate, lastDate);
      |inRange|
    }

    /** add_extracted_reference. */
    method AddExtractedReference(parentTaskUuid: string, extractedTaskUuid: string)
      requires Valid()
      modifies this
      ensures Valid()
      ensures sets == SetsAfterSAdd(old(sets), ExtractedKey(parentTaskUuid), extractedTaskUuid)
      ensures GetExtractedReferences(parentTaskUuid) == old(GetExtractedReferences(parentTaskUuid)) + {extractedTaskUuid}
      ensures hashes == old(hashes) && zsets == old(zsets) && ttls == old(ttls)
    {
      SAdd(ExtractedKey(parentTaskUuid), extractedTaskUuid);
    }

    function GetExtractedReferences(taskId: string): (refs: set<string>)
      reads this
      requires Valid()
      ensures refs == {} <==> ExtractedKey(taskId) !in sets
    {
      MembersOf(sets, ExtractedKey(taskId))
    }

    // ---------------------------------------------------------- reports

    function GetReport(taskUuid: string, workerName: string): (report: Record)
      reads this
      requires Valid()
      ensures report == map[] <==> ReportKey(taskUuid, workerName) !in hashes
    {
      HGetAll(ReportKey(taskUuid, workerName))
    }

    /** set_report: merges the record into reports:{task_uuid}-{worker_name}
        and drops the `status` field of the task. */
    method SetReport(report: Record) returns (o: Outcome<StorageError>)
      requires Valid()
      modifies this
      ensures Valid()
      ensures o == if TaskUuid !in report then Fail(MissingField(TaskUuid))
                   else if WorkerName !in report then Fail(MissingField(WorkerName))
                   else Pass
      ensures o.Fail? ==> unchanged(this)
      ensures o.Pass? ==>
                var reportKey := ReportKey(report[TaskUuid], report[WorkerName]);
                var taskKey := TaskKey(report[TaskUuid]);
                && hashes == HashesAfterHDel(HashesAfterHSet(old(hashes), reportKey, report), taskKey, Status)
                && ttls == (if taskKey in hashes then old(ttls) else old(ttls) - {taskKey})
                && sets == old(sets) && zsets == old(zsets)
      ensures o.Pass? ==>
                && GetReport(report[TaskUuid], report[WorkerName]) == old(GetReport(report[TaskUuid], report[WorkerName])) + report
                && GetTask(report[TaskUuid]) == old(GetTask(report[TaskUuid])) - {Status}
                && forall k | k != ReportKey(report[TaskUuid], report[WorkerName]) && k != TaskKey(report[TaskUuid]) ::
                     HGetAll(k) == old(HGetAll(k))
    {
      if TaskUuid !in report {
        return Fail(MissingField(TaskUuid));
      }
      if WorkerName !in report {
        return Fail(MissingField(WorkerName));
      }
      var reportKey := ReportKey(report[TaskUuid], report[WorkerName]);
      var taskKey := TaskKey(report[TaskUuid]);
      assert reportKey[0] != taskKey[0];
      HSet(reportKey, report);
      HDel(taskKey, Status);
      o := Pass;
    }
  }
}

# Pandora storage facade and helpers, in Dafny

This project models two parts of Pandora, a file-analysis service.

- **The `Storage` facade** (`pandora/storage_client.py`). It keeps Pandora's entities in Redis:
  - user sessions, roles and observables;
  - the suspicious and legitimate observable lists;
  - files, tasks, extracted-task references and worker reports.

  The facade uses three Redis data types: hashes (field maps), unordered sets and sorted sets (a score per member). The model replaces the Redis client with an in-memory store. `StorageClient.Storage` is a class with one map field per data type, plus the recorded times to live. Each facade method is a method on that class. It has `modifies this` where the source writes, and loops with invariants where the source loops.
- **The pure helpers** (`pandora/helpers.py`). These are:
  - `make_bool` and `make_bool_for_redis`;
  - the duration parser `expire_in_sec`;
  - the `can_` action map that `roles_from_config` builds for each configured role.

  They are Dafny functions, with lemmas about them.

Files:

- `wrappers.dfy`: `Option`, `Result` and `Outcome`.
- `text.dfy`: `str.strip()` over the characters Python counts as whitespace, and code-point string order.
- `sorting.dfy`: one stable insertion sort. It stands for Python's `list.sort` and `sorted`. There are lemmas for sortedness, permutation, stability and distinctness.
- `helpers.py` is modelled in `helpers.dfy`.
- `storage_client.py` is modelled in `storage.dfy`.
- `scenarios.dfy`: short call sequences on a fresh store, each stating what the caller observes at the end.

Redis behaviour the model keeps:

- HGETALL of a missing key is `{}`.
- HMSET/HSET merge fields into the existing hash.
- A hash or set left empty ceases to exist. `Storage.Valid` states this, and EXISTS depends on it.
- EXPIRE with a timeout of zero or less deletes the key.
- ZREVRANGEBYSCORE and ZCOUNT use inclusive bounds. The defaults are 0 and `+Inf`.
- ZREVRANGEBYSCORE orders by descending score, and equal scores by descending member.

Two facts hold of every store that only the facade writes, and `Storage.Valid` includes them:

- Every task scored in `tasks` has a hash that carries `save_date`. `set_task` writes the hash and the score together, `set_report` deletes only `status`, and no other call writes or deletes a `tasks:{uuid}` hash. So the sort in `get_tasks` never raises.
- Only session hashes (`users:{session_id}`) carry a time to live. So a key running out never takes a task with it.

The store's own HDEL, EXPIRE, DEL and ZADD methods take as preconditions what the facade's calls to them satisfy: no HDEL of `save_date` from a task hash, EXPIRE only on session hashes, no DEL of a task hash, and a ZADD to `tasks` only once the task's hash holds `save_date`.

Python behaviour the model keeps:

- `list.sort(key=itemgetter(f))` computes every key before it moves anything. So one record without `f` raises `KeyError`, even in a list of one record. In `get_users` the SREM has already happened by then.
- `x in [True, 1, '1']` compares with `==`, so `True == 1`.
- `is True` is an identity test.
- `str(None)` is `"None"`. So `get_observable()` with no identifier reads `observables:None-None`.

Every `set_*` method writes with `hmset`. That call merges the given fields into the stored record rather than replacing it. This applies to `set_user`, `set_role`, `set_observable`, `set_file`, `set_task` and `set_report`, and the model does the same.

## Model

| member | source | states |
|---|---|---|
| StorageClient.UserKey | pandora/storage_client.py:35 | the session key is `users:{id}`, a composed key that cannot clash with an index name |
| StorageClient.RoleKey | pandora/storage_client.py:67 | the role key is `roles:{name}`, a composed key |
| StorageClient.ObservableKey | pandora/storage_client.py:111 | the observable key is `observables:{identifier}`, a composed key |
| StorageClient.TaskObservablesKey | pandora/storage_client.py:115 | a task's observable links live at `{task_uuid}:observables`, a composed key |
| StorageClient.FileKey | pandora/storage_client.py:149 | the file key is `files:{uuid}`, a composed key |
| StorageClient.TaskKey | pandora/storage_client.py:166 | the task key is `tasks:{uuid}`, a composed key |
| StorageClient.ExtractedKey | pandora/storage_client.py:184 | the extracted-references key is `tasks:{uuid}:extracted`, a composed key |
| StorageClient.ReportKey | pandora/storage_client.py:194 | the report key is `reports:{task_uuid}-{worker_name}`, a composed key |
| StorageClient.ObservableIdInjective | pandora/storage_client.py:88 | when neither sha256 contains '-', equal identifiers `{sha256}-{observable_type}` have equal parts |
| StorageClient.ReportKeyInjective | pandora/storage_client.py:194 | when the task uuids have equal length, equal report keys have equal task uuid and worker name |
| StorageClient.ObservableId | pandora/storage_client.py:88 | the identifier is the sha256, a '-' at position |sha256|, then the observable type; the same form is linked at line 122 |
| StorageClient.ComposedKeysCollide | pandora/storage_client.py:166-184 | ids containing ':' make keys of different entities equal: task `p:extracted` is the extracted-references key of `p`, and session `observables` is the observable-link key of task `users` |
| StorageClient.ReportKeyAmbiguous | pandora/storage_client.py:194 | without that, task `a-b` with worker `c` and task `a` with worker `b-c` share a report key |
| StorageClient.LookupIdentifier | pandora/storage_client.py:109-110 | the identifier get_observable reads is never empty: a non-empty given identifier, else `{sha256}-{observable_type}` with None printed as "None" |
| StorageClient.HashesAfterHSet | pandora/storage_client.py:38 | HMSET merges the given fields into the key's hash, leaves every other key as it was, and keeps every stored hash non-empty |
| StorageClient.HashesAfterHDel | pandora/storage_client.py:93 | HDEL removes one field; the key exists afterwards exactly when fields remain; other keys unchanged |
| StorageClient.HSetThenHDel | pandora/storage_client.py:90-93 | HMSET followed by HDEL of one field equals writing the merged hash without that field |
| StorageClient.SetsAfterSAdd | pandora/storage_client.py:40 | SADD adds the member to the key's set and changes no other set |
| StorageClient.SetsAfterSRem | pandora/storage_client.py:53 | SREM removes the members from the key's set, drops the key once empty, and changes no other set |
| StorageClient.ZSetsAfterZAdd | pandora/storage_client.py:96 | ZADD sets the member's score in the key's sorted set and changes no other sorted set |
| StorageClient.MembersInRangeEmpty | pandora/storage_client.py:181 | no member is in [min, max] exactly when no score lies in that inclusive interval |
| StorageClient.ByScoreDescendingIsStrictTotal | pandora/storage_client.py:175 | the ZREVRANGEBYSCORE order is a strict total order on members |
| StorageClient.ByNameAscendingIsStrictTotal | pandora/storage_client.py:71 | `sorted()` order on str is a strict total order |
| StorageClient.SortNames | pandora/storage_client.py:71 | `sorted()` of the distinct role names gives the same names, each once, strictly ascending |
| StorageClient.SortByScoreDescending | pandora/storage_client.py:175 | the range's members come back each once, higher score first, equal scores in descending member order |
| StorageClient.SortOne | pandora/storage_client.py:54 | sorting a single record that has the key returns it |
| StorageClient.SortByFieldStable | pandora/storage_client.py:177 | records with the same save_date (or other key) keep the order they came in, so ties keep the ZREVRANGEBYSCORE order |
| StorageClient.ByFieldDescendingIsStrictOrder | pandora/storage_client.py:54 | ordering records by a field, greater first, is a strict weak order whose ties are the records with equal values |
| StorageClient.SortByFieldOrdersDescending | pandora/storage_client.py:54 | sorting records that all carry the field leaves no value after a greater one |
| StorageClient.SortByFieldDescending | pandora/storage_client.py:54 | `sort(key=itemgetter(f), reverse=True)` raises KeyError exactly when some record lacks `f`; otherwise it returns a permutation of the input, descending by `f` |
| StorageClient.Resolve | pandora/storage_client.py:158 | one hash per id, in the ids' order, `{}` for a missing hash |
| StorageClient.SeqOfSet | pandora/storage_client.py:45 | iterating a set visits every member exactly once |
| StorageClient.Storage.HGetAll | pandora/storage_client.py:35 | HGETALL: the hash stored under the key, and `{}` for a key that holds no hash |
| StorageClient.Storage.Exists | pandora/storage_client.py:80 | EXISTS: true exactly when the key holds a non-empty hash, set or sorted set |
| StorageClient.Storage.constructor | pandora/storage_client.py:19-26 | a new facade over an empty store that satisfies the store invariant |
| StorageClient.Storage.HSet | pandora/storage_client.py:38 | HMSET on the store keeps the invariant; only the hashes change |
| StorageClient.Storage.HDel | pandora/storage_client.py:93 | HDEL on the store keeps the invariant, provided it does not remove `save_date` from a task hash; a key that vanishes loses its time to live |
| StorageClient.Storage.Expire | pandora/storage_client.py:39 | EXPIRE on a session hash records a positive time to live; a non-positive one deletes the key |
| StorageClient.Storage.SAdd | pandora/storage_client.py:40 | SADD on the store; only the sets change |
| StorageClient.Storage.SRem | pandora/storage_client.py:53 | SREM on the store; only the sets change |
| StorageClient.Storage.ZAdd | pandora/storage_client.py:96 | ZADD on the store; only the sorted sets change, and a task is scored only once its hash holds `save_date` |
| StorageClient.Storage.Delete | pandora/storage_client.py:60 | DEL of keys that are not task hashes removes them from every kind of value, with their times to live |
| StorageClient.Storage.SMembers | pandora/storage_client.py:45 | SMEMBERS yields exactly the set's members, each once |
| StorageClient.Storage.FetchEach | pandora/storage_client.py:157-158 | the listing loop fetches one hash per id, in order |
| StorageClient.Storage.ZRevRangeByScore | pandora/storage_client.py:175 | exactly the members scored within the inclusive bounds, each once, in descending score order |
| StorageClient.Storage.ExpireElapsed | pandora/storage_client.py:39 | a key's time to live runs out: only that hash and its time to live go |
| StorageClient.Storage.GetUser | pandora/storage_client.py:34-35 | the session's hash, empty exactly when the key is gone |
| StorageClient.Storage.SetUser | pandora/storage_client.py:37-40 | KeyError without session_id and nothing written; otherwise the record is merged into the old hash (supplied fields take the supplied values, the others stay), the time to live restarts, and the id is indexed |
| StorageClient.Storage.GetUsers | pandora/storage_client.py:42-55 | returns exactly the existing hashes of indexed ids, as a permutation sorted by last_seen descending, or KeyError if one lacks last_seen; the index loses exactly the ids whose hash is gone; hashes are untouched |
| StorageClient.Storage.DelUsers | pandora/storage_client.py:57-60 | removes every indexed `users:{id}` key and the index itself, and nothing else |
| StorageClient.Storage.GetRole | pandora/storage_client.py:66-67 | the role's hash, empty exactly when the key is gone |
| StorageClient.Storage.GetRoles | pandora/storage_client.py:69-73 | one hash per indexed role name, names strictly ascending, as many as indexed names |
| StorageClient.Storage.SetRole | pandora/storage_client.py:75-77 | KeyError without name; otherwise the record is merged into the role hash, the name is indexed, and has_roles becomes true |
| StorageClient.Storage.HasRoles | pandora/storage_client.py:79-80 | true exactly when some role name is indexed |
| StorageClient.Storage.SetObservable | pandora/storage_client.py:86-96 | raises in the source's order (last_seen missing, unparsable last_seen, sha256 missing, observable_type missing) and writes nothing then; otherwise the hash holds every supplied field except warninglist, and the identifier is scored by the parsed last_seen |
| StorageClient.Storage.GetObservable | pandora/storage_client.py:106-111 | all three arguments default to None; the hash at the looked-up identifier, empty exactly when it is missing |
| StorageClient.Storage.GetObservableByParts | pandora/storage_client.py:106-111 | lookup by (sha256, observable_type) equals lookup by the identifier they compose; an empty identifier reads `None-None` |
| StorageClient.Storage.GetTaskObservables | pandora/storage_client.py:113-119 | exactly the linked observables whose hash exists, each non-empty; the store is not changed |
| StorageClient.Storage.AddTaskObservable | pandora/storage_client.py:121-122 | links `{sha256}-{observable_type}` to the task's set and changes nothing else |
| StorageClient.Storage.GetSuspiciousObservables | pandora/storage_client.py:126-127 | the suspicious list, empty exactly when the key is gone |
| StorageClient.Storage.GetLegitimateObservables | pandora/storage_client.py:135-136 | the legitimate list, empty exactly when the key is gone |
| StorageClient.Storage.AddToList | pandora/storage_client.py:130 | the list maps strip(observable) to strip(observable_type); every other hash is unchanged |
| StorageClient.Storage.DeleteFromList | pandora/storage_client.py:133 | one of the two observable lists loses strip(observable) and nothing else |
| StorageClient.Storage.AddSuspiciousObservable | pandora/storage_client.py:129-130 | the suspicious list gains or overwrites the stripped entry; every other hash is unchanged |
| StorageClient.Storage.DeleteSuspiciousObservable | pandora/storage_client.py:132-133 | the suspicious list loses only the stripped observable |
| StorageClient.Storage.AddLegitimateObservable | pandora/storage_client.py:138-139 | the legitimate list gains or overwrites the stripped entry; every other hash is unchanged |
| StorageClient.Storage.DeleteLegitimateObservable | pandora/storage_client.py:141-142 | the legitimate list loses only the stripped observable |
| StorageClient.Storage.GetFile | pandora/storage_client.py:148-149 | the file's hash, empty exactly when the key is gone |
| StorageClient.Storage.SetFile | pandora/storage_client.py:151-153 | KeyError without uuid; otherwise the record is merged into the file hash and the uuid is indexed |
| StorageClient.Storage.GetFiles | pandora/storage_client.py:155-159 | one hash per indexed uuid (`{}` for a missing one, nothing filtered), as many as indexed uuids |
| StorageClient.Storage.GetTask | pandora/storage_client.py:165-166 | the task's hash, empty exactly when the key is gone |
| StorageClient.Storage.SetTask | pandora/storage_client.py:168-171 | raises when save_date is missing or unparsable, or uuid is missing, writing nothing; otherwise merges the task and scores the uuid by save_date |
| StorageClient.Storage.GetTasks | pandora/storage_client.py:173-178 | bounds default to 0 and `+Inf` and are passed by name; the uuids scored within them, in ZREVRANGEBYSCORE order, their hashes sorted by save_date descending; it always succeeds and returns exactly count_tasks records |
| StorageClient.Storage.CountTasks | pandora/storage_client.py:180-181 | ZCOUNT with the same named, defaulted bounds: at most the number of scored tasks, zero exactly when no score is in range |
| StorageClient.Storage.AddExtractedReference | pandora/storage_client.py:183-184 | adds the extracted uuid to the parent's references and changes nothing else |
| StorageClient.Storage.GetExtractedReferences | pandora/storage_client.py:186-187 | the reference set, empty exactly when the key is gone |
| StorageClient.Storage.GetReport | pandora/storage_client.py:193-194 | the report's hash, empty exactly when the key is gone |
| StorageClient.Storage.SetReport | pandora/storage_client.py:196-199 | KeyError without task_uuid or worker_name; otherwise merges the report, and the task loses its status field and nothing else; every other hash is unchanged |
| Scenarios.ExpiredSessionIsPruned | pandora/storage_client.py:37-55 | after set_user and the session's expiry, get_users returns [] and the id has left the index |
| Scenarios.LiveSessionIsListed | pandora/storage_client.py:37-55 | after set_user of a record with last_seen, get_users returns exactly that record and keeps the id |
| Scenarios.SuspiciousAddedTwice | pandora/storage_client.py:126-130 | adding the same observable twice leaves exactly one entry, strip(observable) to strip(observable_type) |
| Scenarios.SuspiciousAddedThenDeleted | pandora/storage_client.py:129-133 | deleting by the same text padded with several whitespace characters on each side (`"  \t"` before, `" \r\n"` after) removes the entry and empties the list |
| Scenarios.ReportClearsTaskStatus | pandora/storage_client.py:196-199 | after set_task (lines 168-171) and then set_report for that task, the task reads back without status and the report as written |
| Scenarios.ObservableRoundTrip | pandora/storage_client.py:86-111 | a stored observable reads back without warninglist, by parts and by identifier alike |
| Scenarios.StoreOneTask | pandora/storage_client.py:168-171 | set_task on an empty store leaves exactly that task hash and its score |
| Scenarios.CountMatchesListing | pandora/storage_client.py:173-181 | one task scored at or after 0: get_tasks lists it alone and count_tasks is 1 |
| Helpers.PyEq | pandora/helpers.py:65 | Python `==`: equal values compare equal, different values compare equal only as a bool and an int of the same value, so True == 1 and False == 0 |
| Helpers.MakeBool | pandora/helpers.py:64-67 | true exactly for True, the int 1 and the string '1' |
| Helpers.MakeBoolForRedis | pandora/helpers.py:70-73 | the result is 0 or 1, and 1 exactly for the True object (the int 1 gives 0) |
| Helpers.RedisBoolRoundTrip | pandora/helpers.py:64-73 | make_bool of the stored text of make_bool_for_redis(b) gives back b |
| Helpers.PyStrOf | pandora/helpers.py:84 | `str()`: "None" for None, the text itself for a str, the decimal digits of a non-negative int (read back as that int), a leading '-' for a negative int |
| Helpers.NatToDecimal | pandora/helpers.py:84 | `str()` of a non-negative int is a non-empty string of digits |
| Helpers.DecimalRoundTrip | pandora/helpers.py:84-87 | `int(str(n)) == n` for n >= 0 |
| Helpers.FullMatchDuration | pandora/helpers.py:84 | the full match succeeds exactly when the text splits into digits and an optional s/m/h/d, and then yields that count and unit |
| Helpers.ExpireInSec | pandora/helpers.py:76-94 | None exactly for None; an assertion failure exactly when `str(time)` does not fully match; a success is a non-negative number of seconds below the timedelta limit |
| Helpers.ExpireOfDigits | pandora/helpers.py:86-93 | digits with no suffix or `s` give n seconds, `m` gives 60n, `h` 3600n, `d` 86400n, unless the timedelta overflows |
| Helpers.ExpireOfInt | pandora/helpers.py:84-87 | a negative int is rejected; an int n >= 0 gives n seconds, the same as the string str(n), unless n / 86400 exceeds 999999999 days and the timedelta overflows |
| Helpers.ExpireRejectsUnknownSuffix | pandora/helpers.py:84-85 | digits followed by a character that is neither a digit nor s/m/h/d (e.g. "5x") are rejected |
| Helpers.RoleActions | pandora/helpers.py:51 | an action is present exactly when `can_` + action is a key of the role entry, and it maps to that key's value |
| Helpers.RoleActionsCount | pandora/helpers.py:51 | the action map has as many entries as the entry has `can_` keys |
| Helpers.StripPrefixInjective | pandora/helpers.py:51 | cutting the `can_` prefix never merges two keys |
| Text.StripLeft | pandora/storage_client.py:130 | a suffix of the input whose dropped characters are whitespace, not starting with whitespace |
| Text.StripRight | pandora/storage_client.py:130 | a prefix of the input whose dropped characters are whitespace, not ending with whitespace |
| Text.Strip | pandora/storage_client.py:130 | `str.strip()`: a slice of the input with whitespace only outside it and at neither end |
| Text.StripIdempotent | pandora/storage_client.py:130 | stripping twice is stripping once, so adding the same observable twice hits one key |
| Text.StripLeftSkipsSpaces | pandora/storage_client.py:130 | any run of leading whitespace is dropped, whatever follows it |
| Text.StripRightSkipsSpaces | pandora/storage_client.py:130 | any run of trailing whitespace is dropped, whatever precedes it |
| Text.StripLeftAppendSpaces | pandora/storage_client.py:130 | appending whitespace keeps the left cut where it was, except that when the text is all whitespace the appended part is stripped too and the result is empty |
| Text.StripLeftPadded | pandora/storage_client.py:130 | with any whitespace before and after a text, the left strip stops where it stops in the text alone and keeps the trailing padding, except that when the text is all whitespace the result is empty |
| Text.StripPadded | pandora/storage_client.py:130-133 | `strip()` of a text with any whitespace before and after it equals `strip()` of the text, so add and delete agree on the key |
| Text.Less | pandora/storage_client.py:71 | str `<`: never between equal strings, decided by the first characters when they differ, and a proper prefix sorts first |
| Text.LessIrreflexive | pandora/storage_client.py:71 | no string sorts before itself |
| Text.LessTransitive | pandora/storage_client.py:71 | string order is transitive |
| Text.LessTotal | pandora/storage_client.py:71 | of two different strings one sorts first |
| Sorting.Insert | pandora/storage_client.py:54 | insertion adds exactly one element |
| Sorting.Sort | pandora/storage_client.py:54 | the sort returns a permutation of its input |
| Sorting.InsertSorted | pandora/storage_client.py:54 | inserting into a sorted list keeps it sorted |
| Sorting.SortSorted | pandora/storage_client.py:54 | under a strict order the result is sorted |
| Sorting.DistinctCardinality | pandora/storage_client.py:45 | a duplicate-free list is as long as its set of elements |
| Sorting.DistinctCountsAtMostOne | pandora/storage_client.py:45 | a duplicate-free list holds each value at most once |
| Sorting.DistinctPermutation | pandora/storage_client.py:71 | a permutation of a duplicate-free list is duplicate-free |
| Sorting.SortedDistinctStrict | pandora/storage_client.py:71 | a sorted duplicate-free list under a total order is strictly increasing |
| Sorting.SubsetCardinality | pandora/storage_client.py:181 | a subset is no larger than its superset |
| Sorting.SingletonDistinct | pandora/storage_client.py:45 | a duplicate-free listing whose only value is x is [x] |
| Sorting.InsertStable | pandora/storage_client.py:177 | under a strict weak order, insertion puts an element behind the elements tied with it |
| Sorting.SortStable | pandora/storage_client.py:177 | the sort is stable: the elements of one class of ties come out in their input order |

## Left out

- Redis WRONGTYPE errors. Hashes, sets and sorted sets live in three separate maps. `Storage.Valid` keeps each fixed index key (`users`, `roles`, `tasks`, ...) to its own kind. Composed keys are not kept apart: an id containing ':' can make two entities' keys equal (`ComposedKeysCollide`). For example, `tasks:p:extracted` is both the task key of uuid `p:extracted` and the extracted-references set of task `p`. Redis would then reject the second kind of write with WRONGTYPE. The model instead keeps a hash and a set under that one key.
- Writes from outside the facade. `Storage.Valid` assumes that only the facade writes the store. If another client removes a task's `save_date`, `get_tasks` raises `KeyError`. `GetTasks` still computes that outcome through `SortByFieldDescending`, but its success clause relies on `Valid`.
- The singleton `__new__`, the connection pool, the `storage` property and the `get_config` lookups (storage_client.py:17-30). These are connection plumbing. The constructor takes the session expiry as a parameter.
- `datetime.fromisoformat(...).timestamp()`. This is time-zone-aware date parsing into a float, from a library. It is the store's parameter `parseTimestamp`, a partial function from text to an integer score. Scores are integers, not floats.
- Real time. A time to live is only recorded. Its running out is the separate step `Storage.ExpireElapsed`, which the store may take at any time.
- `get_tasks` and `count_tasks` also accept string bounds such as an exclusive `(5` or `-inf`. The model takes `ScoreBound` values: minus infinity, an inclusive integer, or plus infinity.
- `set_file` accepts int values, which Redis stores as their decimal text. Records are maps from text to text.
- The order of SMEMBERS. The store chooses it, so results that depend on it are stated for whatever order `SeqOfSet` picks. The ghost out-parameters name that order.
- Concurrency, and the non-atomicity of a hash write and its index update. The model is sequential.
- YAML loading and `lru_cache` in `allowlist_default`, `roles_from_config` (apart from its line-51 comprehension) and `workers`. This is file I/O and caching. The `Role` class is not part of this model.
- The `Status` and `TypeObservable` enums. They are tags without behaviour.
- Helpers.ExpireInSec: `\d` is read as the ASCII digits. Python also matches other Unicode decimal digits.
- Helpers.ExpireInSec: CPython's limit of 4300 digits on `int()` is not modelled.
- `total_seconds()` returns a float. Every value below the timedelta limit is under 2^53, so it is exact and is modelled as an integer.
- Helpers.MakeBool: only None, bool, int and str inputs are modelled, as the signature declares. A float 1.0 would also compare equal to 1.

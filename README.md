# screentime-collector, modelled in Dafny

The collector samples per-user screen-time counters from the timekpr
administration service over D-Bus and republishes each sample on NATS. The
sample is a JSON object, published under the subject `time.obs.<hostname>.<user>`.
This project models the collector's core, `src/main.rs`:

- `observation.dfy` (module `Observations`) holds the `TimeObservation` record,
  its extraction from the D-Bus property bag (`TryFrom<&HashMap<String,
  OwnedValue>>`, a serde round trip through JSON) and its encoding as the
  published payload. Both directions use the `#[serde(rename = ...)]` keys
  `TIME_LEFT_DAY`, `TIME_SPENT_BALANCE`, `TIME_SPENT_MONTH`, `TIME_SPENT_WEEK`
  and `TIME_SPENT_DAY`.
- `topic.dfy` (module `Topics`) builds the subject with
  `format!("time.obs.{}.{}", hostname, user)`. It also has an inverse that
  parses a subject back, used to state when subjects identify their host and
  user.
- `cycle.dfy` (module `Collector`) models one tick of the main loop: for each
  user in list order it queries, extracts, serialises and publishes, then it
  flushes once. `RunCycle` is a method with a loop that appends events to a
  trace. It is proved equal to the specification function `CycleTrace`, and
  the lemmas state the ordering and abort properties of `CycleTrace`.
- `wrappers.dfy` (module `Wrappers`) holds `Option` and `Result`.

The D-Bus query, the publish and the flush are not performed. Their outcomes
are inputs: per user, a `UserOracle` holds the query result (failure, or the
property bag) and whether the publish succeeded, and one flag says whether the
flush succeeded. Effects are recorded as events: `Publish(topic, payload,
accepted)` (the `async_nats` client took the message; nothing is known about
delivery), `Flush(ok)` and `Abort(cause)`.

The model follows the code as written:

- Extraction is serde's derived deserialiser, not a per-field collecting
  validator. A present required key whose value is not an `i32` is an error
  (`InvalidType`), and that error takes precedence over a missing key. The
  entry map's iteration order decides which of several bad keys the real error
  names, so the model keeps the set of them. Missing keys are checked
  afterwards in declaration order, and the first absent key is named
  (`MissingField`). Keys outside the five are ignored.
- The payload's keys are the renamed `TIME_*` keys, not the Rust field names
  (`left_day`, ...).
- Failures are not isolated per user. A failed query (`?` on
  `get_user_information`) or a failed extraction (`.expect`) ends `main`: the
  rest of the users in that cycle are not published and there is no flush. A
  failed publish or a failed flush is only logged.

## Model

| member | source | states |
|---|---|---|
| Observations.FirstAbsent | src/main.rs:23-35 | the index of the first required key, in declaration order, that is absent from the object; every earlier key is present |
| Observations.Encode | src/main.rs:70-71 | the payload has exactly the five renamed keys and every value is in `i32` range |
| Observations.ExtractOkIff | src/main.rs:37-45 | extraction succeeds if and only if all five `TIME_*` keys are present and each holds an integer in `i32` range |
| Observations.ExtractFieldsExact | src/main.rs:24-43 | on success each field equals the bag's integer under its renamed key, with no scaling or rounding |
| Observations.ExtractMissingKey | src/main.rs:40-43 | an absent required key makes extraction fail; a missing-field error names the first absent key in declaration order, and it is the error whenever no present required key is ill-typed |
| Observations.ExtractRejectsNonInt32 | src/main.rs:26-42 | a required key holding a string, a boolean, another non-integer or an out-of-range integer makes extraction fail with a type error; the reported keys are exactly the present, ill-typed required keys |
| Observations.ExtractIgnoresUnknownKeys | src/main.rs:23-42 | two bags that agree on the five required keys extract to the same result, whatever other keys they hold |
| Observations.FirstAbsentAgrees | src/main.rs:23-35 | the missing-key check depends only on which of the keys are present |
| Observations.ExtractEncode | src/main.rs:70-71 | deserialising the payload of an observation gives the same observation |
| Observations.EncodeExtract | src/main.rs:40-43 | encoding a deserialised object gives exactly its five required entries: none is renamed, dropped, added or changed |
| Observations.PayloadRepublishesBag | src/main.rs:66-71 | the payload published for a bag carries the bag's five integers under the same keys and nothing else from the bag |
| Observations.SamplePayload | src/main.rs:70-71 | the sample observation encodes to the five `TIME_*` keys with its values, and `left_day` is not a key |
| Topics.IndexOf | src/main.rs:73 | the first occurrence of a character, or none if it does not occur (used to split a subject) |
| Topics.ParseTopicOfTopic | src/main.rs:73 | a subject built from a hostname without '.' splits back into that hostname and user |
| Topics.TopicInjective | src/main.rs:73 | with dot-free hostnames, different (host, user) pairs get different subjects |
| Topics.TopicAmbiguousWithDottedHost | src/main.rs:73 | a hostname containing '.' can give two pairs the same subject, because nothing is escaped |
| Collector.SampleUser | src/main.rs:66-79 | one loop body: a failed query aborts with `QueryFailed(user)`; a successful query publishes exactly when all five `TIME_*` keys hold `i32` integers, and otherwise aborts with `ExtractFailed` for that user; a publish goes to `time.obs.<host>.<user>`, carries exactly the five keys with the bag's integers, and its `accepted` flag is the publish result |
| Collector.RunCycle | src/main.rs:65-87 | the loop's trace equals `CycleTrace`: events in user order, stopping at the first abort, then one flush if no abort happened |
| Collector.UntilAbortShape | src/main.rs:65-68 | a run cut at its first abort is a prefix of the run; only its last event can be an abort, and it is one exactly when the run has an abort |
| Collector.UntilAbortCutsAt | src/main.rs:65-68 | a run whose first abort is at index i is cut right after index i |
| Collector.CycleWithoutFailure | src/main.rs:65-87 | when every query and extraction succeeds, there is one publish per user in list order, whatever the publish results, then exactly one flush |
| Collector.CycleAbortsAtFirstFailure | src/main.rs:65-68 | when user k is the first whose query or extraction fails, users 0..k-1 are published in order, user k's abort follows, nothing comes after it and there is no flush |
| Collector.CycleFlushPlacement | src/main.rs:80-87 | every event except the last is a publish, and a flush occurs if and only if no user's query or extraction fails |
| Collector.FirstFailure | src/main.rs:65-68 | the index of the first user whose query or extraction fails; every earlier user succeeds |
| Collector.SameQuerySameAttempt | src/main.rs:74-79 | a user's event depends on the publish result only through its `accepted` flag |
| Collector.UntilAbortIgnoresOutcomes | src/main.rs:76-79 | runs that differ only in publish results are cut at the same place |
| Collector.WithFlushIgnoresOutcomes | src/main.rs:82-87 | the flush is added, or not, in the same way whatever the publish and flush results |
| Collector.OutcomesDoNotSteerCycle | src/main.rs:74-87 | publish and flush failures change nothing but their own flags: the same publishes are attempted in the same order and the flush is still reached |
| Collector.SingleUserScenario | src/main.rs:62-87 | one user with a valid bag: one publish to `time.obs.h1.alice` with the five counters, then one flush |
| Collector.FailedQueryEndsCycle | src/main.rs:65-68 | three users whose second query fails: only the first is published, then the run aborts with no flush |

## Left out

- Command-line parsing (`Args`, clap) and `tracing_subscriber` initialisation: setup glue. The hostname and user list are parameters.
- The NATS connection, the D-Bus session and the timekpr proxy: network and IPC clients. Their results are oracle inputs. The proxy's `mod dbus` is not part of this model.
- The 5-second `interval`, the `.await` points and the endless `loop`: scheduling. One cycle is modelled.
- The exact `OwnedValue` to JSON conversion and serde_json internals. The model assumes, without checking it against zvariant's serialiser, that a D-Bus integer of any width becomes a bare JSON number with the same value, and that every other value becomes a non-integer JSON value. `ExtractOkIff` and everything built on it rest on this assumption. If `Serialize for Value` instead writes a signature/value structure, every present `TIME_*` key reaches `from_value` (src/main.rs:42) as an object, and extraction as written fails for every bag.
- The error path of `serde_json::to_value` (`?` at src/main.rs:41) is not modelled. The conversion is taken to succeed for every bag.
- The `.expect` on `serde_json::to_vec` (src/main.rs:71) cannot fail for a record of five `i32` fields, so it has no abort path.
- Byte-level JSON formatting: the payload is an abstract key-to-integer object.
- The `i32` and `String` that `get_user_information` also returns: the code ignores them.
- Log messages (`tracing::debug`, `error`, `warn`) are recorded only as the `accepted` and `ok` flags of the events.
- Error message text: failures carry the set of ill-typed keys or the missing key, not `anyhow` text.
- ExtractRejectsNonInt32: states that the offending key is among the reported keys, not which single key serde's message names, because that depends on the map's iteration order.

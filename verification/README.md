# kubectl-pdns record commands in Dafny

This project models the two commands of `kubectl-pdns`, a kubectl plugin
that manages DNS `Record` custom resources (`pdns.bryanl.dev/v1alpha1`) in a
Kubernetes cluster:

- `set <zone> <name> <rrType> <contents>` validates its configuration, derives
  the object key `<name>-<lower-cased rrType>` and the `spec` payload (the
  contents split on `,`), then creates the Record object when the key is
  free, or replaces the stored object's `spec` with a read-modify-write
  update that is retried while the cluster answers with a conflict;
- `delete <zone> <name> <rrType>` validates its configuration and deletes the
  object stored under the same key.

Files:

- `text.dfy` (module `Text`): ASCII lower-casing, and splitting and joining
  on a separator, with the round-trip lemmas.
- `records.dfy` (module `Records`): the `spec` payload, the stored Record
  document, store keys, store errors, the command errors, and the namespace
  default.
- `cluster.dfy` (module `Cluster`): the records resource of the cluster as a
  store of documents keyed by namespace and name. Each document carries a
  version token (`resourceVersion`). An update succeeds only when it carries
  the stored token. The store is the class `Store`; its requests are specified
  by the step functions `GetStep`, `CreateStep`, `UpdateStep` and
  `DeleteStep`. Concurrent writers are a script of `events` (a `Script` list): before each
  request, the next event may store another writer's version, remove the
  object, or refuse the request with an error. Every request is logged.
- `protocol.dfy` (module `Protocol`): the upsert protocol as functions of the
  store state. `Attempt` is one update attempt, `RetryOnConflict` the
  bounded retry loop and `Upsert` the whole `set` after validation. The
  lemmas about them give the protocol's guarantees.
- `set.dfy` (module `SetCommand`) and `delete.dfy` (module `DeleteCommand`):
  the configurations and the commands. The configurations are values with
  `Validate`, `ToSpec` and `ObjectName`. `Set`, `CreateRecord`, `TryUpdate`,
  `UpdateRecord` and `Delete` are methods on a `Store`. Each method is proved
  to do to the store exactly what the corresponding protocol or step function
  says.

Modelling decisions:

- `SetConfig` and `DeleteConfig` are Go structs passed by value, and their
  `Validate` changes the caller's copy through a pointer receiver. Here they
  are datatypes. `Validate` is a method that builds the list of blank fields
  step by step and returns the configuration with its namespace defaulted.
  `Set` and `Delete` go on with that returned value, as the Go code goes on
  with its own modified copy.
- The retry bound of `retry.DefaultRetry` is the parameter `maxAttempts > 0`.
  The library's `RetryOnConflict` retries whenever the closure's error is a
  conflict. The closure returns the error of its `Get` as well as that of its
  `Update`, so a conflict from either is retried. When the attempts run out,
  the last conflict is returned.
- Every attempt, the first included, reads the object again
  (pkg/pdns/set.go:121). The object found by the lookup in `Set` is only used
  to choose between create and update.
- A delete of a missing key is an error (`DeleteFailed(NotFound)`), as the
  code has it.
- Errors are a datatype. `Invalid` lists the blank fields in checking order.
  `Lookup`, `CreateFailed`, `UpdateFailed` and `DeleteFailed` wrap the store
  error, one for each prefix the code adds.

## Model

| member | source | states |
|---|---|---|
| `Text.Lower` | pkg/pdns/set.go:67 | the result has the input's length and lower-cases each ASCII upper-case letter, leaving every other character |
| `Text.LowerIdempotent` | pkg/pdns/set.go:67 | lower-casing an already lower-cased type changes nothing |
| `Text.Split` | pkg/pdns/set.go:59 | the split has one more piece than the string has separators, and no piece contains the separator |
| `Text.JoinSplit` | pkg/pdns/set.go:59 | joining the pieces of a split with the separator gives the original string back |
| `Text.SplitJoin` | pkg/pdns/set.go:59 | splitting a join of separator-free pieces gives the pieces back, so the split is the only such list with that join |
| `Records.Defaulted` | pkg/pdns/set.go:46-48 | a blank namespace becomes `default`; a non-blank namespace is kept |
| `SetCommand.SetConfig.BlankFields` | pkg/pdns/set.go:27-45 | the result is empty exactly when zone, name, type and contents are all non-blank; it holds each blank field, once, in the order zone, name, type, contents |
| `SetCommand.SetConfig.Validate` | pkg/pdns/set.go:27-51 | reports every blank field (not only the first) and returns the configuration with only its namespace changed: defaulted when blank, even when a field is blank |
| `SetCommand.SetConfig.ToSpec` | pkg/pdns/set.go:54-63 | zone, name and type are copied as given (the type keeps its case); the values number the commas plus one, hold no comma, and join back to the contents; no other spec field is set |
| `SetCommand.ToSpecIsTheSplit` | pkg/pdns/set.go:59 | any non-empty list of comma-free pieces that joins back to the contents is the `value` list: nothing is trimmed, merged or dropped |
| `Records.ObjectKey` | pkg/pdns/set.go:66-68 | the key is the name, a dash, and a suffix with no upper-case letter that equals the type up to case; both `SetConfig.ObjectName` and `DeleteConfig.ObjectName` are this key |
| `SetCommand.ObjectNameIgnoresCase` | pkg/pdns/set.go:66-68 | two configurations with the same name get the same key exactly when their types agree up to case, whatever their zones, contents and namespaces |
| `SetCommand.SetReplacesWholeSpec` | pkg/pdns/set.go:126 | a set over an existing record with no other writer leaves exactly the command's spec: any other spec field stored by another writer is gone, and the rest of the document is kept |
| `SetCommand.InitRecord` | pkg/pdns/set.go:140-153 | the created document has apiVersion `pdns.bryanl.dev/v1alpha1`, kind `Record`, the key's name, the configuration's namespace, `spec = ToSpec()` and no other field |
| `SetCommand.CreateRecord` | pkg/pdns/set.go:106-113 | sends exactly the document `InitRecord` builds as one create request; the store's error is returned as it is |
| `SetCommand.TryUpdate` | pkg/pdns/set.go:120-135 | one attempt as `Protocol.Attempt` says: read the object, replace its whole spec, send it back with the token just read; the read's or the update's error ends the attempt |
| `SetCommand.UpdateRecord` | pkg/pdns/set.go:115-138 | behaves as `Protocol.RetryOnConflict` with the configuration's key and spec: attempts repeat only after a conflict, at most `maxAttempts` times |
| `SetCommand.Set` | pkg/pdns/set.go:71-104 | a configuration with a blank field gives `Invalid` with those fields and leaves the store untouched; otherwise the store changes and the result are those of `Protocol.Upsert` on the defaulted configuration's initial record |
| `Protocol.AttemptFacts` | pkg/pdns/set.go:120-134 | an attempt logs one read of the key and at most one update of it carrying the spec; on success the stored object is the one just read with only its spec replaced and a new token; other keys are untouched |
| `Protocol.QuietAttempt` | pkg/pdns/set.go:120-134 | with no other writer, an attempt succeeds and the stored object keeps everything but its spec |
| `Protocol.ContendedAttempt` | pkg/pdns/set.go:120-134 | when another writer stores its version between the read and the update, the attempt ends in a conflict and the other writer's version stays |
| `Protocol.RetryFacts` | pkg/pdns/set.go:119-137 | the loop logs only reads and updates of the key, each update right after a fresh read, at most `maxAttempts` reads, and exactly that many when it gives up on a conflict; on success the stored spec is the requested one; other keys are untouched |
| `Protocol.OtherErrorEndsLoop` | pkg/pdns/set.go:119-137 | only a conflict is retried: an attempt ending in any other error ends the loop at once with that error, however many attempts are left |
| `Protocol.ConflictIsRetried` | pkg/pdns/set.go:119-137 | a conflict with attempts left is retried from the state the failed attempt left behind |
| `Protocol.ConflictsThenSuccess` | pkg/pdns/set.go:119-137 | if the first m updates lose a race and m is below the bound, the loop succeeds; the stored spec is the caller's, and the other fields are those of the latest version read |
| `Protocol.ConflictsExhaust` | pkg/pdns/set.go:119-137 | if every one of the allowed attempts loses a race, the loop fails with the conflict after exactly that many attempts, and the other writer's version stays |
| `Protocol.UpsertFacts` | pkg/pdns/set.go:71-104 | a set never touches another key; when it succeeds, the spec stored under the key is the requested one |
| `Protocol.LookupFailureStops` | pkg/pdns/set.go:86-90 | a lookup error other than NotFound gives `Lookup` with that error after the one read; nothing is created or updated |
| `Protocol.MissingRecordIsCreated` | pkg/pdns/set.go:86-97 | when the lookup finds nothing, exactly one create of the initial record follows and nothing else; a failure is `CreateFailed`; on success the record is stored as built, with a store-assigned token |
| `Protocol.RemovedBeforeUpdateFails` | pkg/pdns/set.go:86-101 | when the record is removed between the lookup and the update's read, the set fails with `UpdateFailed(NotFound)` after exactly two reads: no retry and no create |
| `Protocol.UpsertAlone` | pkg/pdns/set.go:71-104 | with no other writer, a set succeeds at once: a missing record is created as built; an existing one keeps everything but its spec, which becomes the requested one |
| `Protocol.SetTwice` | pkg/pdns/set.go:71-104 | two sets of one key with no other writer create once, then update once; the stored spec is exactly the second one and the rest of the document is what the first created |
| `Cluster.GetFacts` | pkg/pdns/set.go:121-124 | a read keeps the store valid, changes no other key and is logged; on success it returns the object stored under the key, whose token is older than the next one the store gives out |
| `Cluster.UpdateFacts` | pkg/pdns/set.go:130-132 | an update keeps the store valid, changes no other key and is logged; when it succeeds with a token from before the call, the key holds the sent document with a fresh token and nothing else changes |
| `Cluster.InterveningWriteConflicts` | pkg/pdns/set.go:119-135 | a version stored by another writer between a read and the update built from it makes that update a conflict, so no write is silently lost |
| `Cluster.Store.Get` | pkg/pdns/set.go:86 | reads as `GetStep`: the stored object, or NotFound, or the error the request was refused with; a valid store stays valid |
| `Cluster.Store.Create` | pkg/pdns/set.go:108 | creates as `CreateStep`: stores the document under its own key with a fresh token, or fails with AlreadyExists or the refusal; a valid store stays valid |
| `Cluster.Store.Update` | pkg/pdns/set.go:130 | updates as `UpdateStep`: replaces the whole document only when its token is the stored one, otherwise Conflict (or NotFound, or the refusal); a valid store stays valid |
| `Cluster.Store.Delete` | pkg/pdns/delete.go:71 | deletes as `DeleteStep`: removes the key, or fails with NotFound or the refusal; a valid store stays valid |
| `Cluster.DeleteRemovesOnlyKey` | pkg/pdns/delete.go:64-75 | a successful delete removes exactly the requested key and leaves every other entry as it was; a failed one changes no other key either |
| `Cluster.DeleteMissingFails` | pkg/pdns/delete.go:71-73 | deleting a missing key fails with NotFound; it is not treated as success |
| `Cluster.DeleteThenGetNotFound` | pkg/pdns/delete.go:71-75 | after a successful delete, reading the key gives NotFound when no other writer acts in between |
| `DeleteCommand.DeleteConfig.BlankFields` | pkg/pdns/delete.go:22-35 | the result is empty exactly when zone, name and type are all non-blank; it holds each blank field once, in checking order, and never the contents |
| `DeleteCommand.DeleteConfig.Validate` | pkg/pdns/delete.go:22-42 | reports every blank field and returns the configuration with only its namespace changed: defaulted when blank, even when a field is blank |
| `DeleteCommand.DeleteTargetsSetRecord` | pkg/pdns/delete.go:45-47 | with the same name, the type up to case and the namespace after defaulting, delete uses the key and namespace of the record that set creates |
| `DeleteCommand.Delete` | pkg/pdns/delete.go:50-76 | a configuration with a blank field gives `Invalid` and leaves the store untouched; otherwise exactly one delete of the derived key in the defaulted namespace, with any store error, NotFound included, reported as `DeleteFailed` |

## Left out

- Building the client (pkg/pdns/k8s.go): the kubeconfig path from
  `KUBECONFIG` or the home directory and the client construction are
  environment and I/O. The store is given to `Set` and `Delete` as a
  parameter, so the "build client" error is not modelled.
- The command wiring in cmd/set.go, cmd/delete.go and cmd/root.go is not part
  of this model. This covers the argument-count check that shows help, the
  `-n` flag that is parsed and never used, and the exit status.
- Backoff delays and jitter of `retry.DefaultRetry`. They are time-based
  library code. Only the attempt bound is kept, as `maxAttempts`.
- Real concurrency and `context.Context`. Other writers are the store's
  scripted events, and cancellation is not modelled.
- The foreground propagation policy of the delete (pkg/pdns/delete.go:66-69).
  The store has no dependents, so the policy changes nothing here.
- The error path of `unstructured.SetNestedMap` (pkg/pdns/set.go:126-128) is
  not modelled. The model assumes that the call stores the spec built at
  pkg/pdns/set.go:54-63 as given and never fails. The library deep-copies the
  value it stores, and that library code is not part of this model. If its
  copy does not accept the `[]string` of values built at pkg/pdns/set.go:59,
  the update path would stop at pkg/pdns/set.go:126 instead of writing the
  record. The model does not capture that case.
- `strings.ToLower` is modelled on ASCII letters only. Unicode case mapping is
  left out.
- The exact text of the `multierr` and `fmt.Errorf` messages is not modelled.
  Errors are the datatype `Records.Error`.
- The document is reduced to apiVersion, kind, name, namespace, version
  token, spec, and one map standing for all its other fields. The spec is
  reduced to zone, name, type, values, and one map standing for any other
  spec field.

/** The namespaced object store the commands talk to (the cluster's records
    resource), reduced to what the commands use: get, create, update with a
    version-token check, and delete.

    Other writers are not threads here. The store carries a script of
    `events`; before it serves a request, the next scripted event acts on the
    key that request targets (another writer replaces or removes the object,
    or the request itself is refused). Once the script is used up, nothing
    else happens. Every request is appended to `log`. */
module Cluster {
  import opened Records

  datatype Request =
    | GetReq(key: Key)
    | CreateReq(record: Record)
    | UpdateReq(record: Record)
    | DeleteReq(key: Key)

  /** What happens at the store just before it serves the next request. */
  datatype Event =
    | Quiet                                          // nobody else acts
    | Write(spec: Spec, extra: map<string, string>)  // another writer stores its own version
    | Remove                                         // another writer deletes the object
    | Refuse(error: StoreError)                      // the request fails before reaching the object

  /** The events still to come, in order; after `Idle` nobody else acts. */
  datatype Script = Idle | Then(head: Event, tail: Script)

  datatype Result<+T> = Ok(value: T) | Err(error: StoreError)

  datatype State = State(objects: map<Key, Record>, clock: nat, events: Script, log: seq<Request>)

  /** Every object is stored under its own key and carries a version token
      older than `clock`, the token the next write receives. */
  predicate Valid(st: State) {
    forall k :: k in st.objects ==> KeyOf(st.objects[k]) == k && st.objects[k].resourceVersion < st.clock
  }

  /** `a` and `b` agree on every key except `k`. */
  ghost predicate AgreeExcept(a: map<Key, Record>, b: map<Key, Record>, k: Key) {
    forall k' :: k' != k ==> (k' in a <==> k' in b) && (k' in a ==> a[k'] == b[k'])
  }

  /** The state in which the store serves request `req` on key `k`: the
      request is logged and the next scripted event has acted on `k`. */
  function ServeStep(st: State, k: Key, req: Request): (State, Event)
  {
    var ev := if st.events.Idle? then Quiet else st.events.head;
    var rest := if st.events.Idle? then Idle else st.events.tail;
    var st1 := st.(events := rest, log := st.log + [req]);
    match ev
    case Write(spec, extra) =>
      var o := if k in st.objects then st.objects[k].(spec := spec, extra := extra, resourceVersion := st.clock)
               else Record(ApiVersion, Kind, k.name, k.namespace, st.clock, spec, extra);
      (st1.(objects := st.objects[k := o], clock := st.clock + 1), ev)
    case Remove => (st1.(objects := st.objects - {k}), ev)
    case _ => (st1, ev)
  }

  function GetStep(st: State, k: Key): (State, Result<Record>)
  {
    var (st1, ev) := ServeStep(st, k, GetReq(k));
    if ev.Refuse? then (st1, Err(ev.error))
    else if k in st1.objects then (st1, Ok(st1.objects[k]))
    else (st1, Err(NotFound))
  }

  /** Creation stores the document under its own key with a fresh version
      token; it fails when the key is taken. */
  function CreateStep(st: State, o: Record): (State, Result<Record>)
  {
    var k := KeyOf(o);
    var (st1, ev) := ServeStep(st, k, CreateReq(o));
    if ev.Refuse? then (st1, Err(ev.error))
    else if k in st1.objects then (st1, Err(AlreadyExists))
    else
      var stored := o.(resourceVersion := st1.clock);
      (st1.(objects := st1.objects[k := stored], clock := st1.clock + 1), Ok(stored))
  }

  /** An update replaces the whole stored document, but only when the version
      token it carries is the stored one; otherwise it is a conflict. */
  function UpdateStep(st: State, o: Record): (State, Result<Record>)
  {
    var k := KeyOf(o);
    var (st1, ev) := ServeStep(st, k, UpdateReq(o));
    if ev.Refuse? then (st1, Err(ev.error))
    else if k !in st1.objects then (st1, Err(NotFound))
    else if st1.objects[k].resourceVersion != o.resourceVersion then (st1, Err(Conflict))
    else
      var stored := o.(resourceVersion := st1.clock);
      (st1.(objects := st1.objects[k := stored], clock := st1.clock + 1), Ok(stored))
  }

  function DeleteStep(st: State, k: Key): (State, Result<()>)
  {
    var (st1, ev) := ServeStep(st, k, DeleteReq(k));
    if ev.Refuse? then (st1, Err(ev.error))
    else if k !in st1.objects then (st1, Err(NotFound))
    else (st1.(objects := st1.objects - {k}), Ok(()))
  }

  /** Serving a request keeps the store valid, touches no key but its own,
      consumes at most one event and logs exactly that request. */
  lemma ServeFacts(st: State, k: Key, req: Request)
    requires Valid(st)
    ensures var (st1, ev) := ServeStep(st, k, req);
      && Valid(st1)
      && AgreeExcept(st.objects, st1.objects, k)
      && st1.log == st.log + [req]
      && st1.clock >= st.clock
      && (st.events.Idle? ==> ev == Quiet && st1 == st.(log := st1.log))
      && (st.events.Then? ==> ev == st.events.head && st1.events == st.events.tail)
      && (ev.Quiet? || ev.Refuse? ==> st1.objects == st.objects && st1.clock == st.clock)
      && (ev.Write? ==> k in st1.objects && st1.objects[k].spec == ev.spec && st1.objects[k].extra == ev.extra
                        && st1.objects[k].resourceVersion == st.clock)
      && (ev.Remove? ==> k !in st1.objects)
  {
  }

  /** A read keeps the store valid, touches no other key and logs itself;
      what it returns is the object stored under `k`, with a token older than
      the store's clock. */
  lemma {:induction false} GetFacts(st: State, k: Key)
    requires Valid(st)
    ensures var (st1, got) := GetStep(st, k);
      && Valid(st1)
      && AgreeExcept(st.objects, st1.objects, k)
      && st1.log == st.log + [GetReq(k)]
      && (got.Ok? ==> k in st1.objects && got.value == st1.objects[k]
                      && KeyOf(got.value) == k && got.value.resourceVersion < st1.clock)
  {
    ServeFacts(st, k, GetReq(k));
  }

  /** An update keeps the store valid, touches no key but its record's and
      logs itself. When it succeeds with a token older than the clock, nobody
      else wrote in between, and the record is stored with the clock as its
      new token. */
  lemma {:induction false} UpdateFacts(st: State, o: Record)
    requires Valid(st)
    ensures var (st1, put) := UpdateStep(st, o);
      && Valid(st1)
      && AgreeExcept(st.objects, st1.objects, KeyOf(o))
      && st1.log == st.log + [UpdateReq(o)]
      && (put.Ok? && o.resourceVersion < st.clock ==>
            st1.objects == st.objects[KeyOf(o) := o.(resourceVersion := st.clock)])
  {
    var k := KeyOf(o);
    var (st1, ev) := ServeStep(st, k, UpdateReq(o));
    ServeFacts(st, k, UpdateReq(o));
    if UpdateStep(st, o).1.Ok? && o.resourceVersion < st.clock {
      assert ev.Quiet?;
    }
  }

  /** Optimistic concurrency: when another writer stores its version of an
      object between a read and the update built from that read, the update
      is refused as a conflict, so the other writer's version is never lost
      silently. */
  lemma {:induction false} InterveningWriteConflicts(st: State, k: Key, spec: Spec)
    requires Valid(st)
    requires GetStep(st, k).1.Ok?
    requires var st1 := GetStep(st, k).0; st1.events.Then? && st1.events.head.Write?
    ensures var (st1, got) := GetStep(st, k);
      UpdateStep(st1, got.value.(spec := spec)).1 == Err(Conflict)
  {
    var (st1, got) := GetStep(st, k);
    ServeFacts(st, k, GetReq(k));
    var o := got.value.(spec := spec);
    assert KeyOf(o) == k;
    ServeFacts(st1, k, UpdateReq(o));
    assert o.resourceVersion < st1.clock;
  }

  /** A successful delete removes exactly the requested key; every other key
      keeps its object. A failed one changes no other key either. */
  lemma {:induction false} DeleteRemovesOnlyKey(st: State, k: Key)
    requires Valid(st)
    ensures var (st', r) := DeleteStep(st, k);
      && Valid(st')
      && st'.log == st.log + [DeleteReq(k)]
      && AgreeExcept(st.objects, st'.objects, k)
      && (r.Ok? ==> k !in st'.objects && st'.objects == st.objects - {k})
  {
    var (st1, ev) := ServeStep(st, k, DeleteReq(k));
    ServeFacts(st, k, DeleteReq(k));
    var (st', r) := DeleteStep(st, k);
    if r.Ok? {
      assert st'.objects == st1.objects - {k};
      forall k' | k' in st'.objects ensures k' in st.objects - {k} && st'.objects[k'] == (st.objects - {k})[k'] {
      }
      forall k' | k' in st.objects - {k} ensures k' in st'.objects {
      }
    }
  }

  /** Deleting a key that holds no object fails with NotFound when nobody
      else acts: a missing record is not treated as already deleted. */
  lemma DeleteMissingFails(st: State, k: Key)
    requires st.events.Idle? || st.events.head == Quiet
    requires k !in st.objects
    ensures var (st', r) := DeleteStep(st, k);
      r == Err(NotFound) && st'.objects == st.objects
  {
  }

  /** After a successful delete, reading the key finds nothing when nobody
      else acts in between. */
  lemma {:induction false} DeleteThenGetNotFound(st: State, k: Key)
    requires Valid(st)
    requires DeleteStep(st, k).1.Ok?
    requires var st' := DeleteStep(st, k).0; st'.events.Idle? || st'.events.head == Quiet
    ensures GetStep(DeleteStep(st, k).0, k).1 == Err(NotFound)
  {
    DeleteRemovesOnlyKey(st, k);
  }

  /** The store as the commands see it: a handle whose requests change its
      state as the step functions above say. */
  class Store {
    var objects: map<Key, Record>
    var clock: nat
    var events: Script
    var log: seq<Request>

    function Snapshot(): State
      reads this
    {
      State(objects, clock, events, log)
    }

    constructor (st: State)
      ensures Snapshot() == st
    {
      objects, clock, events, log := st.objects, st.clock, st.events, st.log;
    }

    method Serve(k: Key, req: Request) returns (ev: Event)
      modifies this
      ensures (Snapshot(), ev) == ServeStep(old(Snapshot()), k, req)
    {
      log := log + [req];
      if events.Idle? {
        ev := Quiet;
      } else {
        ev := events.head;
        events := events.tail;
      }
      match ev {
        case Write(spec, extra) =>
          var o := if k in objects then objects[k].(spec := spec, extra := extra, resourceVersion := clock)
                   else Record(ApiVersion, Kind, k.name, k.namespace, clock, spec, extra);
          objects := objects[k := o];
          clock := clock + 1;
        case Remove =>
          objects := objects - {k};
        case _ =>
      }
    }

    method Get(k: Key) returns (r: Result<Record>)
      modifies this
      ensures (Snapshot(), r) == GetStep(old(Snapshot()), k)
      ensures Valid(old(Snapshot())) ==> Valid(Snapshot())
    {
      ghost var st := Snapshot();
      if Valid(st) {
        GetFacts(st, k);
      }
      var ev := Serve(k, GetReq(k));
      if ev.Refuse? {
        r := Err(ev.error);
      } else if k in objects {
        r := Ok(objects[k]);
      } else {
        r := Err(NotFound);
      }
    }

    method Create(o: Record) returns (r: Result<Record>)
      modifies this
      ensures (Snapshot(), r) == CreateStep(old(Snapshot()), o)
      ensures Valid(old(Snapshot())) ==> Valid(Snapshot())
    {
      var k := KeyOf(o);
      ghost var st := Snapshot();
      if Valid(st) {
        ServeFacts(st, k, CreateReq(o));
      }
      var ev := Serve(k, CreateReq(o));
      if ev.Refuse? {
        r := Err(ev.error);
      } else if k in objects {
        r := Err(AlreadyExists);
      } else {
        var stored := o.(resourceVersion := clock);
        objects := objects[k := stored];
        clock := clock + 1;
        r := Ok(stored);
      }
    }

    method Update(o: Record) returns (r: Result<Record>)
      modifies this
      ensures (Snapshot(), r) == UpdateStep(old(Snapshot()), o)
      ensures Valid(old(Snapshot())) ==> Valid(Snapshot())
    {
      ghost var st := Snapshot();
      if Valid(st) {
        UpdateFacts(st, o);
      }
      var k := KeyOf(o);
      var ev := Serve(k, UpdateReq(o));
      if ev.Refuse? {
        r := Err(ev.error);
      } else if k !in objects {
        r := Err(NotFound);
      } else if objects[k].resourceVersion != o.resourceVersion {
        r := Err(Conflict);
      } else {
        var stored := o.(resourceVersion := clock);
        objects := objects[k := stored];
        clock := clock + 1;
        r := Ok(stored);
      }
    }

    method Delete(k: Key) returns (r: Result<()>)
      modifies this
      ensures (Snapshot(), r) == DeleteStep(old(Snapshot()), k)
      ensures Valid(old(Snapshot())) ==> Valid(Snapshot())
    {
      ghost var st := Snapshot();
      if Valid(st) {
        DeleteRemovesOnlyKey(st, k);
      }
      var ev := Serve(k, DeleteReq(k));
      if ev.Refuse? {
        r := Err(ev.error);
      } else if k !in objects {
        r := Err(NotFound);
      } else {
        objects := objects - {k};
        r := Ok(());
      }
    }
  }
}

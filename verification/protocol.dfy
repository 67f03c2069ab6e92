/** The record upsert protocol as functions of the store's state: what a
    `set` does to the store and what it reports. The commands' methods are
    proved to behave exactly as these functions say; the lemmas here state
    what the protocol guarantees. */
module Protocol {
  import opened Records
  import opened Cluster

  /** A store answer with its value dropped. */
  function Status<T>(r: Result<T>): (o: Outcome<StoreError>)
    ensures o.Done? <==> r.Ok?
    ensures o.Failed? ==> o.error == r.error
  {
    if r.Ok? then Done else Failed(r.error)
  }

  /** One update attempt: read the object afresh, replace its spec wholesale
      with `spec`, and send the whole object back with the token just read. */
  function Attempt(st: State, k: Key, spec: Spec): (State, Outcome<StoreError>)
  {
    var (st1, got) := GetStep(st, k);
    if got.Err? then (st1, Failed(got.error))
    else
      var (st2, put) := UpdateStep(st1, got.value.(spec := spec));
      (st2, Status(put))
  }

  /** Run attempts until one ends in anything but a conflict, at most `left`
      of them; after the last one the last conflict is reported. */
  function RetryOnConflict(st: State, k: Key, spec: Spec, left: nat): (State, Outcome<StoreError>)
    requires left > 0
    decreases left
  {
    var (st1, r) := Attempt(st, k, spec);
    if r.Done? || r.error != Conflict || left == 1 then (st1, r)
    else RetryOnConflict(st1, k, spec, left - 1)
  }

  /** Create `rec` when its key holds nothing, otherwise bring the stored
      object's spec to `rec.spec` with the retrying update. */
  function Upsert(st: State, rec: Record, maxAttempts: nat): (State, Outcome<Error>)
    requires maxAttempts > 0
  {
    var k := KeyOf(rec);
    var (st1, got) := GetStep(st, k);
    if got.Err? then
      if got.error == NotFound then
        var (st2, made) := CreateStep(st1, rec);
        (st2, if made.Ok? then Done else Failed(CreateFailed(made.error)))
      else (st1, Failed(Lookup(got.error)))
    else
      var (st2, updated) := RetryOnConflict(st1, k, rec.spec, maxAttempts);
      (st2, if updated.Done? then Done else Failed(UpdateFailed(updated.error)))
  }

  // ----- requests logged by the update loop -----

  /** `after` is `before` with requests appended. */
  predicate Extends(before: seq<Request>, after: seq<Request>) {
    |before| <= |after| && after[..|before|] == before
  }

  /** Every request in `delta` is a read of `k` or an update of `k` carrying
      exactly `spec`, and every update comes right after a read of `k`. */
  predicate AttemptsOn(delta: seq<Request>, k: Key, spec: Spec) {
    forall i :: 0 <= i < |delta| ==> AttemptRequest(delta, i, k, spec)
  }

  predicate AttemptRequest(delta: seq<Request>, i: nat, k: Key, spec: Spec)
    requires i < |delta|
  {
    || delta[i] == GetReq(k)
    || (&& delta[i].UpdateReq?
        && KeyOf(delta[i].record) == k
        && delta[i].record.spec == spec
        && 0 < i && delta[i - 1] == GetReq(k))
  }

  /** The number of reads in `delta`: one per attempt. */
  function Reads(delta: seq<Request>): (n: nat)
    ensures n <= |delta|
  {
    if delta == [] then 0 else (if delta[0].GetReq? then 1 else 0) + Reads(delta[1..])
  }

  lemma {:induction false} ReadsAppend(a: seq<Request>, b: seq<Request>)
    ensures Reads(a + b) == Reads(a) + Reads(b)
  {
    if a != [] {
      assert (a + b)[1..] == a[1..] + b;
      ReadsAppend(a[1..], b);
    } else {
      assert a + b == b;
    }
  }

  lemma AttemptsOnAppend(a: seq<Request>, b: seq<Request>, k: Key, spec: Spec)
    requires AttemptsOn(a, k, spec) && AttemptsOn(b, k, spec)
    ensures AttemptsOn(a + b, k, spec)
  {
    var d := a + b;
    forall i | 0 <= i < |d|
      ensures AttemptRequest(d, i, k, spec)
    {
      if i < |a| {
        assert AttemptRequest(a, i, k, spec);
        assert d[i] == a[i];
        if 0 < i {
          assert d[i - 1] == a[i - 1];
        }
      } else {
        var j := i - |a|;
        assert AttemptRequest(b, j, k, spec);
        assert d[i] == b[j];
        if 0 < j {
          assert d[i - 1] == b[j - 1];
        }
      }
    }
  }

  lemma ExtendsTrans(a: seq<Request>, b: seq<Request>, c: seq<Request>)
    requires Extends(a, b) && Extends(b, c)
    ensures Extends(a, c)
    ensures c[|a|..] == b[|a|..] + c[|b|..]
  {
    assert c[..|a|] == c[..|b|][..|a|];
  }

  // ----- one attempt -----

  /** One attempt keeps the store valid, touches no other key, logs one read
      of `k` and at most one update of `k` carrying `spec`. When it succeeds,
      the stored object is the one it read with only the spec replaced and a
      new version token: nothing else of the object is lost or merged. */
  lemma {:induction false} AttemptFacts(st: State, k: Key, spec: Spec)
    requires Valid(st)
    ensures var (st', r) := Attempt(st, k, spec);
      && Valid(st')
      && AgreeExcept(st.objects, st'.objects, k)
      && Extends(st.log, st'.log)
      && AttemptsOn(st'.log[|st.log|..], k, spec)
      && Reads(st'.log[|st.log|..]) == 1
      && (r.Done? ==>
            var st1 := GetStep(st, k).0;
            && k in st1.objects
            && st'.objects == st1.objects[k := st1.objects[k].(spec := spec, resourceVersion := st1.clock)])
  {
    var (st1, got) := GetStep(st, k);
    GetFacts(st, k);
    if got.Ok? {
      var o := got.value.(spec := spec);
      UpdateFacts(st1, o);
      var st' := UpdateStep(st1, o).0;
      assert st'.log[|st.log|..] == [GetReq(k), UpdateReq(o)];
      assert Reads([GetReq(k), UpdateReq(o)]) == 1;
    } else {
      assert st1.log[|st.log|..] == [GetReq(k)];
      assert Reads([GetReq(k)]) == 1;
    }
  }

  // ----- the retry loop -----

  /** The retrying update keeps the store valid and touches no other key. It
      logs only reads of `k` and updates of `k` carrying `spec`, each update
      right after a fresh read, at most `left` attempts, and exactly `left`
      when it gives up on a conflict. When it succeeds, the stored spec is
      `spec`. */
  lemma {:induction false} RetryFacts(st: State, k: Key, spec: Spec, left: nat)
    requires Valid(st)
    requires left > 0
    ensures var (st', r) := RetryOnConflict(st, k, spec, left);
      && Valid(st')
      && AgreeExcept(st.objects, st'.objects, k)
      && Extends(st.log, st'.log)
      && AttemptsOn(st'.log[|st.log|..], k, spec)
      && 1 <= Reads(st'.log[|st.log|..]) <= left
      && (r == Failed(Conflict) ==> Reads(st'.log[|st.log|..]) == left)
      && (r.Done? ==> k in st'.objects && st'.objects[k].spec == spec)
    decreases left
  {
    var (st1, r1) := Attempt(st, k, spec);
    AttemptFacts(st, k, spec);
    if !(r1.Done? || r1.error != Conflict || left == 1) {
      RetryFacts(st1, k, spec, left - 1);
      var st' := RetryOnConflict(st1, k, spec, left - 1).0;
      ExtendsTrans(st.log, st1.log, st'.log);
      AttemptsOnAppend(st1.log[|st.log|..], st'.log[|st1.log|..], k, spec);
      ReadsAppend(st1.log[|st.log|..], st'.log[|st1.log|..]);
    }
  }

  /** Only a conflict is retried: an attempt ending in any other error ends
      the loop at once with that error, however many attempts are left. */
  lemma OtherErrorEndsLoop(st: State, k: Key, spec: Spec, left: nat)
    requires left > 0
    requires var r := Attempt(st, k, spec).1; r.Failed? && r.error != Conflict
    ensures RetryOnConflict(st, k, spec, left) == Attempt(st, k, spec)
  {
  }

  /** A conflict with attempts left is retried, from the state the failed
      attempt left behind. */
  lemma ConflictIsRetried(st: State, k: Key, spec: Spec, left: nat)
    requires left > 1
    requires Attempt(st, k, spec).1 == Failed(Conflict)
    ensures RetryOnConflict(st, k, spec, left) == RetryOnConflict(Attempt(st, k, spec).0, k, spec, left - 1)
  {
  }

  // ----- scripted contention -----

  /** `m` rounds in which another writer stores its version (spec `w`, other
      fields `x`) between our read and our update, then the script `rest`. */
  function Contended(m: nat, w: Spec, x: map<string, string>, rest: Script): Script
  {
    if m == 0 then rest else Then(Quiet, Then(Write(w, x), Contended(m - 1, w, x, rest)))
  }

  /** An attempt that meets no other writer succeeds and replaces only the
      spec of the stored object. */
  lemma {:induction false} QuietAttempt(st: State, k: Key, spec: Spec, rest: Script)
    requires Valid(st) && k in st.objects
    requires st.events == Then(Quiet, Then(Quiet, rest))
    ensures var (st', r) := Attempt(st, k, spec);
      && r == Done
      && st'.events == rest
      && k in st'.objects
      && st'.objects[k] == st.objects[k].(spec := spec, resourceVersion := st.clock)
  {
    var (st1, got) := GetStep(st, k);
    ServeFacts(st, k, GetReq(k));
    var o := got.value.(spec := spec);
    assert KeyOf(o) == k;
    ServeFacts(st1, k, UpdateReq(o));
  }

  /** An attempt whose update is preceded by another writer's version loses
      the race: it reports a conflict and the other writer's version stays. */
  lemma {:induction false} ContendedAttempt(
    st: State, k: Key, spec: Spec, w: Spec, x: map<string, string>, rest: Script)
    requires Valid(st) && k in st.objects
    requires st.events == Then(Quiet, Then(Write(w, x), rest))
    ensures var (st', r) := Attempt(st, k, spec);
      && r == Failed(Conflict)
      && Valid(st')
      && st'.events == rest
      && k in st'.objects
      && st'.objects[k].spec == w
      && st'.objects[k].extra == x
  {
    var (st1, got) := GetStep(st, k);
    ServeFacts(st, k, GetReq(k));
    var o := got.value.(spec := spec);
    assert KeyOf(o) == k;
    ServeFacts(st1, k, UpdateReq(o));
  }

  /** When the first `m` updates lose a race and the next attempt meets no
      other writer, the loop succeeds as long as `m` is below the bound. The
      stored spec is ours and the rest of the object is the latest one read,
      including what the other writer stored. */
  lemma {:induction false} ConflictsThenSuccess(
    st: State, k: Key, spec: Spec, left: nat, m: nat, w: Spec, x: map<string, string>, rest: Script)
    requires Valid(st) && k in st.objects
    requires m < left
    requires st.events == Contended(m, w, x, Then(Quiet, Then(Quiet, rest)))
    ensures var (st', r) := RetryOnConflict(st, k, spec, left);
      && r == Done
      && st'.events == rest
      && k in st'.objects
      && st'.objects[k].spec == spec
      && st'.objects[k].extra == (if m == 0 then st.objects[k].extra else x)
    decreases m
  {
    if m == 0 {
      QuietAttempt(st, k, spec, rest);
    } else {
      var tail := Contended(m - 1, w, x, Then(Quiet, Then(Quiet, rest)));
      ContendedAttempt(st, k, spec, w, x, tail);
      ConflictsThenSuccess(Attempt(st, k, spec).0, k, spec, left - 1, m - 1, w, x, rest);
    }
  }

  /** When every one of the `left` attempts loses the race, the loop gives up
      with the conflict after exactly `left` attempts, and the other writer's
      version stays stored. */
  lemma {:induction false} ConflictsExhaust(
    st: State, k: Key, spec: Spec, left: nat, w: Spec, x: map<string, string>, rest: Script)
    requires Valid(st) && k in st.objects
    requires left > 0
    requires st.events == Contended(left, w, x, rest)
    ensures var (st', r) := RetryOnConflict(st, k, spec, left);
      && r == Failed(Conflict)
      && st'.events == rest
      && k in st'.objects
      && st'.objects[k].spec == w
      && st'.objects[k].extra == x
    decreases left
  {
    ContendedAttempt(st, k, spec, w, x, Contended(left - 1, w, x, rest));
    if left > 1 {
      ConflictsExhaust(Attempt(st, k, spec).0, k, spec, left - 1, w, x, rest);
    }
  }

  // ----- the upsert -----

  /** `a` is `b` apart from its version token. */
  predicate SameButVersion(a: Record, b: Record) {
    a.(resourceVersion := 0) == b.(resourceVersion := 0)
  }

  /** The upsert keeps the store valid and touches no other key; when it
      succeeds, the stored spec under the record's key is `rec.spec`. */
  lemma {:induction false} UpsertFacts(st: State, rec: Record, maxAttempts: nat)
    requires Valid(st)
    requires maxAttempts > 0
    ensures var (st', r) := Upsert(st, rec, maxAttempts);
      && Valid(st')
      && AgreeExcept(st.objects, st'.objects, KeyOf(rec))
      && (r.Done? ==> KeyOf(rec) in st'.objects && st'.objects[KeyOf(rec)].spec == rec.spec)
  {
    var k := KeyOf(rec);
    var (st1, got) := GetStep(st, k);
    GetFacts(st, k);
    if got.Err? {
      if got.error == NotFound {
        ServeFacts(st1, k, CreateReq(rec));
      }
    } else {
      RetryFacts(st1, k, rec.spec, maxAttempts);
    }
  }

  /** A lookup that fails with anything but NotFound ends the upsert with a
      lookup error after that one read: nothing is created or updated. */
  lemma LookupFailureStops(st: State, rec: Record, maxAttempts: nat)
    requires maxAttempts > 0
    requires var got := GetStep(st, KeyOf(rec)).1; got.Err? && got.error != NotFound
    ensures var (st', r) := Upsert(st, rec, maxAttempts);
      && r == Failed(Lookup(GetStep(st, KeyOf(rec)).1.error))
      && st'.objects == st.objects
      && st'.log == st.log + [GetReq(KeyOf(rec))]
  {
  }

  /** When the lookup finds nothing, the upsert makes exactly one create
      request, for `rec`, and nothing else; on success `rec` is stored under
      its key with a store-assigned version token, and no other key changes. */
  lemma {:induction false} MissingRecordIsCreated(st: State, rec: Record, maxAttempts: nat)
    requires Valid(st)
    requires maxAttempts > 0
    requires GetStep(st, KeyOf(rec)).1 == Err(NotFound)
    ensures var (st', r) := Upsert(st, rec, maxAttempts);
      && st'.log == st.log + [GetReq(KeyOf(rec)), CreateReq(rec)]
      && (r.Failed? ==> r.error.CreateFailed?)
      && (r.Done? ==> KeyOf(rec) in st'.objects && SameButVersion(st'.objects[KeyOf(rec)], rec))
      && AgreeExcept(st.objects, st'.objects, KeyOf(rec))
  {
    var k := KeyOf(rec);
    var st1 := GetStep(st, k).0;
    ServeFacts(st, k, GetReq(k));
    ServeFacts(st1, k, CreateReq(rec));
  }

  /** When another writer removes the object between the lookup and the
      update's own read, the `set` fails with the update's NotFound after that
      one read: the loop does not retry it and the `set` does not fall back to
      creating the record. */
  lemma {:induction false} RemovedBeforeUpdateFails(st: State, rec: Record, maxAttempts: nat, rest: Script)
    requires maxAttempts > 0
    requires KeyOf(rec) in st.objects
    requires st.events == Then(Quiet, Then(Remove, rest))
    ensures var (st', r) := Upsert(st, rec, maxAttempts);
      var k := KeyOf(rec);
      && r == Failed(UpdateFailed(NotFound))
      && st'.objects == st.objects - {k}
      && st'.log == st.log + [GetReq(k), GetReq(k)]
      && st'.events == rest
  {
    var k := KeyOf(rec);
    var st1 := GetStep(st, k).0;
    assert st1.events == Then(Remove, rest);
    assert Attempt(st1, k, rec.spec).1 == Failed(NotFound);
    OtherErrorEndsLoop(st1, k, rec.spec, maxAttempts);
  }

  /** With no other writer, the upsert succeeds at once: a missing record is
      created as `rec`, an existing one keeps everything but its spec, which
      becomes `rec.spec`. */
  lemma {:induction false} UpsertAlone(st: State, rec: Record, maxAttempts: nat)
    requires Valid(st)
    requires maxAttempts > 0
    requires st.events == Idle
    ensures var (st', r) := Upsert(st, rec, maxAttempts);
      var k := KeyOf(rec);
      && r == Done
      && st'.events == Idle
      && st'.clock == st.clock + 1
      && (k !in st.objects ==> st'.objects == st.objects[k := rec.(resourceVersion := st.clock)])
      && (k in st.objects ==>
            st'.objects == st.objects[k := st.objects[k].(spec := rec.spec, resourceVersion := st.clock)])
  {
    var k := KeyOf(rec);
    var (st1, got) := GetStep(st, k);
    ServeFacts(st, k, GetReq(k));
    if k in st.objects {
      var (st2, got2) := GetStep(st1, k);
      ServeFacts(st1, k, GetReq(k));
      var o := got2.value.(spec := rec.spec);
      assert KeyOf(o) == k;
      ServeFacts(st2, k, UpdateReq(o));
    } else {
      ServeFacts(st1, k, CreateReq(rec));
    }
  }

  /** Setting the same key twice with no other writer creates once and then
      updates once; the stored spec is the second one exactly, and the rest
      of the document is what the first set created. */
  lemma SetTwice(st: State, first: Record, second: Record, maxAttempts: nat)
    requires Valid(st)
    requires maxAttempts > 0
    requires st.events == Idle
    requires KeyOf(first) == KeyOf(second) && KeyOf(first) !in st.objects
    ensures var (st1, r1) := Upsert(st, first, maxAttempts);
      var (st2, r2) := Upsert(st1, second, maxAttempts);
      var k := KeyOf(first);
      && r1 == Done && r2 == Done
      && st2.objects == st.objects[k := first.(spec := second.spec, resourceVersion := st.clock + 1)]
      && st2.log == st.log + [GetReq(k), CreateReq(first), GetReq(k), GetReq(k),
                               UpdateReq(first.(spec := second.spec, resourceVersion := st.clock))]
  {
    var k := KeyOf(first);
    UpsertAlone(st, first, maxAttempts);
    var st1 := Upsert(st, first, maxAttempts).0;
    UpsertFacts(st, first, maxAttempts);
    UpsertAlone(st1, second, maxAttempts);
    assert st1.objects[k] == first.(resourceVersion := st.clock);
  }
}

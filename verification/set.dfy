/** The `set` command: validate a configuration, then create the Record
    object when it does not exist yet, or replace its spec with a retrying
    update when it does. */
module SetCommand {
  import opened Text
  import opened Records
  import opened Cluster
  import opened Protocol

  /** The configuration of a `set`, passed by value as the command builds it. */
  datatype SetConfig = SetConfig(zone: string, name: string, rrType: string, rawContents: string, namespace: string)
  {
    /** The required fields left blank: zone, name, type and contents, each at
        most once and in that order. */
    function BlankFields(): (blank: seq<Field>)
      ensures blank == [] <==> zone != "" && name != "" && rrType != "" && rawContents != ""
      ensures Zone in blank <==> zone == ""
      ensures Name in blank <==> name == ""
      ensures Type in blank <==> rrType == ""
      ensures Contents in blank <==> rawContents == ""
      ensures InCheckingOrder(blank)
    {
      Flagged(zone == "", name == "", rrType == "", rawContents == "")
    }

    /** Checks every required field, collecting one error per blank field
        instead of stopping at the first, and gives a blank namespace the
        default one whether or not a field was blank. No other field changes. */
    method Validate() returns (blank: seq<Field>, validated: SetConfig)
      ensures blank == BlankFields()
      ensures validated == this.(namespace := Defaulted(namespace))
    {
      ghost var zones, names, types := if zone == "" then [Zone] else [], if name == "" then [Name] else [],
                                       if rrType == "" then [Type] else [];
      blank := [];
      if zone == "" {
        blank := blank + [Zone];
      }
      assert blank == zones;
      if name == "" {
        blank := blank + [Name];
      }
      assert blank == zones + names;
      if rrType == "" {
        blank := blank + [Type];
      }
      assert blank == zones + names + types;
      if rawContents == "" {
        blank := blank + [Contents];
      }
      validated := this;
      if namespace == "" {
        validated := validated.(namespace := DefaultNamespace);
      }
    }

    /** The spec payload: zone, name and type copied as given (the type keeps
        its case), and the contents split at every comma with nothing trimmed
        or removed, so the values joined with commas give the contents back.
        It holds no other spec field. */
    function ToSpec(): (s: Spec)
      ensures s.zone == zone && s.name == name && s.rrType == rrType
      ensures s.other == map[]
      ensures |s.value| == Count(rawContents, ',') + 1
      ensures forall i :: 0 <= i < |s.value| ==> ',' !in s.value[i]
      ensures Join(s.value, ',') == rawContents
    {
      JoinSplit(rawContents, ',');
      Spec(zone, name, rrType, Split(rawContents, ','), map[])
    }

    /** The name the record is stored under. */
    function ObjectName(): string {
      ObjectKey(name, rrType)
    }
  }

  /** The object a `set` creates: the Record kind at its group/version, named
      by the key, in the configuration's namespace, with the spec payload and
      no other field. */
  function InitRecord(config: SetConfig): (rec: Record)
    ensures rec.apiVersion == ApiVersion && rec.kind == Kind
    ensures KeyOf(rec) == Key(config.namespace, config.ObjectName())
    ensures rec.spec == config.ToSpec()
    ensures rec.extra == map[]
  {
    Record(ApiVersion, Kind, config.ObjectName(), config.namespace, 0, config.ToSpec(), map[])
  }

  /** The values are the only list of comma-free pieces that joins back to
      the contents: the split keeps empty pieces and repeats, and drops
      nothing. */
  lemma {:induction false} ToSpecIsTheSplit(config: SetConfig, values: seq<string>)
    requires |values| >= 1
    requires forall i :: 0 <= i < |values| ==> ',' !in values[i]
    requires Join(values, ',') == config.rawContents
    ensures config.ToSpec().value == values
  {
    SplitJoin(values, ',');
  }

  /** A `set` over an existing record replaces its whole spec: a spec field
      the command does not write, stored there by another writer, is gone
      afterwards, while the rest of the document is kept. */
  lemma {:induction false} SetReplacesWholeSpec(st: State, config: SetConfig, maxAttempts: nat)
    requires Valid(st)
    requires maxAttempts > 0
    requires st.events == Idle
    requires KeyOf(InitRecord(config)) in st.objects
    ensures var (st', r) := Upsert(st, InitRecord(config), maxAttempts);
      var k := KeyOf(InitRecord(config));
      && r == Done
      && k in st'.objects
      && st'.objects[k].spec == config.ToSpec()
      && st'.objects[k].spec.other == map[]
      && st'.objects[k].extra == st.objects[k].extra
  {
    UpsertAlone(st, InitRecord(config), maxAttempts);
  }

  /** Two configurations with the same name get the same key exactly when
      their types agree up to case; zone, contents and namespace play no
      part. */
  lemma {:induction false} ObjectNameIgnoresCase(a: SetConfig, b: SetConfig)
    requires a.name == b.name
    ensures a.ObjectName() == b.ObjectName() <==> Lower(a.rrType) == Lower(b.rrType)
  {
    var ka, kb := a.ObjectName(), b.ObjectName();
    var n := |a.name|;
    if ka == kb {
      assert ka[n + 1..] == kb[n + 1..];
    } else {
      assert ka == a.name + "-" + Lower(a.rrType);
      assert kb == b.name + "-" + Lower(b.rrType);
    }
  }

  /** Creates the initial object for `config`. */
  method CreateRecord(store: Store, config: SetConfig) returns (r: Outcome<StoreError>)
    modifies store
    ensures (store.Snapshot(), r) == (CreateStep(old(store.Snapshot()), InitRecord(config)).0,
                                      Status(CreateStep(old(store.Snapshot()), InitRecord(config)).1))
    ensures Valid(old(store.Snapshot())) ==> Valid(store.Snapshot())
  {
    var record := InitRecord(config);
    var created := store.Create(record);
    if created.Err? {
      return Failed(created.error);
    }
    return Done;
  }

  /** One attempt of the update: read the current object, replace its whole
      spec with the configuration's, and write it back. */
  method TryUpdate(store: Store, config: SetConfig) returns (r: Outcome<StoreError>)
    modifies store
    ensures (store.Snapshot(), r) == Attempt(old(store.Snapshot()), Key(config.namespace, config.ObjectName()), config.ToSpec())
    ensures Valid(old(store.Snapshot())) ==> Valid(store.Snapshot())
  {
    var result := store.Get(Key(config.namespace, config.ObjectName()));
    if result.Err? {
      return Failed(result.error);
    }
    var record := result.value.(spec := config.ToSpec());
    var updated := store.Update(record);
    if updated.Err? {
      return Failed(updated.error);
    }
    return Done;
  }

  /** Runs update attempts while they end in a conflict, at most
      `maxAttempts` of them, and reports the last attempt's error. */
  method UpdateRecord(store: Store, config: SetConfig, maxAttempts: nat) returns (r: Outcome<StoreError>)
    requires maxAttempts > 0
    modifies store
    ensures (store.Snapshot(), r)
         == RetryOnConflict(old(store.Snapshot()), Key(config.namespace, config.ObjectName()), config.ToSpec(), maxAttempts)
    ensures Valid(old(store.Snapshot())) ==> Valid(store.Snapshot())
  {
    var key, spec := Key(config.namespace, config.ObjectName()), config.ToSpec();
    var left := maxAttempts;
    while true
      invariant 0 < left <= maxAttempts
      invariant RetryOnConflict(old(store.Snapshot()), key, spec, maxAttempts)
             == RetryOnConflict(store.Snapshot(), key, spec, left)
      invariant Valid(old(store.Snapshot())) ==> Valid(store.Snapshot())
      decreases left
    {
      r := TryUpdate(store, config);
      if r.Done? || r.error != Conflict || left == 1 {
        return;
      }
      left := left - 1;
    }
  }

  /** Creates or updates the record. A configuration with a blank field is
      refused before the store is touched. Otherwise the object is looked up
      by its key in the (defaulted) namespace: when it is missing it is
      created, when the lookup fails otherwise the `set` fails, and when it
      exists its spec is replaced by the retrying update. */
  method Set(store: Store, config: SetConfig, maxAttempts: nat) returns (r: Outcome<Error>)
    requires maxAttempts > 0
    modifies store
    ensures config.BlankFields() != [] ==> r == Failed(Invalid(config.BlankFields())) && unchanged(store)
    ensures config.BlankFields() == [] ==>
      (store.Snapshot(), r)
      == Upsert(old(store.Snapshot()), InitRecord(config.(namespace := Defaulted(config.namespace))), maxAttempts)
    ensures Valid(old(store.Snapshot())) ==> Valid(store.Snapshot())
  {
    var blank, c := config.Validate();
    if blank != [] {
      return Failed(Invalid(blank));
    }
    var existing := store.Get(Key(c.namespace, c.ObjectName()));
    if existing.Err? {
      if existing.error != NotFound {
        return Failed(Lookup(existing.error));
      }
      var created := CreateRecord(store, c);
      if created.Failed? {
        return Failed(CreateFailed(created.error));
      }
      return Done;
    }
    var updated := UpdateRecord(store, c, maxAttempts);
    if updated.Failed? {
      return Failed(UpdateFailed(updated.error));
    }
    return Done;
  }
}

/** The `delete` command: validate a configuration, then delete the Record
    object stored under its key. */
module DeleteCommand {
  import opened Text
  import opened Records
  import opened Cluster
  import SetCommand

  /** The configuration of a `delete`: no contents. */
  datatype DeleteConfig = DeleteConfig(zone: string, name: string, rrType: string, namespace: string)
  {
    /** The required fields left blank: zone, name and type, each at most once
        and in that order. Contents are never required here. */
    function BlankFields(): (blank: seq<Field>)
      ensures blank == [] <==> zone != "" && name != "" && rrType != ""
      ensures Zone in blank <==> zone == ""
      ensures Name in blank <==> name == ""
      ensures Type in blank <==> rrType == ""
      ensures Contents !in blank
      ensures InCheckingOrder(blank)
    {
      Flagged(zone == "", name == "", rrType == "", false)
    }

    /** Checks every required field, collecting one error per blank field,
        and gives a blank namespace the default one whether or not a field was
        blank. No other field changes. */
    method Validate() returns (blank: seq<Field>, validated: DeleteConfig)
      ensures blank == BlankFields()
      ensures validated == this.(namespace := Defaulted(namespace))
    {
      ghost var zones, names := if zone == "" then [Zone] else [], if name == "" then [Name] else [];
      blank := [];
      if zone == "" {
        blank := blank + [Zone];
      }
      assert blank == zones;
      if name == "" {
        blank := blank + [Name];
      }
      assert blank == zones + names;
      if rrType == "" {
        blank := blank + [Type];
      }
      validated := this;
      if namespace == "" {
        validated := validated.(namespace := DefaultNamespace);
      }
    }

    /** The name of the object to delete, derived as for `set`. */
    function ObjectName(): string {
      ObjectKey(name, rrType)
    }
  }

  /** A `delete` targets the object a `set` wrote: with the same name, the
      same type up to case and the same namespace after defaulting, the key
      and namespace `delete` uses are those of the record `set` creates. */
  lemma {:induction false} DeleteTargetsSetRecord(s: SetCommand.SetConfig, d: DeleteConfig)
    requires s.name == d.name
    requires Lower(s.rrType) == Lower(d.rrType)
    requires Defaulted(s.namespace) == Defaulted(d.namespace)
    ensures KeyOf(SetCommand.InitRecord(s.(namespace := Defaulted(s.namespace))))
         == Key(Defaulted(d.namespace), d.ObjectName())
  {
    assert s.ObjectName() == s.name + "-" + Lower(s.rrType);
    assert d.ObjectName() == d.name + "-" + Lower(d.rrType);
  }

  /** Deletes the record. A configuration with a blank field is refused
      before the store is touched. Otherwise exactly the key derived from the
      configuration is deleted in its (defaulted) namespace, and any store
      error, NotFound included, is reported as a delete error. */
  method Delete(store: Store, config: DeleteConfig) returns (r: Outcome<Error>)
    modifies store
    ensures config.BlankFields() != [] ==> r == Failed(Invalid(config.BlankFields())) && unchanged(store)
    ensures config.BlankFields() == [] ==>
      var (st, deleted) := DeleteStep(old(store.Snapshot()), Key(Defaulted(config.namespace), config.ObjectName()));
      && store.Snapshot() == st
      && r == (if deleted.Ok? then Done else Failed(DeleteFailed(deleted.error)))
    ensures Valid(old(store.Snapshot())) ==> Valid(store.Snapshot())
  {
    var blank, c := config.Validate();
    if blank != [] {
      return Failed(Invalid(blank));
    }
    var deleted := store.Delete(Key(c.namespace, c.ObjectName()));
    if deleted.Err? {
      return Failed(DeleteFailed(deleted.error));
    }
    return Done;
  }
}

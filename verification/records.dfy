/** The shapes the record commands exchange with the cluster: the `spec`
    payload, the stored Record document, its store key, and the errors the
    commands report. */
module Records {
  import opened Text

  /** The group/version and kind every Record document carries. */
  const ApiVersion: string := "pdns.bryanl.dev/v1alpha1"
  const Kind: string := "Record"

  /** The namespace used when none is given. */
  const DefaultNamespace: string := "default"

  /** The `spec` payload: zone, record name, record type and the ordered
      values. `other` stands for any further spec field another writer may
      have stored; the commands never write one. */
  datatype Spec = Spec(zone: string, name: string, rrType: string, value: seq<string>, other: map<string, string>)

  /** A stored Record document. `resourceVersion` is the store's version token;
      `extra` stands for every other field of the document (labels,
      annotations, status, ...), which the commands never write. */
  datatype Record = Record(
    apiVersion: string,
    kind: string,
    name: string,
    namespace: string,
    resourceVersion: nat,
    spec: Spec,
    extra: map<string, string>)

  /** The name a record is stored under: the record name, a dash, and the
      type lower-cased. The part after the dash has no upper-case letter and
      equals the type up to case. */
  function ObjectKey(name: string, rrType: string): (k: string)
    ensures |k| == |name| + 1 + |rrType|
    ensures k[..|name|] == name && k[|name|] == '-'
    ensures Lower(k[|name| + 1..]) == k[|name| + 1..]
    ensures Lower(k[|name| + 1..]) == Lower(rrType)
  {
    LowerIdempotent(rrType);
    var k := name + "-" + Lower(rrType);
    assert k[|name| + 1..] == Lower(rrType);
    k
  }

  /** Objects are stored per namespace under their name. */
  datatype Key = Key(namespace: string, name: string)

  function KeyOf(r: Record): Key {
    Key(r.namespace, r.name)
  }

  /** What a store request can fail with. `Rejected` covers every other
      failure (forbidden, unavailable, timed out, ...). */
  datatype StoreError = NotFound | AlreadyExists | Conflict | Rejected(reason: string)

  /** The required fields of a configuration, in the order they are checked. */
  datatype Field = Zone | Name | Type | Contents

  function Rank(f: Field): nat {
    match f
    case Zone => 0
    case Name => 1
    case Type => 2
    case Contents => 3
  }

  /** Each field at most once, in checking order. */
  predicate InCheckingOrder(fs: seq<Field>) {
    forall i, j :: 0 <= i < j < |fs| ==> Rank(fs[i]) < Rank(fs[j])
  }

  /** Appending a field checked after the last one present keeps the
      checking order. */
  lemma {:induction false} AppendInOrder(fs: seq<Field>, f: Field)
    requires InCheckingOrder(fs)
    requires fs != [] ==> Rank(fs[|fs| - 1]) < Rank(f)
    ensures InCheckingOrder(fs + [f])
  {
    forall i, j | 0 <= i < j < |fs + [f]|
      ensures Rank((fs + [f])[i]) < Rank((fs + [f])[j])
    {
      if j == |fs| && i < |fs| - 1 {
        assert Rank(fs[i]) < Rank(fs[|fs| - 1]);
      }
    }
  }

  /** The fields flagged blank, each once and in checking order. */
  function Flagged(zone: bool, name: bool, rrType: bool, contents: bool): (fs: seq<Field>)
    ensures fs == [] <==> !zone && !name && !rrType && !contents
    ensures Zone in fs <==> zone
    ensures Name in fs <==> name
    ensures Type in fs <==> rrType
    ensures Contents in fs <==> contents
    ensures InCheckingOrder(fs)
  {
    var z := if zone then [Zone] else [];
    assert z == [] <==> !zone;
    var zn := if name then AppendInOrder(z, Name); z + [Name] else z;
    assert zn == [] <==> !zone && !name;
    assert zn != [] ==> Rank(zn[|zn| - 1]) <= Rank(Name);
    assert (Zone in zn <==> zone) && (Name in zn <==> name) && Type !in zn && Contents !in zn;
    var znt := if rrType then AppendInOrder(zn, Type); zn + [Type] else zn;
    assert znt == [] <==> !zone && !name && !rrType;
    assert znt != [] ==> Rank(znt[|znt| - 1]) <= Rank(Type);
    assert (Zone in znt <==> zone) && (Name in znt <==> name) && (Type in znt <==> rrType) && Contents !in znt;
    if contents then AppendInOrder(znt, Contents); znt + [Contents] else znt
  }

  /** The errors a command reports, each naming the stage that failed and
      keeping the store's error as its cause. */
  datatype Error =
    | Invalid(blank: seq<Field>)
    | Lookup(cause: StoreError)
    | CreateFailed(cause: StoreError)
    | UpdateFailed(cause: StoreError)
    | DeleteFailed(cause: StoreError)

  /** The result of an operation that returns nothing but may fail. */
  datatype Outcome<+E> = Done | Failed(error: E)

  /** The namespace a validated configuration ends up with. */
  function Defaulted(namespace: string): (ns: string)
    ensures ns != ""
    ensures namespace != "" ==> ns == namespace
    ensures namespace == "" ==> ns == DefaultNamespace
  {
    if namespace == "" then DefaultNamespace else namespace
  }
}

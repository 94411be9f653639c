/** The provider's registry: for each index kind a map from identifier to
    index, a set of writable handles and the union of indexed property names,
    with the transitions `register`, `getReader` and the property-name arrays. */
module Registry {
  import opened Fulltext

  /** The bookkeeping the provider keeps for one kind. */
  datatype Partition = Partition(indices: map<string, Index>, writable: set<Writable>, properties: set<string>)

  const EmptyPartition: Partition := Partition(map[], {}, {})

  /** The provider's mutable fields. `nextSerial` names the next WritableFulltext
      object to be allocated. */
  datatype Provider = Provider(nodes: Partition, relationships: Partition, nextSerial: nat) {

    /** The partition a kind dispatches to. */
    function Part(k: Kind): Partition {
      match k
      case Nodes => nodes
      case Relationships => relationships
    }

    /** This provider with the partition of kind `k` replaced. */
    function With(k: Kind, part: Partition): (r: Provider)
      ensures r.Part(k) == part && r.Part(k.Other()) == Part(k.Other())
      ensures r.nextSerial == nextSerial
    {
      match k
      case Nodes => this.(nodes := part)
      case Relationships => this.(relationships := part)
    }
  }

  /** A freshly constructed provider: every collection empty. */
  const Fresh: Provider := Provider(EmptyPartition, EmptyPartition, 0)

  /** The invariant the registry keeps for the partition of kind `k`: every
      index sits under its own identifier and in its own kind, every writable
      handle wraps an index of that kind and was allocated before `next`, and
      every property name of a mapped index is in the property set. */
  predicate PartitionValid(part: Partition, k: Kind, next: nat) {
    && (forall id :: id in part.indices ==> part.indices[id].identifier == id && part.indices[id].kind == k)
    && (forall w :: w in part.writable ==> w.index.kind == k && w.serial < next)
    && (forall id, name :: id in part.indices && name in part.indices[id].properties ==> name in part.properties)
  }

  predicate Valid(p: Provider) {
    PartitionValid(p.nodes, Nodes, p.nextSerial) && PartitionValid(p.relationships, Relationships, p.nextSerial)
  }

  /** The state change `register` makes once `open` has succeeded: the
      partition picked by the index's kind gets the index under its
      identifier, one new writable handle and the index's property names; the
      other partition is untouched. */
  function Admit(p: Provider, idx: Index): (r: Provider)
    ensures var before, after := p.Part(idx.kind), r.Part(idx.kind);
      && after.indices.Keys == before.indices.Keys + {idx.identifier}
      && after.indices[idx.identifier] == idx
      && (forall id :: id in before.indices && id != idx.identifier ==> after.indices[id] == before.indices[id])
      && before.writable <= after.writable
      && Writable(p.nextSerial, idx) in after.writable
      && after.writable - before.writable <= {Writable(p.nextSerial, idx)}
      && |after.writable| <= |before.writable| + 1
      && (forall name :: name in after.properties <==> name in before.properties || name in idx.properties)
    ensures r.Part(idx.kind.Other()) == p.Part(idx.kind.Other())
    ensures r.nextSerial == p.nextSerial + 1
  {
    var part := p.Part(idx.kind);
    var handle := Writable(p.nextSerial, idx);
    var updated := Partition(
      part.indices[idx.identifier := idx],
      part.writable + {handle},
      part.properties + set name | name in idx.properties);
    p.With(idx.kind, updated).(nextSerial := p.nextSerial + 1)
  }

  /** On a valid provider the new writable handle is really new, so the
      writable set of the index's kind grows by exactly one handle, the one
      wrapping the registered index. */
  lemma AdmitAddsOneHandle(p: Provider, idx: Index)
    requires Valid(p)
    ensures var before, after := p.Part(idx.kind).writable, Admit(p, idx).Part(idx.kind).writable;
      && |after| == |before| + 1
      && (exists w :: w in after - before && w.index == idx)
  {
  }

  /** Registration keeps the registry invariant. */
  lemma AdmitPreservesValid(p: Provider, idx: Index)
    requires Valid(p)
    ensures Valid(Admit(p, idx))
  {
  }

  /** How `register` ends: either `open` threw an IOException, which leaves the
      provider as it was and reaches the caller, or the registration took place. */
  datatype Registration = Registration(provider: Provider, raised: bool)

  /** `register`: open the index (whether it succeeds is decided outside the
      provider), then admit it. `openSucceeds` is that outcome. */
  function Register(p: Provider, idx: Index, openSucceeds: bool): (r: Registration)
    ensures r.raised <==> !openSucceeds
    ensures r.raised ==> r.provider == p
    ensures !r.raised ==>
              && idx.identifier in r.provider.Part(idx.kind).indices
              && r.provider.Part(idx.kind).indices[idx.identifier] == idx
    ensures !r.raised ==> p.Part(idx.kind).properties <= r.provider.Part(idx.kind).properties
    ensures !r.raised ==> r.provider.Part(idx.kind.Other()) == p.Part(idx.kind.Other())
  {
    if openSucceeds then Registration(Admit(p, idx), false) else Registration(p, true)
  }

  /** `getReader` as its documentation promises it: a reader on the index of
      kind `k` registered under `identifier`, or nothing (null) when there is none. */
  function GetReader(p: Provider, identifier: string, k: Kind): (r: Option<Reader>)
    ensures r.Some? <==> identifier in p.Part(k).indices
    ensures r.Some? ==> r.value.index in p.Part(k).indices.Values
  {
    var m := p.Part(k).indices;
    if identifier in m then Some(Reader(m[identifier])) else None
  }

  /** What a call of `getReader` as written can end with. */
  datatype Lookup = Opened(reader: Reader) | NullDereference

  /** `getReader` as written: it calls `getIndexReader` on whatever the map
      returns, so a missing identifier dereferences null. */
  function GetReaderAsWritten(p: Provider, identifier: string, k: Kind): (r: Lookup)
    ensures r.NullDereference? <==> identifier !in p.Part(k).indices
  {
    var m := p.Part(k).indices;
    if identifier in m then Opened(Reader(m[identifier])) else NullDereference
  }

  /** The code and its documentation agree exactly on registered identifiers;
      on every other identifier the code dereferences null where the
      documentation promises a null result. */
  lemma GetReaderAsWrittenDiffers(p: Provider, identifier: string, k: Kind)
    ensures GetReader(p, identifier, k) == None <==> GetReaderAsWritten(p, identifier, k) == NullDereference
    ensures GetReader(p, identifier, k).Some? ==> GetReaderAsWritten(p, identifier, k) == Opened(GetReader(p, identifier, k).value)
  {
  }

  /** The input that shows it: looking up an index on a fresh provider. */
  lemma MissingIndexDereferencesNull()
    ensures GetReaderAsWritten(Fresh, "nodes", Nodes) == NullDereference
    ensures GetReader(Fresh, "nodes", Nodes) == None
  {
  }

  /** On a valid provider a reader resolves to the index of the requested kind
      registered under the requested identifier, so the same identifier under
      the two kinds resolves to two distinct indices. */
  lemma ReaderMatchesRequest(p: Provider, identifier: string)
    requires Valid(p)
    ensures forall k: Kind :: GetReader(p, identifier, k).Some? ==>
      GetReader(p, identifier, k).value.index.kind == k && GetReader(p, identifier, k).value.index.identifier == identifier
    ensures GetReader(p, identifier, Nodes).Some? && GetReader(p, identifier, Relationships).Some? ==>
      GetReader(p, identifier, Nodes) != GetReader(p, identifier, Relationships)
  {
  }

  /** `getReader` for kind `k` consults only the partition of kind `k`. */
  lemma ReaderConsultsOwnKind(p: Provider, q: Provider, identifier: string, k: Kind)
    requires p.Part(k).indices == q.Part(k).indices
    ensures GetReader(p, identifier, k) == GetReader(q, identifier, k)
  {
  }

  /** Right after registering an index, a reader for its identifier and kind
      opens on that index, and readers of the other kind resolve as before. */
  lemma ReaderAfterAdmit(p: Provider, idx: Index, identifier: string)
    ensures GetReader(Admit(p, idx), idx.identifier, idx.kind) == Some(Reader(idx))
    ensures GetReader(Admit(p, idx), identifier, idx.kind.Other()) == GetReader(p, identifier, idx.kind.Other())
  {
  }

  /** `toArray` on a property-name set: each name once, in some order. */
  method PropertyArray(names: set<string>) returns (a: seq<string>)
    ensures Enumerates(a, names)
    ensures |a| == |names|
  {
    a := [];
    var rest := names;
    while rest != {}
      invariant rest <= names
      invariant NoDuplicates(a)
      invariant forall n :: n in a ==> n in names && n !in rest
      invariant forall n :: n in names ==> n in a || n in rest
      invariant |a| + |rest| == |names|
      decreases |rest|
    {
      var n :| n in rest;
      a := a + [n];
      rest := rest - {n};
    }
  }

  /** `getNodeProperties`: every node property name, each once. */
  method GetNodeProperties(p: Provider) returns (a: seq<string>)
    ensures Enumerates(a, p.nodes.properties)
    ensures |a| == |p.nodes.properties|
  {
    a := PropertyArray(p.nodes.properties);
  }

  /** `getRelationshipProperties`: every relationship property name, each once. */
  method GetRelationshipProperties(p: Provider) returns (a: seq<string>)
    ensures Enumerates(a, p.relationships.properties)
    ensures |a| == |p.relationships.properties|
  {
    a := PropertyArray(p.relationships.properties);
  }
}

/** The vocabulary of the fulltext add-on as its provider sees it: index kinds,
    index descriptors, writable and read-only handles, and the effects that the
    provider's lifecycle calls have on collaborators outside the provider. */
module Fulltext {

  /** FulltextIndexType: which store of entities an index covers. */
  datatype Kind = Nodes | Relationships {

    /** The kind that is not this one. */
    function Other(): (o: Kind)
      ensures o != this
    {
      match this
      case Nodes => Relationships
      case Relationships => Nodes
    }
  }

  /** A LuceneFulltext index as the provider uses it: the identifier it is
      registered under, its kind and the property names it indexes (in the
      order `getProperties` lists them). The provider holds index objects, not
      definitions: `instance` stands for the object's identity, so two objects
      built from the same definition are two different indices. */
  datatype Index = Index(instance: nat, identifier: string, kind: Kind, properties: seq<string>)

  /** A WritableFulltext wrapping `index`. Every registration allocates a new
      wrapper object; `serial` stands for that object's identity. */
  datatype Writable = Writable(serial: nat, index: Index)

  /** A ReadOnlyFulltext opened on `index`. */
  datatype Reader = Reader(index: Index)

  datatype Option<+T> = None | Some(value: T)

  /** A call into code outside the provider, in the order the provider makes it. */
  datatype Effect =
    | Populate(kind: Kind, handle: Writable)       // applier.populateNodes / populateRelationships
    | RegisterHandler                              // db.registerTransactionEventHandler
    | UnregisterHandler                            // db.unregisterTransactionEventHandler
    | StopApplier                                  // applier.stop
    | CloseIndex(kind: Kind, index: Index)         // LuceneFulltext.close
    | LogCloseFailure(kind: Kind, index: Index)    // log.error after that close threw

  /** What a lifecycle call did: the effects it performed, and whether it
      ended by raising an IOException to its caller. */
  datatype Run = Run(effects: seq<Effect>, raised: bool)

  predicate NoDuplicates<T(==)>(s: seq<T>) {
    forall i, j :: 0 <= i < j < |s| ==> s[i] != s[j]
  }

  /** `order` lists every element of `s` exactly once: one of the orders in
      which a Java HashSet or HashMap may be iterated. */
  predicate Enumerates<T>(order: seq<T>, s: set<T>) {
    && NoDuplicates(order)
    && (forall x :: x in order ==> x in s)
    && (forall x :: x in s ==> x in order)
  }

  /** An enumeration is as long as the set it enumerates. */
  lemma {:induction false} EnumerationLength<T>(order: seq<T>, s: set<T>)
    requires Enumerates(order, s)
    ensures |order| == |s|
  {
    if order != [] {
      var rest := order[1..];
      assert Enumerates(rest, s - {order[0]}) by {
        forall x
          ensures x in rest <==> x in s - {order[0]}
        {
          if x in rest {
            var i :| 0 <= i < |rest| && rest[i] == x;
            assert order[i + 1] == x;
          }
          if x in s && x != order[0] {
            var i :| 0 <= i < |order| && order[i] == x;
            assert rest[i - 1] == x;
          }
        }
      }
      EnumerationLength(rest, s - {order[0]});
    } else {
      assert s == {};
    }
  }
}

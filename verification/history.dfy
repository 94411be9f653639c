/** What the registry looks like after a whole sequence of registrations:
    per-kind property sets are unions that only grow, the last registration
    of an identifier wins, and each kind evolves independently of the other. */
module History {
  import opened Fulltext
  import opened Registry

  /** The provider after the indices of `h` were registered, in order, each
      `open` succeeding. */
  function RegisterAll(p: Provider, h: seq<Index>): Provider
    decreases |h|
  {
    if h == [] then p else Admit(RegisterAll(p, h[..|h| - 1]), h[|h| - 1])
  }

  /** The registrations of kind `k` in `h`, in order. */
  function Only(h: seq<Index>, k: Kind): seq<Index>
    decreases |h|
  {
    if h == [] then []
    else
      var rest := Only(h[..|h| - 1], k);
      if h[|h| - 1].kind == k then rest + [h[|h| - 1]] else rest
  }

  /** Reference definition: every property name of every index of kind `k`
      registered in `h`. */
  ghost function PropertiesOf(h: seq<Index>, k: Kind): set<string> {
    set i, name | 0 <= i < |h| && h[i].kind == k && name in h[i].properties :: name
  }

  lemma PropertiesOfSnoc(h: seq<Index>, last: Index, k: Kind)
    ensures PropertiesOf(h + [last], k)
         == PropertiesOf(h, k) + (if last.kind == k then set name | name in last.properties else {})
  {
    var hl := h + [last];
    forall name | name in PropertiesOf(hl, k)
      ensures name in PropertiesOf(h, k) || (last.kind == k && name in last.properties)
    {
      var i :| 0 <= i < |hl| && hl[i].kind == k && name in hl[i].properties;
      if i < |h| {
        assert h[i] == hl[i];
      }
    }
    forall name | name in PropertiesOf(h, k)
      ensures name in PropertiesOf(hl, k)
    {
      var i :| 0 <= i < |h| && h[i].kind == k && name in h[i].properties;
      assert hl[i] == h[i];
    }
    if last.kind == k {
      forall name | name in last.properties
        ensures name in PropertiesOf(hl, k)
      {
        assert hl[|h|] == last;
      }
    }
  }

  /** Registering `h1` and then `h2` is registering `h1 + h2`. */
  lemma {:induction false} RegisterAllAppend(p: Provider, h1: seq<Index>, h2: seq<Index>)
    ensures RegisterAll(p, h1 + h2) == RegisterAll(RegisterAll(p, h1), h2)
    decreases |h2|
  {
    if h2 == [] {
      assert h1 + h2 == h1;
    } else {
      var init := h2[..|h2| - 1];
      assert (h1 + h2)[..|h1 + h2| - 1] == h1 + init;
      assert (h1 + h2)[|h1 + h2| - 1] == h2[|h2| - 1];
      RegisterAllAppend(p, h1, init);
    }
  }

  /** After any sequence of registrations, the property set of each kind is
      its initial contents together with every property name of every index
      registered with that kind, and nothing else. */
  lemma {:induction false} PropertySetIsUnion(p: Provider, h: seq<Index>, k: Kind)
    ensures RegisterAll(p, h).Part(k).properties == p.Part(k).properties + PropertiesOf(h, k)
    decreases |h|
  {
    if h == [] {
      assert PropertiesOf(h, k) == {};
    } else {
      var init, last := h[..|h| - 1], h[|h| - 1];
      assert init + [last] == h;
      PropertySetIsUnion(p, init, k);
      PropertiesOfSnoc(init, last, k);
      var before := RegisterAll(p, init);
      if last.kind != k {
        assert k == last.kind.Other();
      }
    }
  }

  /** The property set of each kind only grows as registrations go on. */
  lemma PropertiesOnlyGrow(p: Provider, h1: seq<Index>, h2: seq<Index>, k: Kind)
    ensures RegisterAll(p, h1).Part(k).properties <= RegisterAll(p, h1 + h2).Part(k).properties
  {
    RegisterAllAppend(p, h1, h2);
    PropertySetIsUnion(RegisterAll(p, h1), h2, k);
  }

  /** The last registration of an identifier with a kind wins: it is what the
      map of that kind holds for the identifier, whatever was registered before. */
  lemma {:induction false} LastRegistrationWins(p: Provider, h: seq<Index>, i: nat)
    requires i < |h|
    requires forall j :: i < j < |h| ==> h[j].kind != h[i].kind || h[j].identifier != h[i].identifier
    ensures h[i].identifier in RegisterAll(p, h).Part(h[i].kind).indices
    ensures RegisterAll(p, h).Part(h[i].kind).indices[h[i].identifier] == h[i]
    decreases |h|
  {
    var init, last := h[..|h| - 1], h[|h| - 1];
    if i < |h| - 1 {
      LastRegistrationWins(p, init, i);
      if last.kind != h[i].kind {
        assert h[i].kind == last.kind.Other();
      }
    }
  }

  /** The identifiers registered with kind `k` in `h`. */
  ghost function Registered(h: seq<Index>, k: Kind): set<string> {
    set i | 0 <= i < |h| && h[i].kind == k :: h[i].identifier
  }

  lemma RegisteredSnoc(h: seq<Index>, last: Index, k: Kind)
    ensures Registered(h + [last], k) == Registered(h, k) + (if last.kind == k then {last.identifier} else {})
  {
    var hl := h + [last];
    forall id | id in Registered(hl, k)
      ensures id in Registered(h, k) || (last.kind == k && id == last.identifier)
    {
      var i :| 0 <= i < |hl| && hl[i].kind == k && hl[i].identifier == id;
      if i < |h| {
        assert h[i] == hl[i];
      }
    }
    forall id | id in Registered(h, k)
      ensures id in Registered(hl, k)
    {
      var i :| 0 <= i < |h| && h[i].kind == k && h[i].identifier == id;
      assert hl[i] == h[i];
    }
    if last.kind == k {
      assert hl[|h|] == last;
    }
  }

  /** After any sequence of registrations, the map of kind `k` holds exactly
      the identifiers it held before and those registered with kind `k`:
      `put` adds keys and nothing removes one. */
  lemma {:induction false} MappedIdentifiers(p: Provider, h: seq<Index>, k: Kind)
    ensures RegisterAll(p, h).Part(k).indices.Keys == p.Part(k).indices.Keys + Registered(h, k)
    decreases |h|
  {
    if h == [] {
      assert Registered(h, k) == {};
    } else {
      var init, last := h[..|h| - 1], h[|h| - 1];
      assert init + [last] == h;
      MappedIdentifiers(p, init, k);
      RegisteredSnoc(init, last, k);
      if last.kind != k {
        assert k == last.kind.Other();
      }
    }
  }

  /** An identifier never registered with kind `k` keeps the entry it had. */
  lemma {:induction false} UnregisteredIdentifierKeepsEntry(p: Provider, h: seq<Index>, k: Kind, identifier: string)
    requires identifier in p.Part(k).indices
    requires forall i :: 0 <= i < |h| && h[i].kind == k ==> h[i].identifier != identifier
    ensures identifier in RegisterAll(p, h).Part(k).indices
    ensures RegisterAll(p, h).Part(k).indices[identifier] == p.Part(k).indices[identifier]
    decreases |h|
  {
    if h != [] {
      var init, last := h[..|h| - 1], h[|h| - 1];
      UnregisteredIdentifierKeepsEntry(p, init, k, identifier);
      if last.kind != k {
        assert k == last.kind.Other();
      }
    }
  }

  /** The last registration in `h` with the identifier and kind of `h[j]`. */
  lemma LastRegistrationOf(h: seq<Index>, j: nat) returns (l: nat)
    requires j < |h|
    ensures j <= l < |h| && h[l].kind == h[j].kind && h[l].identifier == h[j].identifier
    ensures forall m :: l < m < |h| ==> h[m].kind != h[l].kind || h[m].identifier != h[l].identifier
  {
    l := |h| - 1;
    while !(h[l].kind == h[j].kind && h[l].identifier == h[j].identifier)
      invariant j <= l < |h|
      invariant forall m :: l < m < |h| ==> h[m].kind != h[j].kind || h[m].identifier != h[j].identifier
      decreases l
    {
      l := l - 1;
    }
  }

  /** Every registration leaves a writable handle on its index in the
      writable set of its kind, whether or not a later registration replaces
      it in the map. */
  lemma {:induction false} EveryRegistrationHasHandle(p: Provider, h: seq<Index>, i: nat)
    requires i < |h|
    ensures exists w :: w in RegisterAll(p, h).Part(h[i].kind).writable && w.index == h[i]
    decreases |h|
  {
    var init, last := h[..|h| - 1], h[|h| - 1];
    var q := RegisterAll(p, init);
    if i == |h| - 1 {
      assert Writable(q.nextSerial, last) in RegisterAll(p, h).Part(last.kind).writable;
    } else {
      EveryRegistrationHasHandle(p, init, i);
      var w :| w in q.Part(h[i].kind).writable && w.index == h[i];
      if last.kind == h[i].kind {
        assert w in RegisterAll(p, h).Part(h[i].kind).writable;
      } else {
        assert h[i].kind == last.kind.Other();
      }
    }
  }

  /** Registrations of the other kind leave a partition entirely untouched:
      its map, its writable handles and its property set. */
  lemma {:induction false} OtherKindUntouched(p: Provider, h: seq<Index>, k: Kind)
    requires forall j :: 0 <= j < |h| ==> h[j].kind != k
    ensures RegisterAll(p, h).Part(k) == p.Part(k)
    decreases |h|
  {
    if h != [] {
      var init, last := h[..|h| - 1], h[|h| - 1];
      OtherKindUntouched(p, init, k);
      assert k == last.kind.Other();
    }
  }

  /** Each kind evolves on its own: the map and the property set of kind `k`
      after a history are those after only its registrations of kind `k`. */
  lemma {:induction false} KindSeparation(p: Provider, h: seq<Index>, k: Kind)
    ensures RegisterAll(p, h).Part(k).indices == RegisterAll(p, Only(h, k)).Part(k).indices
    ensures RegisterAll(p, h).Part(k).properties == RegisterAll(p, Only(h, k)).Part(k).properties
    decreases |h|
  {
    if h != [] {
      var init, last := h[..|h| - 1], h[|h| - 1];
      KindSeparation(p, init, k);
      var rest := Only(init, k);
      if last.kind == k {
        var filtered := rest + [last];
        assert filtered[..|filtered| - 1] == rest;
      } else {
        assert k == last.kind.Other();
      }
    }
  }

  /** Registration keeps the registry invariant over any history. */
  lemma {:induction false} RegisterAllPreservesValid(p: Provider, h: seq<Index>)
    requires Valid(p)
    ensures Valid(RegisterAll(p, h))
    decreases |h|
  {
    if h != [] {
      RegisterAllPreservesValid(p, h[..|h| - 1]);
      AdmitPreservesValid(RegisterAll(p, h[..|h| - 1]), h[|h| - 1]);
    }
  }

  /** Every registration adds a writable handle, even one that replaces an
      identifier already in the map: the writable set of a kind counts the
      registrations of that kind, not the indices in its map. */
  lemma {:induction false} WritableCount(p: Provider, h: seq<Index>, k: Kind)
    requires Valid(p)
    ensures |RegisterAll(p, h).Part(k).writable| == |p.Part(k).writable| + |Only(h, k)|
    decreases |h|
  {
    if h != [] {
      var init, last := h[..|h| - 1], h[|h| - 1];
      WritableCount(p, init, k);
      RegisterAllPreservesValid(p, init);
      if last.kind == k {
        AdmitAddsOneHandle(RegisterAll(p, init), last);
      } else {
        assert k == last.kind.Other();
      }
    }
  }

  /** One call of `register`, with the outcome of its `open`. */
  datatype Attempt = Attempt(index: Index, openSucceeds: bool)

  /** The provider after a sequence of `register` calls, each one that raised
      being caught by the caller. */
  function RegisterAttempts(p: Provider, a: seq<Attempt>): Provider
    decreases |a|
  {
    if a == [] then p
    else Register(RegisterAttempts(p, a[..|a| - 1]), a[|a| - 1].index, a[|a| - 1].openSucceeds).provider
  }

  /** The indices whose `open` succeeded, in order. */
  function Succeeded(a: seq<Attempt>): seq<Index>
    decreases |a|
  {
    if a == [] then []
    else
      var rest := Succeeded(a[..|a| - 1]);
      if a[|a| - 1].openSucceeds then rest + [a[|a| - 1].index] else rest
  }

  /** A registration whose `open` failed leaves no trace: the provider is the
      one the successful registrations alone produce. */
  lemma {:induction false} FailedRegistrationsLeaveNoTrace(p: Provider, a: seq<Attempt>)
    ensures RegisterAttempts(p, a) == RegisterAll(p, Succeeded(a))
    decreases |a|
  {
    if a != [] {
      FailedRegistrationsLeaveNoTrace(p, a[..|a| - 1]);
      var rest := Succeeded(a[..|a| - 1]);
      var last := a[|a| - 1];
      if last.openSucceeds {
        var s := rest + [last.index];
        assert s[..|s| - 1] == rest;
      }
    }
  }

  /** The indices of the kind-separation scenario: a node index and a
      relationship index, both on the property "prop". */
  const NodeIndex: Index := Index(0, "nodes", Nodes, ["prop"])
  const RelationshipIndex: Index := Index(1, "relationships", Relationships, ["prop"])

  /** A node index and a relationship index registered side by side: each
      kind's reader opens on its own index, a lookup under the wrong kind
      finds nothing, and the property name is tracked for both kinds. */
  lemma SeparateIndicesPerKind()
    ensures var p := RegisterAll(Fresh, [NodeIndex, RelationshipIndex]);
      && GetReader(p, "nodes", Nodes) == Some(Reader(NodeIndex))
      && GetReader(p, "relationships", Relationships) == Some(Reader(RelationshipIndex))
      && GetReaderAsWritten(p, "nodes", Relationships) == NullDereference
      && p.Part(Nodes).properties == {"prop"}
      && p.Part(Relationships).properties == {"prop"}
  {
    var h := [NodeIndex, RelationshipIndex];
    assert h[..1] == [NodeIndex];
    assert h[..1][..0] == [];
    var p1 := Admit(Fresh, NodeIndex);
    assert p1.nodes.properties == {"prop"};
    assert p1.relationships == EmptyPartition;
    assert RegisterAll(Fresh, h[..1]) == p1;
    var p2 := Admit(p1, RelationshipIndex);
    assert p2.nodes == p1.nodes;
    assert p2.relationships.properties == {"prop"};
    assert RegisterAll(Fresh, h) == p2;
  }

  /** The same scenario with one identifier shared by both kinds: the two
      indices still stay apart, one per kind. */
  lemma SameIdentifierBothKinds()
    ensures var first, second := Index(0, "fulltext", Nodes, ["prop"]), Index(1, "fulltext", Relationships, ["prop"]);
      var p := RegisterAll(Fresh, [first, second]);
      && GetReader(p, "fulltext", Nodes) == Some(Reader(first))
      && GetReader(p, "fulltext", Relationships) == Some(Reader(second))
      && p.Part(Nodes).properties == {"prop"}
      && p.Part(Relationships).properties == {"prop"}
  {
    var first, second := Index(0, "fulltext", Nodes, ["prop"]), Index(1, "fulltext", Relationships, ["prop"]);
    var h := [first, second];
    assert h[..1] == [first];
    assert h[..1][..0] == [];
    var p1 := Admit(Fresh, first);
    assert p1.nodes.properties == {"prop"};
    assert p1.relationships == EmptyPartition;
    assert RegisterAll(Fresh, h[..1]) == p1;
    var p2 := Admit(p1, second);
    assert p2.nodes == p1.nodes;
    assert p2.relationships.properties == {"prop"};
    assert RegisterAll(Fresh, h) == p2;
  }

  /** Re-registering an identifier replaces the index, but the property names
      of the replaced index stay in the property set: the set is the union
      over all registrations, not over the indices still in the map. */
  lemma ReplacedPropertiesRemain()
    ensures var h := [Index(0, "fulltext", Nodes, ["title"]), Index(1, "fulltext", Nodes, ["body"])];
      && RegisterAll(Fresh, h).Part(Nodes).indices == map["fulltext" := Index(1, "fulltext", Nodes, ["body"])]
      && "title" in RegisterAll(Fresh, h).Part(Nodes).properties
  {
    var first, second := Index(0, "fulltext", Nodes, ["title"]), Index(1, "fulltext", Nodes, ["body"]);
    var h := [first, second];
    assert h[..1] == [first];
    assert h[..1][..0] == [];
    var p1 := Admit(Fresh, first);
    assert RegisterAll(Fresh, h[..1]) == p1;
    assert "title" in p1.nodes.properties;
    assert RegisterAll(Fresh, h) == Admit(p1, second);
  }
}

/** The provider's lifecycle calls as traces of effects on its collaborators:
    `init` starts a population per writable handle and then registers the
    transaction event handler; `close` unregisters the handler, stops the
    applier and tries to close every index, whatever fails. */
module Lifecycle {
  import opened Fulltext
  import opened Registry
  import History

  /** The population calls `init` makes for the handles of kind `k`, in the
      iteration order `order`. A call for a handle in `failing` throws, and the
      exception ends the loop. */
  function PopulateAll(k: Kind, order: seq<Writable>, failing: set<Writable>): (r: Run)
    ensures |r.effects| <= |order|
    ensures forall i :: 0 <= i < |r.effects| ==> r.effects[i] == Populate(k, order[i])
    ensures !r.raised ==> |r.effects| == |order|
    ensures !r.raised ==> forall i :: 0 <= i < |order| ==> order[i] !in failing
    ensures r.raised ==> 0 < |r.effects| && order[|r.effects| - 1] in failing
    ensures r.raised ==> forall i :: 0 <= i < |r.effects| - 1 ==> order[i] !in failing
    decreases |order|
  {
    if order == [] then Run([], false)
    else if order[0] in failing then Run([Populate(k, order[0])], true)
    else
      var rest := PopulateAll(k, order[1..], failing);
      Run([Populate(k, order[0])] + rest.effects, rest.raised)
  }

  /** The calls `init` makes when the two HashSets are iterated in the orders
      `nodeOrder` and `relOrder`: every node population, then every
      relationship population, then the registration of the transaction event
      handler. A population call on a handle in `failing` throws an
      IOException, which ends the trace. */
  function InitTrace(nodeOrder: seq<Writable>, relOrder: seq<Writable>, failing: set<Writable>): (r: Run)
    ensures RegisterHandler in r.effects <==> !r.raised
  {
    var nodes := PopulateAll(Nodes, nodeOrder, failing);
    if nodes.raised then nodes
    else
      var rels := PopulateAll(Relationships, relOrder, failing);
      if rels.raised then Run(nodes.effects + rels.effects, true)
      else Run(nodes.effects + rels.effects + [RegisterHandler], false)
  }

  /** `init` on provider `p`, whose writable sets are iterated in the orders
      `nodeOrder` and `relOrder`. It raises exactly when some writable handle
      of either kind fails to populate. */
  function Init(p: Provider, nodeOrder: seq<Writable>, relOrder: seq<Writable>, failing: set<Writable>): (r: Run)
    requires Enumerates(nodeOrder, p.nodes.writable)
    requires Enumerates(relOrder, p.relationships.writable)
    ensures r.raised <==> failing * (p.nodes.writable + p.relationships.writable) != {}
    ensures RegisterHandler in r.effects <==> !r.raised
  {
    var nodes := PopulateAll(Nodes, nodeOrder, failing);
    var rels := PopulateAll(Relationships, relOrder, failing);
    if nodes.raised then
      assert nodeOrder[|nodes.effects| - 1] in failing * (p.nodes.writable + p.relationships.writable);
      InitTrace(nodeOrder, relOrder, failing)
    else if rels.raised then
      assert relOrder[|rels.effects| - 1] in failing * (p.nodes.writable + p.relationships.writable);
      InitTrace(nodeOrder, relOrder, failing)
    else
      assert failing * (p.nodes.writable + p.relationships.writable) == {} by {
        forall w | w in p.nodes.writable + p.relationships.writable
          ensures w !in failing
        {
          if w in p.nodes.writable {
            var i :| 0 <= i < |nodeOrder| && nodeOrder[i] == w;
          } else {
            var i :| 0 <= i < |relOrder| && relOrder[i] == w;
          }
        }
      }
      InitTrace(nodeOrder, relOrder, failing)
  }

  /** When no population call fails, `init` populates the node handles in
      iteration order, then the relationship handles, and registers the
      handler exactly once, as its final step. */
  lemma InitCompletes(p: Provider, nodeOrder: seq<Writable>, relOrder: seq<Writable>, failing: set<Writable>)
    requires Enumerates(nodeOrder, p.nodes.writable)
    requires Enumerates(relOrder, p.relationships.writable)
    requires failing * (p.nodes.writable + p.relationships.writable) == {}
    ensures var e := Init(p, nodeOrder, relOrder, failing).effects;
      && |e| == |p.nodes.writable| + |p.relationships.writable| + 1
      && (forall i :: 0 <= i < |nodeOrder| ==> e[i] == Populate(Nodes, nodeOrder[i]))
      && (forall j :: 0 <= j < |relOrder| ==> e[|nodeOrder| + j] == Populate(Relationships, relOrder[j]))
      && e[|e| - 1] == RegisterHandler
      && RegisterHandler !in e[..|e| - 1]
  {
    EnumerationLength(nodeOrder, p.nodes.writable);
    EnumerationLength(relOrder, p.relationships.writable);
    var e := Init(p, nodeOrder, relOrder, failing).effects;
    assert RegisterHandler !in e[..|e| - 1] by {
      forall i | 0 <= i < |e| - 1 ensures e[i] != RegisterHandler {
        if i >= |nodeOrder| {
          assert e[i] == Populate(Relationships, relOrder[i - |nodeOrder|]);
        }
      }
    }
  }

  /** Every population call `init` makes is for a writable handle of its own
      kind, no handle is populated twice, and when `init` returns normally
      every writable handle of each kind has been populated. */
  lemma InitPopulatesEachHandleOnce(p: Provider, nodeOrder: seq<Writable>, relOrder: seq<Writable>, failing: set<Writable>)
    requires Enumerates(nodeOrder, p.nodes.writable)
    requires Enumerates(relOrder, p.relationships.writable)
    ensures var r := Init(p, nodeOrder, relOrder, failing);
      && NoDuplicates(r.effects)
      && (forall k: Kind, w :: Populate(k, w) in r.effects ==> w in p.Part(k).writable)
      && (!r.raised ==> forall k: Kind, w :: w in p.Part(k).writable ==> Populate(k, w) in r.effects)
  {
    var r := Init(p, nodeOrder, relOrder, failing);
    assert r == InitTrace(nodeOrder, relOrder, failing);
    TraceHasNoDuplicates(nodeOrder, relOrder, failing);
    forall k: Kind, w
      ensures Populate(k, w) in r.effects ==> w in p.Part(k).writable
      ensures !r.raised && w in p.Part(k).writable ==> Populate(k, w) in r.effects
    {
      TracePopulatesOrder(k, if k == Nodes then nodeOrder else relOrder, nodeOrder, relOrder, failing, w);
    }
  }

  /** The trace of `init` repeats no call when neither order repeats a handle. */
  lemma TraceHasNoDuplicates(nodeOrder: seq<Writable>, relOrder: seq<Writable>, failing: set<Writable>)
    requires NoDuplicates(nodeOrder) && NoDuplicates(relOrder)
    ensures NoDuplicates(InitTrace(nodeOrder, relOrder, failing).effects)
  {
    var nodes := PopulateAll(Nodes, nodeOrder, failing).effects;
    var rels := PopulateAll(Relationships, relOrder, failing).effects;
    var e := InitTrace(nodeOrder, relOrder, failing).effects;
    assert e == nodes || e == nodes + rels || e == nodes + rels + [RegisterHandler];
    forall i, j | 0 <= i < j < |e| ensures e[i] != e[j] {
      if i < |nodes| <= j && j < |nodes| + |rels| {
        assert e[i].kind != e[j].kind;
      }
    }
  }

  /** The trace of `init` populates, under kind `k`, only handles of the
      order `order` of that kind, and all of them when it completes. */
  lemma TracePopulatesOrder(k: Kind, order: seq<Writable>, nodeOrder: seq<Writable>, relOrder: seq<Writable>, failing: set<Writable>, w: Writable)
    requires order == if k == Nodes then nodeOrder else relOrder
    ensures var r := InitTrace(nodeOrder, relOrder, failing);
      && (Populate(k, w) in r.effects ==> w in order)
      && (!r.raised && w in order ==> Populate(k, w) in r.effects)
  {
    var nodes := PopulateAll(Nodes, nodeOrder, failing).effects;
    var rels := PopulateAll(Relationships, relOrder, failing).effects;
    var e := InitTrace(nodeOrder, relOrder, failing).effects;
    assert e == nodes || e == nodes + rels || e == nodes + rels + [RegisterHandler];
  }

  /** No relationship population is ever started before a node population. */
  lemma InitNodesBeforeRelationships(p: Provider, nodeOrder: seq<Writable>, relOrder: seq<Writable>, failing: set<Writable>)
    requires Enumerates(nodeOrder, p.nodes.writable)
    requires Enumerates(relOrder, p.relationships.writable)
    ensures var e := Init(p, nodeOrder, relOrder, failing).effects;
      forall i, j :: 0 <= i < j < |e| && e[j].Populate? && e[j].kind == Nodes ==> e[i].Populate? && e[i].kind == Nodes
  {
  }

  /** A failed `init` did part of what a complete one does and stopped: its
      trace is a prefix of the trace of the run where nothing fails, ends with
      the population call that threw, and the handler was never registered. */
  lemma InitFailureIsPrefix(p: Provider, nodeOrder: seq<Writable>, relOrder: seq<Writable>, failing: set<Writable>)
    requires Enumerates(nodeOrder, p.nodes.writable)
    requires Enumerates(relOrder, p.relationships.writable)
    ensures var r, full := Init(p, nodeOrder, relOrder, failing), Init(p, nodeOrder, relOrder, {});
      r.raised ==>
        && |r.effects| < |full.effects|
        && r.effects == full.effects[..|r.effects|]
        && r.effects[|r.effects| - 1].Populate?
        && r.effects[|r.effects| - 1].handle in failing
  {
    TraceFailureIsPrefix(nodeOrder, relOrder, failing);
  }

  /** `InitFailureIsPrefix` for any iteration orders. */
  lemma TraceFailureIsPrefix(nodeOrder: seq<Writable>, relOrder: seq<Writable>, failing: set<Writable>)
    ensures var r, full := InitTrace(nodeOrder, relOrder, failing), InitTrace(nodeOrder, relOrder, {});
      r.raised ==>
        && |r.effects| < |full.effects|
        && r.effects == full.effects[..|r.effects|]
        && r.effects[|r.effects| - 1].Populate?
        && r.effects[|r.effects| - 1].handle in failing
  {
    var nodes := PopulateAll(Nodes, nodeOrder, failing);
    var rels := PopulateAll(Relationships, relOrder, failing);
    var fullNodes := PopulateAll(Nodes, nodeOrder, {}).effects;
    var fullRels := PopulateAll(Relationships, relOrder, {}).effects;
    var full := InitTrace(nodeOrder, relOrder, {}).effects;
    assert full == fullNodes + (fullRels + [RegisterHandler]);
    if nodes.raised {
      PopulateIsPrefix(Nodes, nodeOrder, failing);
      PrefixOfAppend(nodes.effects, fullNodes, fullRels + [RegisterHandler]);
    } else if rels.raised {
      assert nodes.effects == fullNodes by {
        PopulateIsPrefix(Nodes, nodeOrder, failing);
      }
      assert rels.effects == (fullRels + [RegisterHandler])[..|rels.effects|] by {
        PopulateIsPrefix(Relationships, relOrder, failing);
        PrefixOfAppend(rels.effects, fullRels, [RegisterHandler]);
      }
      PrefixAfterHead(fullNodes, rels.effects, fullRels + [RegisterHandler]);
    }
  }

  lemma PrefixOfAppend<T>(a: seq<T>, b: seq<T>, c: seq<T>)
    requires |a| <= |b| && a == b[..|a|]
    ensures a == (b + c)[..|a|]
  {
  }

  lemma PrefixAfterHead<T>(head: seq<T>, a: seq<T>, b: seq<T>)
    requires |a| <= |b| && a == b[..|a|]
    ensures head + a == (head + b)[..|head + a|]
  {
  }

  /** A population loop that stopped early performed a prefix of the loop in
      which nothing fails. */
  lemma PopulateIsPrefix(k: Kind, order: seq<Writable>, failing: set<Writable>)
    ensures var r, full := PopulateAll(k, order, failing), PopulateAll(k, order, {});
      && |full.effects| == |order|
      && r.effects == full.effects[..|r.effects|]
  {
  }

  /** The close calls for the indices of kind `k`, in the iteration order
      `order` of the map's keys. A close on an index in `failing` throws; the
      failure is logged and the loop goes on. */
  function CloseAll(k: Kind, m: map<string, Index>, order: seq<string>, failing: set<Index>): (effects: seq<Effect>)
    requires forall id :: id in order ==> id in m
    ensures forall e :: e in effects ==> (e.CloseIndex? || e.LogCloseFailure?) && e.kind == k && e.index in m.Values
    ensures forall id :: id in order ==> CloseIndex(k, m[id]) in effects
    ensures forall x :: LogCloseFailure(k, x) in effects <==> x in failing && CloseIndex(k, x) in effects
    decreases |order|
  {
    if order == [] then []
    else
      var index := m[order[0]];
      [CloseIndex(k, index)] + (if index in failing then [LogCloseFailure(k, index)] else [])
      + CloseAll(k, m, order[1..], failing)
  }

  /** The close attempts of a trace: everything but the failure log entries. */
  function Attempted(effects: seq<Effect>): seq<Effect>
    decreases |effects|
  {
    if effects == [] then []
    else (if effects[0].LogCloseFailure? then [] else [effects[0]]) + Attempted(effects[1..])
  }

  lemma {:induction false} AttemptedAppend(a: seq<Effect>, b: seq<Effect>)
    ensures Attempted(a + b) == Attempted(a) + Attempted(b)
    decreases |a|
  {
    if a != [] {
      assert (a + b)[0] == a[0];
      assert (a + b)[1..] == a[1..] + b;
      AttemptedAppend(a[1..], b);
    } else {
      assert a + b == b;
    }
  }

  /** Failures do not change which closes are attempted: leaving out the log
      entries, the trace is the one in which every close succeeds, one close
      per index. */
  lemma {:induction false} CloseAllDespiteFailures(k: Kind, m: map<string, Index>, order: seq<string>, failing: set<Index>)
    requires forall id :: id in order ==> id in m
    ensures Attempted(CloseAll(k, m, order, failing)) == CloseAll(k, m, order, {})
    ensures |CloseAll(k, m, order, {})| == |order|
    decreases |order|
  {
    if order != [] {
      var index := m[order[0]];
      var log: seq<Effect> := if index in failing then [LogCloseFailure(k, index)] else [];
      CloseAllDespiteFailures(k, m, order[1..], failing);
      AttemptedAppend([CloseIndex(k, index)] + log, CloseAll(k, m, order[1..], failing));
      AttemptedAppend([CloseIndex(k, index)], log);
      assert Attempted(log) == [] by {
        if index in failing {
          assert log[1..] == [];
        }
      }
      assert Attempted([CloseIndex(k, index)]) == [CloseIndex(k, index)] by {
        assert [CloseIndex(k, index)][1..] == [];
      }
    }
  }

  /** `close`: unregister the transaction event handler, stop the applier,
      then try to close every node index and every relationship index,
      iterating the two maps in the orders `nodeOrder` and `relOrder`. A close
      on an index in `failing` throws; it is logged, the remaining closes still
      run, and `close` itself never raises. */
  function Close(p: Provider, nodeOrder: seq<string>, relOrder: seq<string>, failing: set<Index>): (r: Run)
    requires Enumerates(nodeOrder, p.nodes.indices.Keys)
    requires Enumerates(relOrder, p.relationships.indices.Keys)
    ensures !r.raised
    ensures |r.effects| >= 2 && r.effects[0] == UnregisterHandler && r.effects[1] == StopApplier
  {
    var nodes := CloseAll(Nodes, p.nodes.indices, nodeOrder, failing);
    var rels := CloseAll(Relationships, p.relationships.indices, relOrder, failing);
    Run([UnregisterHandler, StopApplier] + nodes + rels, false)
  }

  /** `close` attempts to close every registered index under its own kind,
      closes nothing else, and logs a failure exactly for the indices whose
      close threw. */
  lemma CloseReachesEveryIndex(p: Provider, nodeOrder: seq<string>, relOrder: seq<string>, failing: set<Index>)
    requires Enumerates(nodeOrder, p.nodes.indices.Keys)
    requires Enumerates(relOrder, p.relationships.indices.Keys)
    ensures var e := Close(p, nodeOrder, relOrder, failing).effects;
      && (forall k: Kind, id :: id in p.Part(k).indices ==> CloseIndex(k, p.Part(k).indices[id]) in e)
      && (forall k: Kind, x :: CloseIndex(k, x) in e ==> x in p.Part(k).indices.Values)
      && (forall k: Kind, x :: LogCloseFailure(k, x) in e <==> x in failing && CloseIndex(k, x) in e)
  {
    var nodes := CloseAll(Nodes, p.nodes.indices, nodeOrder, failing);
    var rels := CloseAll(Relationships, p.relationships.indices, relOrder, failing);
    var e := Close(p, nodeOrder, relOrder, failing).effects;
    assert e == [UnregisterHandler, StopApplier] + nodes + rels;
    assert forall x :: x in e <==> x in [UnregisterHandler, StopApplier] || x in nodes || x in rels;
    forall k: Kind, x
      ensures CloseIndex(k, x) in e ==> x in p.Part(k).indices.Values
      ensures LogCloseFailure(k, x) in e <==> x in failing && CloseIndex(k, x) in e
    {
      if k == Nodes {
        assert CloseIndex(k, x) !in rels && LogCloseFailure(k, x) !in rels;
      } else {
        assert CloseIndex(k, x) !in nodes && LogCloseFailure(k, x) !in nodes;
      }
    }
    forall k: Kind, id | id in p.Part(k).indices
      ensures CloseIndex(k, p.Part(k).indices[id]) in e
    {
      if k == Nodes {
        assert CloseIndex(k, p.Part(k).indices[id]) in nodes;
      } else {
        assert CloseIndex(k, p.Part(k).indices[id]) in rels;
      }
    }
  }

  /** Whatever fails, `close` attempts exactly the closes it attempts when
      nothing fails: one per registered index, after unregistering the handler
      and stopping the applier. */
  lemma CloseDespiteFailures(p: Provider, nodeOrder: seq<string>, relOrder: seq<string>, failing: set<Index>)
    requires Enumerates(nodeOrder, p.nodes.indices.Keys)
    requires Enumerates(relOrder, p.relationships.indices.Keys)
    ensures Attempted(Close(p, nodeOrder, relOrder, failing).effects) == Close(p, nodeOrder, relOrder, {}).effects
    ensures |Close(p, nodeOrder, relOrder, {}).effects| == 2 + |p.nodes.indices| + |p.relationships.indices|
  {
    var nodes := CloseAll(Nodes, p.nodes.indices, nodeOrder, failing);
    var rels := CloseAll(Relationships, p.relationships.indices, relOrder, failing);
    CloseAllDespiteFailures(Nodes, p.nodes.indices, nodeOrder, failing);
    CloseAllDespiteFailures(Relationships, p.relationships.indices, relOrder, failing);
    AttemptedAppend([UnregisterHandler, StopApplier] + nodes, rels);
    AttemptedAppend([UnregisterHandler, StopApplier], nodes);
    AttemptedAppend([UnregisterHandler], [StopApplier]);
    assert Attempted([UnregisterHandler]) == [UnregisterHandler] by {
      assert [UnregisterHandler][1..] == [];
    }
    assert Attempted([StopApplier]) == [StopApplier] by {
      assert [StopApplier][1..] == [];
    }
    assert [UnregisterHandler] + [StopApplier] == [UnregisterHandler, StopApplier];
    EnumerationLength(nodeOrder, p.nodes.indices.Keys);
    EnumerationLength(relOrder, p.relationships.indices.Keys);
  }

  /** Every node index is closed before any relationship index. */
  lemma CloseNodesBeforeRelationships(p: Provider, nodeOrder: seq<string>, relOrder: seq<string>, failing: set<Index>)
    requires Enumerates(nodeOrder, p.nodes.indices.Keys)
    requires Enumerates(relOrder, p.relationships.indices.Keys)
    ensures var e := Close(p, nodeOrder, relOrder, failing).effects;
      forall i, j :: 0 <= i < j < |e| && e[j].CloseIndex? && e[j].kind == Nodes ==> !(e[i].CloseIndex? && e[i].kind == Relationships)
  {
  }

  /** `close` on a provider holding a single node index closes that index
      and no other. */
  lemma CloseSingleNodeIndex(p: Provider, index: Index, failing: set<Index>)
    requires p.nodes.indices == map[index.identifier := index]
    requires p.relationships.indices == map[]
    ensures Enumerates([index.identifier], p.nodes.indices.Keys)
    ensures Enumerates([], p.relationships.indices.Keys)
    ensures forall x :: CloseIndex(Nodes, x) in Close(p, [index.identifier], [], failing).effects <==> x == index
  {
    var log: seq<Effect> := if index in failing then [LogCloseFailure(Nodes, index)] else [];
    assert CloseAll(Nodes, p.nodes.indices, [index.identifier], failing) == [CloseIndex(Nodes, index)] + log + [] by {
      assert [index.identifier][1..] == [];
    }
    assert Close(p, [index.identifier], [], failing).effects == [UnregisterHandler, StopApplier, CloseIndex(Nodes, index)] + log;
  }

  /** An index that a later registration replaced in the map of its kind,
      and that is not registered again, is never closed: `close` walks only
      the maps' values, and the replaced object is no longer among them. */
  lemma ReplacedIndexIsNeverClosed(p: Provider, h: seq<Index>, i: nat, j: nat,
                                   nodeOrder: seq<string>, relOrder: seq<string>, failing: set<Index>)
    requires Valid(p)
    requires i < j < |h| && h[j].kind == h[i].kind && h[j].identifier == h[i].identifier
    requires forall l :: i < l < |h| ==> h[l] != h[i]
    requires Enumerates(nodeOrder, History.RegisterAll(p, h).nodes.indices.Keys)
    requires Enumerates(relOrder, History.RegisterAll(p, h).relationships.indices.Keys)
    ensures CloseIndex(h[i].kind, h[i]) !in Close(History.RegisterAll(p, h), nodeOrder, relOrder, failing).effects
  {
    var q := History.RegisterAll(p, h);
    var k := h[i].kind;
    History.RegisterAllPreservesValid(p, h);
    var l := History.LastRegistrationOf(h, j);
    History.LastRegistrationWins(p, h, l);
    assert h[i] !in q.Part(k).indices.Values by {
      forall id | id in q.Part(k).indices
        ensures q.Part(k).indices[id] != h[i]
      {
        if id == h[i].identifier {
          assert q.Part(k).indices[id] == h[l];
        }
      }
    }
    CloseReachesEveryIndex(q, nodeOrder, relOrder, failing);
  }

  /** Every registration is populated by an `init` that returns normally,
      including one that a later registration replaced in the map: its
      writable handle stays in the writable set. */
  lemma RegistrationIsPopulated(p: Provider, h: seq<Index>, i: nat,
                                nodeOrder: seq<Writable>, relOrder: seq<Writable>, failing: set<Writable>)
    requires i < |h|
    requires Enumerates(nodeOrder, History.RegisterAll(p, h).nodes.writable)
    requires Enumerates(relOrder, History.RegisterAll(p, h).relationships.writable)
    ensures var r := Init(History.RegisterAll(p, h), nodeOrder, relOrder, failing);
      !r.raised ==> exists w: Writable :: w.index == h[i] && Populate(h[i].kind, w) in r.effects
  {
    History.EveryRegistrationHasHandle(p, h, i);
    InitPopulatesEachHandleOnce(History.RegisterAll(p, h), nodeOrder, relOrder, failing);
  }

  /** Creating the same index definition twice gives two index objects; the
      second replaces the first in the map, so `close` closes the second and
      leaves the first open. */
  lemma SameDefinitionRegisteredTwice(failing: set<Index>)
    ensures var first, second := Index(0, "fulltext", Nodes, ["prop"]), Index(1, "fulltext", Nodes, ["prop"]);
      var p := History.RegisterAll(Fresh, [first, second]);
      && Enumerates(["fulltext"], p.nodes.indices.Keys)
      && Enumerates([], p.relationships.indices.Keys)
      && CloseIndex(Nodes, second) in Close(p, ["fulltext"], [], failing).effects
      && CloseIndex(Nodes, first) !in Close(p, ["fulltext"], [], failing).effects
  {
    var first, second := Index(0, "fulltext", Nodes, ["prop"]), Index(1, "fulltext", Nodes, ["prop"]);
    var p := History.RegisterAll(Fresh, [first, second]);
    assert p.nodes.indices == map["fulltext" := second] && p.relationships.indices == map[] by {
      var h := [first, second];
      assert h[..1] == [first];
      assert h[..1][..0] == [];
      var p1 := Admit(Fresh, first);
      assert History.RegisterAll(Fresh, h[..1]) == p1;
      assert p == Admit(p1, second);
    }
    CloseSingleNodeIndex(p, second, failing);
  }
}

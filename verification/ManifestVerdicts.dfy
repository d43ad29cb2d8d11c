/** The verdict theorems, for accepted manifests and capture files. */
module ManifestVerdicts {
  import opened Basics
  import opened CausalTypes
  import opened History
  import opened Graphs
  import opened Runs
  import opened BackwardWalk
  import opened Ranking
  import opened AttributionTheorems
  import opened Completeness
  import opened Manifest
  import opened Verdicts
  import opened Eviction
  import opened PcapFormat
  import opened ManifestRun
  import opened Captures

  /** The runtime manifest of a configuration with this node table. */
  ghost function EngineOf(cfg: ManifestCfg, table: NodeTable): DependencyManifest {
    DependencyManifest(table, cfg.edges, cfg.tripNode, map n | n in Heads(cfg.edges) :: Incoming(cfg.edges, n))
  }

  lemma EngineIsValid(cfg: ManifestCfg, table: NodeTable)
    requires forall id :: id in table ==> table[id].ShiftInRange()
    ensures EngineOf(cfg, table).Valid()
  {
    forall n: NodeId ensures n in Heads(cfg.edges) <==> Incoming(cfg.edges, n) != [] {
      if n !in Heads(cfg.edges) {
        NoIncoming(cfg.edges, n);
      } else {
        var e :| e in cfg.edges && e.to == n;
        assert e in Incoming(cfg.edges, n);
      }
    }
  }

  /** An accepted configuration, its node table, and an order of its graph. */
  ghost predicate Accepted(cfg: ManifestCfg, table: NodeTable, order: seq<NodeId>) {
    && Acceptable(cfg) && TableOf(cfg.nodes, table) && TopologicalOrder(cfg.edges, order)
    && forall id :: id in table ==> table[id].ShiftInRange()
  }

  lemma AcceptedWatches(cfg: ManifestCfg, table: NodeTable, order: seq<NodeId>)
    requires Accepted(cfg, table, order)
    ensures WatchesInterlock(table, cfg.tripNode)
  {
  }

  /** Other sane budgets on the same wires are accepted too, and some capture file makes the engine record any
      possible run of up to a minute. */
  lemma Rebudgeted(cfg: ManifestCfg, table: NodeTable, order: seq<NodeId>, edges: seq<DependencyEdge>, h: History)
    returns (data: seq<byte>, choices: seq<Choice>)
    requires Accepted(cfg, table, order) && SameWires(cfg.edges, edges) && SaneBudgets(edges)
    requires Possible(table, h) && forall t :: t in h ==> t.tsNs <= MAX_SANE_WCET_NS
    ensures Acceptable(cfg.(edges := edges)) && EngineOf(cfg.(edges := edges), table).Valid()
    ensures CapturedIn(EngineOf(cfg.(edges := edges), table), data, choices, h)
  {
    var cfg' := cfg.(edges := edges);
    EngineIsValid(cfg', table);
    SameWiresBothWays(cfg.edges, edges);
    OrderCarriesOver(cfg.edges, edges, order);
    OrderMeansAcyclic(edges, order);
    forall i | 0 <= i < |edges| ensures EdgeOk(cfg.nodes, edges[i]) {
      assert EdgeOk(cfg.nodes, cfg.edges[i]);
    }
    hide DependencyManifest.Valid, Possible, CapturedIn, Acyclic, DistinctIds, TableOf, SaneBudgets, SameWires;
    data, choices := PossibleIsCaptured(EngineOf(cfg', table), h);
  }

  /** Every accepted manifest outside a funnel has a twin on the same wires, accepted too, and a capture file
      whose trip it leaves unattributed although the ring holds a broken upstream budget. */
  lemma ForkedManifestHides(cfg: ManifestCfg, table: NodeTable, order: seq<NodeId>)
    returns (edges: seq<DependencyEdge>, h: History, data: seq<byte>, choices: seq<Choice>)
    requires Accepted(cfg, table, order) && !Funnel(Live(table, cfg.edges), cfg.tripNode)
    ensures SameWires(cfg.edges, edges) && Acceptable(cfg.(edges := edges))
    ensures EngineOf(cfg.(edges := edges), table).Valid()
    ensures CapturedIn(EngineOf(cfg.(edges := edges), table), data, choices, h)
    ensures TripRun(table, h, cfg.tripNode) && !Exact(edges, Newest(h, |h|), h[|h| - 1])
  {
    hide Acceptable, TableOf, DependencyManifest.Valid, Possible, CapturedIn, Exact, TopologicalOrder, Fork, SameWires,
      SaneBudgets, Live, TripAt;
    AcceptedWatches(cfg, table, order);
    var r := LiveOrder(table, cfg.edges, order);
    var m, n, a, b := PickFork(Live(table, cfg.edges), r, cfg.tripNode);
    edges, h := ForkHides(table, cfg.edges, r, cfg.tripNode, m, n, a, b);
    data, choices := Rebudgeted(cfg, table, order, edges, h);
  }

  /** Every accepted manifest whose trip node is fed has, for any ring size, such a twin and a capture file whose
      trip it leaves unattributed although a budget into the trip node was broken by fifty seconds. */
  lemma FedManifestLoses(cfg: ManifestCfg, table: NodeTable, order: seq<NodeId>, cap: nat)
    returns (edges: seq<DependencyEdge>, h: History, data: seq<byte>, choices: seq<Choice>)
    requires Accepted(cfg, table, order) && Fed(table, cfg.edges, cfg.tripNode) && cap > 0
    ensures SameWires(cfg.edges, edges) && Acceptable(cfg.(edges := edges))
    ensures EngineOf(cfg.(edges := edges), table).Valid()
    ensures CapturedIn(EngineOf(cfg.(edges := edges), table), data, choices, h)
    ensures TripRun(table, h, cfg.tripNode) && |h| == Max(cap + 1, 3) && !Believable(edges, h, cap)
  {
    hide Acceptable, TableOf, DependencyManifest.Valid, Possible, CapturedIn, Believable, TopologicalOrder, SameWires,
      SaneBudgets, LostRun, TripAt;
    AcceptedWatches(cfg, table, order);
    var e :| e in cfg.edges && e.to == cfg.tripNode && CanReport(table, e.from);
    edges := LostVerdict(table, cfg.edges, order, e, cap);
    h := LostRun(table, e.from, e.to, cap);
    data, choices := Rebudgeted(cfg, table, order, edges, h);
  }
}

/**
 * The country collaboration network of the health dashboard: projects are
 * grouped by their identifier, every two countries taking part in the same
 * project form a collaboration pair, pairs are counted over projects, and the
 * pairs that reach a minimum count become the weighted edges of an undirected
 * graph.
 */
module CountryNetwork {
  import opened Wrappers
  import opened StringOrder
  import opened Combinatorics

  type Country = string
  type ProjectId = int

  /** A collaboration pair; the builder only ever produces ascending pairs. */
  type Pair = (Country, Country)

  /** One row of the organisations table: its `projectID` cell and its
      `country_name` cell, which may be missing. */
  datatype Row = Row(projectId: ProjectId, country: Option<Country>)

  /** The default of `min_weight`. */
  const DefaultMinWeight: int := 5

  // ---------------------------------------------------------------------------
  // Specification: what the counts mean, independently of how they are built.

  /** The projects that occur in the table. */
  ghost function ProjectIds(rows: seq<Row>): set<ProjectId>
  {
    set r | r in rows :: r.projectId
  }

  /** The non-missing countries of project `p`. */
  ghost function CountriesOf(rows: seq<Row>, p: ProjectId): set<Country>
  {
    set r | r in rows && r.projectId == p && r.country.Some? :: r.country.value
  }

  /** The projects in which both `a` and `b` take part. */
  ghost function Collaborations(rows: seq<Row>, a: Country, b: Country): set<ProjectId>
  {
    set p | p in ProjectIds(rows) && a in CountriesOf(rows, p) && b in CountriesOf(rows, p)
  }

  /** Ascending pairs of countries that share at least one project. */
  ghost function CoOccurring(rows: seq<Row>): set<Pair>
  {
    set r1, r2 | r1 in rows && r2 in rows && r1.projectId == r2.projectId
                 && r1.country.Some? && r2.country.Some?
                 && Less(r1.country.value, r2.country.value)
      :: (r1.country.value, r2.country.value)
  }

  /** For every ascending pair of collaborating countries, the number of
      distinct projects they share. */
  ghost function PairCounts(rows: seq<Row>): map<Pair, nat>
  {
    map k | k in CoOccurring(rows) :: |Collaborations(rows, k.0, k.1)|
  }

  /** The counted pairs that reach the threshold, with their counts. */
  ghost function KeptEdges(counts: map<Pair, nat>, minWeight: int): map<Pair, nat>
  {
    map k | k in counts && counts[k] >= minWeight :: counts[k]
  }

  /** The countries that are an end of some edge. */
  ghost function Endpoints(edges: map<Pair, nat>): set<Country>
  {
    (set k | k in edges :: k.0) + (set k | k in edges :: k.1)
  }

  // ---------------------------------------------------------------------------
  // The graph the builder fills in.

  /** The key under which the undirected edge between `u` and `v` is stored. */
  function EdgeKey(u: Country, v: Country): (k: Pair)
    ensures (k.0 == u && k.1 == v) || (k.0 == v && k.1 == u)
    ensures LessEq(k.0, k.1)
  {
    LessTotal(u, v);
    if Less(v, u) then (v, u) else (u, v)
  }

  /** An undirected edge has one key, whichever end is named first. */
  lemma EdgeKeySymmetric(u: Country, v: Country)
    ensures EdgeKey(u, v) == EdgeKey(v, u)
  {
    LessAsymmetric(u, v);
    LessTotal(u, v);
  }

  /** An undirected graph with an integer `weight` on every edge. */
  class Graph {
    var nodes: set<Country>
    var weight: map<Pair, nat>

    /** Every edge is stored under its key and joins two nodes of the graph. */
    ghost predicate Valid()
      reads this
    {
      forall k :: k in weight ==> k == EdgeKey(k.0, k.1) && k.0 in nodes && k.1 in nodes
    }

    /** `nx.Graph()`. */
    constructor ()
      ensures Valid()
      ensures nodes == {} && weight == map[]
    {
      nodes := {};
      weight := map[];
    }

    /** `G.add_edge(u, v, weight=w)`: adds the missing ends as nodes and sets
        the edge's weight, replacing the weight of an existing edge. */
    method AddEdge(u: Country, v: Country, w: nat)
      requires Valid()
      modifies this
      ensures Valid()
      ensures nodes == old(nodes) + {u, v}
      ensures weight == old(weight)[EdgeKey(u, v) := w]
    {
      var k := EdgeKey(u, v);
      LessAsymmetric(u, v);
      assert k == EdgeKey(k.0, k.1);
      nodes := nodes + {u, v};
      weight := weight[k := w];
    }

    /** `G.has_edge(u, v)`. */
    predicate HasEdge(u: Country, v: Country)
      reads this
    {
      EdgeKey(u, v) in weight
    }
  }

  // ---------------------------------------------------------------------------
  // The builder, phase by phase.

  /** `data.groupby('projectID')` with `group['country_name'].dropna().unique()`:
      every project once, each with its distinct non-missing countries. */
  method GroupCountries(rows: seq<Row>) returns (pids: seq<ProjectId>, groups: map<ProjectId, seq<Country>>)
    ensures Distinct(pids)
    ensures forall p :: p in pids <==> p in ProjectIds(rows)
    ensures forall p :: p in groups <==> p in pids
    ensures forall p :: p in groups ==> Distinct(groups[p])
    ensures forall p, c :: p in groups ==> (c in groups[p] <==> c in CountriesOf(rows, p))
  {
    pids, groups := [], map[];
    for i := 0 to |rows|
      invariant Distinct(pids)
      invariant forall p :: p in pids <==> p in ProjectIds(rows[..i])
      invariant forall p :: p in groups <==> p in pids
      invariant forall p :: p in groups ==> Distinct(groups[p])
      invariant forall p, c :: p in groups ==> (c in groups[p] <==> c in CountriesOf(rows[..i], p))
    {
      var r := rows[i];
      assert rows[..i + 1] == rows[..i] + [r];
      if r.projectId !in groups {
        pids := pids + [r.projectId];
        groups := groups[r.projectId := []];
      }
      if r.country.Some? && r.country.value !in groups[r.projectId] {
        groups := groups[r.projectId := groups[r.projectId] + [r.country.value]];
      }
    }
    assert rows[..|rows|] == rows;
  }

  /** Project `p` holds both ends of the ascending pair `k`. */
  predicate Contributes(groups: map<ProjectId, seq<Country>>, p: ProjectId, k: Pair)
  {
    p in groups && Less(k.0, k.1) && k.0 in groups[p] && k.1 in groups[p]
  }

  /** How many of the projects `ps` hold both ends of the ascending pair `k`. */
  function CountIn(ps: seq<ProjectId>, groups: map<ProjectId, seq<Country>>, k: Pair): nat
  {
    if ps == [] then 0
    else CountIn(ps[..|ps| - 1], groups, k) + (if Contributes(groups, ps[|ps| - 1], k) then 1 else 0)
  }

  /** The pairs of one project's distinct countries: `combinations(sorted(countries), 2)`
      contains every ascending pair of them exactly once, `k * (k - 1) / 2` pairs in all. */
  lemma ProjectPairsExactlyOnce(countries: seq<Country>)
    requires Distinct(countries)
    ensures 2 * |Combinations2(SortStrings(countries))| == |countries| * (|countries| - 1)
    ensures forall a, b :: multiset(Combinations2(SortStrings(countries)))[(a, b)]
                           == if a in countries && b in countries && Less(a, b) then 1 else 0
  {
    var sorted := SortStrings(countries);
    CombinationsLength(sorted);
    forall a, b ensures multiset(Combinations2(sorted))[(a, b)]
                        == if a in countries && b in countries && Less(a, b) then 1 else 0
    {
      ProjectPairOnce(countries, a, b);
    }
  }

  lemma ProjectPairOnce(countries: seq<Country>, a: Country, b: Country)
    requires Distinct(countries)
    ensures multiset(Combinations2(SortStrings(countries)))[(a, b)]
            == if a in countries && b in countries && Less(a, b) then 1 else 0
  {
    var sorted := SortStrings(countries);
    CombinationsCount(sorted, a, b);
    assert a in sorted <==> a in multiset(countries);
    assert b in sorted <==> b in multiset(countries);
  }

  /** A list of fewer than two countries holds no ascending pair. */
  lemma FewCountriesNoPair(countries: seq<Country>, k: Pair)
    requires |countries| < 2
    ensures !(Less(k.0, k.1) && k.0 in countries && k.1 in countries)
  {
    LessIrreflexive(k.0);
  }

  /** `edges` holds every ascending pair as often as there are projects among `ps`
      that hold both its ends. */
  ghost predicate TalliesProjects(edges: seq<Pair>, ps: seq<ProjectId>, groups: map<ProjectId, seq<Country>>)
  {
    forall k :: multiset(edges)[k] == CountIn(ps, groups, k)
  }

  /** The pairs project `p` adds to `country_edges`. */
  lemma CollectStep(ps: seq<ProjectId>, p: ProjectId, groups: map<ProjectId, seq<Country>>,
                    before: seq<Pair>, added: seq<Pair>)
    requires p in groups && Distinct(groups[p])
    requires added == if |groups[p]| >= 2 then Combinations2(SortStrings(groups[p])) else []
    requires TalliesProjects(before, ps, groups)
    ensures TalliesProjects(before + added, ps + [p], groups)
  {
    var countries := groups[p];
    if |countries| >= 2 {
      ProjectPairsExactlyOnce(countries);
    }
    assert (ps + [p])[..|ps|] == ps;
    forall k ensures multiset(before + added)[k] == CountIn(ps + [p], groups, k) {
      var own := if Contributes(groups, p, k) then 1 else 0;
      assert CountIn(ps + [p], groups, k) == CountIn(ps, groups, k) + own;
      assert multiset(before + added)[k] == multiset(before)[k] + multiset(added)[k];
      if |countries| < 2 {
        FewCountriesNoPair(countries, k);
        assert multiset(added)[k] == 0 == own;
      } else {
        assert multiset(added)[(k.0, k.1)] == own;
      }
    }
  }

  /** `for pair in pairs: country_edges.append(pair)`. */
  method AppendAll(edges: seq<Pair>, pairs: seq<Pair>) returns (extended: seq<Pair>)
    ensures extended == edges + pairs
  {
    extended := edges;
    for t := 0 to |pairs|
      invariant extended == edges + pairs[..t]
    {
      assert pairs[..t + 1] == pairs[..t] + [pairs[t]];
      extended := extended + [pairs[t]];
    }
    assert pairs[..|pairs|] == pairs;
  }

  /** The loop over the groups: appends every project's pairs to `country_edges`. */
  method CollectPairs(pids: seq<ProjectId>, groups: map<ProjectId, seq<Country>>) returns (countryEdges: seq<Pair>)
    requires forall p :: p in pids ==> p in groups
    requires forall p :: p in groups ==> Distinct(groups[p])
    ensures TalliesProjects(countryEdges, pids, groups)
  {
    countryEdges := [];
    for j := 0 to |pids|
      invariant TalliesProjects(countryEdges, pids[..j], groups)
    {
      var p := pids[j];
      assert p in pids;
      countryEdges := CollectProject(countryEdges, pids[..j], p, groups);
      assert pids[..j + 1] == pids[..j] + [p];
    }
    assert pids[..|pids|] == pids;
  }

  /** One pass of the loop over the groups: project `p`'s pairs, if it has two
      or more countries, appended to `edges`. */
  method CollectProject(edges: seq<Pair>, ps: seq<ProjectId>, p: ProjectId,
                        groups: map<ProjectId, seq<Country>>) returns (extended: seq<Pair>)
    requires p in groups && Distinct(groups[p])
    requires TalliesProjects(edges, ps, groups)
    ensures TalliesProjects(extended, ps + [p], groups)
  {
    var countries := groups[p];
    extended := edges;
    ghost var added: seq<Pair> := [];
    if |countries| >= 2 {
      var pairs := Combinations2(SortStrings(countries));
      extended := AppendAll(edges, pairs);
      added := pairs;
    }
    CollectStep(ps, p, groups, edges, added);
  }

  /** `Counter(country_edges)`: every pair that occurs, with its number of occurrences. */
  method CountPairs(edges: seq<Pair>) returns (counts: map<Pair, nat>)
    ensures forall k :: k in counts <==> k in edges
    ensures forall k :: k in counts ==> counts[k] == multiset(edges)[k]
  {
    counts := map[];
    for i := 0 to |edges|
      invariant forall k :: k in counts <==> k in edges[..i]
      invariant forall k :: k in counts ==> counts[k] == multiset(edges[..i])[k]
    {
      var e := edges[i];
      assert edges[..i + 1] == edges[..i] + [e];
      counts := counts[e := (if e in counts then counts[e] else 0) + 1];
    }
    assert edges[..|edges|] == edges;
  }

  // ---------------------------------------------------------------------------
  // From the phases to the specification.

  /** Over distinct projects, `CountIn` is the number of contributing projects. */
  lemma {:induction false} CountInIsCardinality(ps: seq<ProjectId>, groups: map<ProjectId, seq<Country>>, k: Pair)
    requires Distinct(ps)
    ensures CountIn(ps, groups, k) == |set p | p in ps && Contributes(groups, p, k)|
  {
    if ps != [] {
      var init, last := ps[..|ps| - 1], ps[|ps| - 1];
      assert ps == init + [last];
      assert Distinct(init);
      assert last !in init by {
        forall i | 0 <= i < |init| ensures init[i] != last {
          assert init[i] == ps[i];
        }
      }
      CountInIsCardinality(init, groups, k);
      var before := set p | p in init && Contributes(groups, p, k);
      var after := set p | p in ps && Contributes(groups, p, k);
      if Contributes(groups, last, k) {
        assert after == before + {last};
      } else {
        assert after == before;
      }
    }
  }

  /** A pair of countries shares a project exactly when it is an ascending
      pair with at least one collaboration. */
  lemma CoOccurringIffShared(rows: seq<Row>, a: Country, b: Country)
    ensures (a, b) in CoOccurring(rows) <==> Less(a, b) && Collaborations(rows, a, b) != {}
  {
    if (a, b) in CoOccurring(rows) {
      var r1, r2 :| r1 in rows && r2 in rows && r1.projectId == r2.projectId
                    && r1.country.Some? && r2.country.Some?
                    && Less(r1.country.value, r2.country.value)
                    && (a, b) == (r1.country.value, r2.country.value);
      assert r1.projectId in Collaborations(rows, a, b);
    }
    if Less(a, b) && Collaborations(rows, a, b) != {} {
      var p :| p in Collaborations(rows, a, b);
      var r1 :| r1 in rows && r1.projectId == p && r1.country == Some(a);
      var r2 :| r2 in rows && r2.projectId == p && r2.country == Some(b);
      assert (r1.country.value, r2.country.value) in CoOccurring(rows);
    }
  }

  /** The projects grouped as holding both ends of `k` are its collaborations. */
  lemma ContributingAreCollaborations(rows: seq<Row>, pids: seq<ProjectId>,
                                      groups: map<ProjectId, seq<Country>>, k: Pair)
    requires forall p :: p in pids <==> p in ProjectIds(rows)
    requires forall p :: p in groups <==> p in pids
    requires forall p, c :: p in groups ==> (c in groups[p] <==> c in CountriesOf(rows, p))
    ensures (set p | p in pids && Contributes(groups, p, k))
            == if Less(k.0, k.1) then Collaborations(rows, k.0, k.1) else {}
  {
  }

  /** The grouping and collection phases tally one pair by its collaborations. */
  lemma PairTally(rows: seq<Row>, pids: seq<ProjectId>, groups: map<ProjectId, seq<Country>>,
                  edges: seq<Pair>, k: Pair)
    requires Distinct(pids)
    requires forall p :: p in pids <==> p in ProjectIds(rows)
    requires forall p :: p in groups <==> p in pids
    requires forall p, c :: p in groups ==> (c in groups[p] <==> c in CountriesOf(rows, p))
    requires TalliesProjects(edges, pids, groups)
    ensures multiset(edges)[k] == if k in CoOccurring(rows) then |Collaborations(rows, k.0, k.1)| else 0
  {
    assert multiset(edges)[k] == CountIn(pids, groups, k);
    CountInIsCardinality(pids, groups, k);
    ContributingAreCollaborations(rows, pids, groups, k);
    CoOccurringIffShared(rows, k.0, k.1);
  }

  /** What the three phases compute together is `PairCounts`. */
  lemma PhasesComputePairCounts(rows: seq<Row>, pids: seq<ProjectId>, groups: map<ProjectId, seq<Country>>,
                                edges: seq<Pair>, counts: map<Pair, nat>)
    requires Distinct(pids)
    requires forall p :: p in pids <==> p in ProjectIds(rows)
    requires forall p :: p in groups <==> p in pids
    requires forall p, c :: p in groups ==> (c in groups[p] <==> c in CountriesOf(rows, p))
    requires TalliesProjects(edges, pids, groups)
    requires forall k :: k in counts <==> k in edges
    requires forall k :: k in counts ==> counts[k] == multiset(edges)[k]
    ensures counts == PairCounts(rows)
  {
    forall k: Pair ensures (k in counts <==> k in PairCounts(rows))
                   && (k in counts ==> counts[k] == PairCounts(rows)[k])
    {
      PairTally(rows, pids, groups, edges, k);
      assert k in edges <==> multiset(edges)[k] > 0;
      if k in CoOccurring(rows) {
        CoOccurringIffShared(rows, k.0, k.1);
      }
    }
  }

  // ---------------------------------------------------------------------------
  // The builder.

  /** `build_country_network(data, min_weight)`: returns the graph of the pairs
      counted at least `minWeight` times, and the counts of all pairs. */
  method BuildCountryNetwork(rows: seq<Row>, minWeight: int := DefaultMinWeight)
    returns (g: Graph, edgeCounts: map<Pair, nat>)
    ensures fresh(g) && g.Valid()
    ensures edgeCounts == PairCounts(rows)
    ensures g.weight == KeptEdges(edgeCounts, minWeight)
    ensures g.nodes == Endpoints(g.weight)
  {
    var pids, groups := GroupCountries(rows);
    var countryEdges := CollectPairs(pids, groups);
    edgeCounts := CountPairs(countryEdges);
    PhasesComputePairCounts(rows, pids, groups, countryEdges, edgeCounts);
    PairCountsOrdered(rows);
    g := ThresholdGraph(edgeCounts, minWeight);
  }

  lemma KeptEdgesStep(done: map<Pair, nat>, k: Pair, v: nat, minWeight: int)
    requires k !in done
    ensures KeptEdges(done[k := v], minWeight)
            == if v >= minWeight then KeptEdges(done, minWeight)[k := v] else KeptEdges(done, minWeight)
  {
  }

  lemma EndpointsStep(edges: map<Pair, nat>, k: Pair, v: nat)
    ensures Endpoints(edges[k := v]) == Endpoints(edges) + {k.0, k.1}
  {
    var e, e' := edges[k := v], Endpoints(edges) + {k.0, k.1};
    forall c ensures c in Endpoints(e) <==> c in e' {
      if c in Endpoints(e) && c != k.0 && c != k.1 {
        var k' :| k' in e && (k'.0 == c || k'.1 == c);
        assert k' in edges;
      }
    }
  }

  /** The graph loop: `add_edge(c1, c2, weight=weight)` for every counted pair
      whose count reaches `minWeight`, in any order. */
  method ThresholdGraph(counts: map<Pair, nat>, minWeight: int) returns (g: Graph)
    requires forall k :: k in counts ==> Less(k.0, k.1)
    ensures fresh(g) && g.Valid()
    ensures g.weight == KeptEdges(counts, minWeight)
    ensures g.nodes == Endpoints(g.weight)
  {
    g := new Graph();
    var todo := counts.Keys;
    ghost var done: map<Pair, nat> := map[];
    assert KeptEdges(done, minWeight) == map[];
    while todo != {}
      invariant todo <= counts.Keys
      invariant done == counts - todo
      invariant g.Valid()
      invariant g.weight == KeptEdges(done, minWeight)
      invariant g.nodes == Endpoints(g.weight)
      decreases todo
    {
      var k :| k in todo;
      KeptEdgesStep(done, k, counts[k], minWeight);
      if counts[k] >= minWeight {
        assert EdgeKey(k.0, k.1) == k by {
          LessAsymmetric(k.0, k.1);
        }
        EndpointsStep(g.weight, k, counts[k]);
        g.AddEdge(k.0, k.1, counts[k]);
      }
      done := done[k := counts[k]];
      todo := todo - {k};
    }
    assert done == counts;
  }

  // ---------------------------------------------------------------------------
  // Properties of the counts and of the graph.

  /** Every counted pair is ascending: no self pair, and never both orders. */
  lemma PairCountsOrdered(rows: seq<Row>)
    ensures forall k :: k in PairCounts(rows) ==> Less(k.0, k.1) && k.0 != k.1
    ensures forall a, b :: (a, b) in PairCounts(rows) ==> (b, a) !in PairCounts(rows)
  {
    forall k | k in PairCounts(rows) ensures Less(k.0, k.1) && k.0 != k.1 {
      CoOccurringIffShared(rows, k.0, k.1);
      LessIrreflexive(k.0);
    }
    forall a, b | (a, b) in PairCounts(rows) ensures (b, a) !in PairCounts(rows) {
      CoOccurringIffShared(rows, a, b);
      CoOccurringIffShared(rows, b, a);
      LessAsymmetric(a, b);
    }
  }

  /** An ascending pair is counted exactly when the two countries share a
      project, and its count is the number of projects they share. */
  lemma PairCountIsSharedProjects(rows: seq<Row>, a: Country, b: Country)
    requires Less(a, b)
    ensures (a, b) in PairCounts(rows) <==> |Collaborations(rows, a, b)| > 0
    ensures (a, b) in PairCounts(rows) ==> PairCounts(rows)[(a, b)] == |Collaborations(rows, a, b)|
  {
    CoOccurringIffShared(rows, a, b);
  }

  /** An edge of the graph is the same edge named from either end. */
  lemma HasEdgeSymmetric(g: Graph, u: Country, v: Country)
    ensures g.HasEdge(u, v) == g.HasEdge(v, u)
  {
    EdgeKeySymmetric(u, v);
  }

  /** An ascending pair becomes an edge exactly when the two countries share
      at least one project and at least `minWeight` projects; its weight is
      the number of projects they share. */
  lemma KeptEdgeIsFrequentPair(rows: seq<Row>, minWeight: int, a: Country, b: Country)
    requires Less(a, b)
    ensures (a, b) in KeptEdges(PairCounts(rows), minWeight)
            <==> |Collaborations(rows, a, b)| > 0 && |Collaborations(rows, a, b)| >= minWeight
    ensures (a, b) in KeptEdges(PairCounts(rows), minWeight)
            ==> KeptEdges(PairCounts(rows), minWeight)[(a, b)] == |Collaborations(rows, a, b)|
  {
    PairCountIsSharedProjects(rows, a, b);
  }

  /** Raising the threshold only removes edges (and with them nodes); the
      edges that stay keep their weights. */
  lemma RaisingThresholdRemovesEdges(counts: map<Pair, nat>, low: int, high: int)
    requires low <= high
    ensures KeptEdges(counts, high).Keys <= KeptEdges(counts, low).Keys
    ensures forall k :: k in KeptEdges(counts, high) ==> KeptEdges(counts, high)[k] == KeptEdges(counts, low)[k]
    ensures Endpoints(KeptEdges(counts, high)) <= Endpoints(KeptEdges(counts, low))
  {
  }

  lemma CountriesOfAppend(rows: seq<Row>, extra: seq<Row>, p: ProjectId)
    ensures CountriesOf(rows + extra, p) == CountriesOf(rows, p) + CountriesOf(extra, p)
  {
  }

  /** A project that has a country takes part in the table. */
  lemma CountryImpliesProject(rows: seq<Row>, p: ProjectId, c: Country)
    requires c in CountriesOf(rows, p)
    ensures p in ProjectIds(rows)
  {
    var r :| r in rows && r.projectId == p && r.country == Some(c);
  }

  /** Two tables whose projects have the same countries have the same counts. */
  lemma SameCountriesSameCounts(rows: seq<Row>, rows': seq<Row>)
    requires forall p :: CountriesOf(rows, p) == CountriesOf(rows', p)
    ensures PairCounts(rows) == PairCounts(rows')
  {
    forall a, b ensures Collaborations(rows, a, b) == Collaborations(rows', a, b) {
      forall p ensures p in Collaborations(rows, a, b) <==> p in Collaborations(rows', a, b) {
        if a in CountriesOf(rows, p) {
          CountryImpliesProject(rows, p, a);
          CountryImpliesProject(rows', p, a);
        }
      }
    }
    forall k: Pair ensures k in PairCounts(rows) <==> k in PairCounts(rows') {
      CoOccurringIffShared(rows, k.0, k.1);
      CoOccurringIffShared(rows', k.0, k.1);
    }
  }

  /** A row whose country is missing, or repeats a country its project already
      has, changes no count: countries are made unique per project first. */
  lemma RedundantRowChangesNothing(rows: seq<Row>, r: Row)
    requires r.country.Some? ==> r.country.value in CountriesOf(rows, r.projectId)
    ensures PairCounts(rows + [r]) == PairCounts(rows)
  {
    forall p ensures CountriesOf(rows + [r], p) == CountriesOf(rows, p) {
      CountriesOfAppend(rows, [r], p);
    }
    SameCountriesSameCounts(rows + [r], rows);
  }

  /** The rows of one new project `p` raise the count of each ascending pair
      of its countries by one and leave every other count alone. */
  lemma NewProjectAddsOne(rows: seq<Row>, extra: seq<Row>, p: ProjectId, a: Country, b: Country)
    requires p !in ProjectIds(rows)
    requires forall r :: r in extra ==> r.projectId == p
    ensures |Collaborations(rows + extra, a, b)|
            == |Collaborations(rows, a, b)| + if a in CountriesOf(extra, p) && b in CountriesOf(extra, p) then 1 else 0
  {
    var before, after := Collaborations(rows, a, b), Collaborations(rows + extra, a, b);
    var joins := a in CountriesOf(extra, p) && b in CountriesOf(extra, p);
    forall q ensures q in after <==> q in before || (q == p && joins) {
      CountriesOfAppend(rows, extra, q);
      if q != p {
        assert CountriesOf(extra, q) == {};
      }
      if q in before {
        assert q in ProjectIds(rows + extra);
      }
      if q in after && q != p {
        CountryImpliesProject(rows, q, a);
      }
      if q == p && joins {
        CountryImpliesProject(rows + extra, p, a);
      }
      if q == p && q in after {
        assert CountriesOf(rows, p) == {} by {
          if c :| c in CountriesOf(rows, p) {
            CountryImpliesProject(rows, p, c);
          }
        }
      }
    }
    assert p !in before;
    if joins {
      assert after == before + {p};
    } else {
      assert after == before;
    }
  }

  /** A project with fewer than two distinct countries adds no pair. */
  lemma SmallProjectAddsNothing(rows: seq<Row>, extra: seq<Row>, p: ProjectId)
    requires p !in ProjectIds(rows)
    requires forall r :: r in extra ==> r.projectId == p
    requires |CountriesOf(extra, p)| < 2
    ensures PairCounts(rows + extra) == PairCounts(rows)
  {
    forall a, b | Less(a, b) ensures Collaborations(rows + extra, a, b) == Collaborations(rows, a, b) {
      NewProjectAddsOne(rows, extra, p, a, b);
      LessIrreflexive(a);
      if a in CountriesOf(extra, p) && b in CountriesOf(extra, p) {
        assert {a, b} <= CountriesOf(extra, p);
        assert |{a, b}| == 2;
        SubsetCardinality({a, b}, CountriesOf(extra, p));
      }
      forall q ensures q in Collaborations(rows + extra, a, b) ==> q in Collaborations(rows, a, b) {
        CountriesOfAppend(rows, extra, q);
        if q in Collaborations(rows + extra, a, b) && q != p {
          assert CountriesOf(extra, q) == {};
          CountryImpliesProject(rows, q, a);
        }
      }
    }
    forall k: Pair ensures k in PairCounts(rows + extra) <==> k in PairCounts(rows) {
      CoOccurringIffShared(rows, k.0, k.1);
      CoOccurringIffShared(rows + extra, k.0, k.1);
    }
  }

  lemma SubsetCardinality<T>(a: set<T>, b: set<T>)
    requires a <= b
    ensures |a| <= |b|
  {
    assert b == a + (b - a);
  }
}

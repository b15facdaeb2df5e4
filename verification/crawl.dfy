/** The peer-discovery loop (rpc-finder.py:130-146). `pool.map` over a frontier is a
    set comprehension: the round barrier means only the union of the answers matters. */
module Discovery {
  import opened Peers

  /** The crawl's state between rounds: `rpc_provider_lst` and `new_peers_found`. */
  datatype CrawlState = CrawlState(visited: set<Endpoint>, frontier: set<Endpoint>)

  /** The flattened answers of one `pool.map(get_peers_via_rpc, frontier)`, before `discard('')`. */
  function Discovered(peers: Endpoint -> set<Endpoint>, frontier: set<Endpoint>): (found: set<Endpoint>)
    ensures forall f :: f in frontier ==> peers(f) <= found
    ensures forall e :: e in found ==> exists f :: f in frontier && e in peers(f)
  {
    set f, e | f in frontier && e in peers(f) :: e
  }

  /** One crawl round (lines 141-146; lines 133-138 are the same round on the seeds). */
  function Round(peers: Endpoint -> set<Endpoint>, visited: set<Endpoint>, frontier: set<Endpoint>): (next: CrawlState)
    ensures visited <= next.visited
    ensures next.frontier == next.visited - visited
    ensures next.frontier !! visited
    ensures forall f :: f in frontier ==> peers(f) - {""} <= next.visited
    ensures forall e :: e in next.frontier ==> e != "" && exists f :: f in frontier && e in peers(f)
  {
    var found := Discovered(peers, frontier) - {""};
    CrawlState(found + visited, (found + visited) - visited)
  }

  /** `s` already holds every (non-empty) peer any of its members names. */
  ghost predicate Closed(s: set<Endpoint>, peers: Endpoint -> set<Endpoint>)
  {
    forall e :: e in s ==> peers(e) - {""} <= s
  }

  /** The union of the frontiers queried so far. */
  function UnionAll(rounds: seq<set<Endpoint>>): (all: set<Endpoint>)
    ensures forall i :: 0 <= i < |rounds| ==> rounds[i] <= all
  {
    if |rounds| == 0 then {}
    else UnionAll(rounds[..|rounds| - 1]) + rounds[|rounds| - 1]
  }

  /** Every endpoint of the union was in one of the rounds. */
  lemma {:induction false} UnionAllFromRounds(rounds: seq<set<Endpoint>>, e: Endpoint)
    requires e in UnionAll(rounds)
    ensures exists i :: 0 <= i < |rounds| && e in rounds[i]
  {
    var earlier := rounds[..|rounds| - 1];
    if e !in rounds[|rounds| - 1] {
      UnionAllFromRounds(earlier, e);
      var i :| 0 <= i < |earlier| && e in earlier[i];
      assert rounds[i] == earlier[i];
    }
  }

  lemma UnionAllAppend(rounds: seq<set<Endpoint>>, last: set<Endpoint>)
    ensures UnionAll(rounds + [last]) == UnionAll(rounds) + last
  {
    assert (rounds + [last])[..|rounds|] == rounds;
  }

  /** A round on an empty frontier changes nothing, so the source's unconditional first
      round (lines 133-138) followed by `while new_peers_found` is the same as a loop that
      starts with `frontier := seeds`. */
  lemma EmptyRoundIsNoOp(peers: Endpoint -> set<Endpoint>, visited: set<Endpoint>)
    ensures Round(peers, visited, {}) == CrawlState(visited, {})
  {
    assert Discovered(peers, {}) == {};
  }

  /** A seed whose only peer names no further peers: the crawl visits both after two
      rounds, the second of which finds nothing new. */
  lemma TwoNodeScenario(peers: Endpoint -> set<Endpoint>, seed: Endpoint, peer: Endpoint)
    requires seed != peer && peer != ""
    requires peers(seed) == {peer} && peers(peer) == {}
    ensures Round(peers, {seed}, {seed}) == CrawlState({seed, peer}, {peer})
    ensures Round(peers, {seed, peer}, {peer}) == CrawlState({seed, peer}, {})
  {
    var first := Discovered(peers, {seed});
    assert peer in first;
    forall e | e in first ensures e == peer {
      var f :| f in {seed} && e in peers(f);
    }
    assert first == {peer};
    var second := Discovered(peers, {peer});
    assert forall e :: e in second ==> e in peers(peer);
    assert second == {};
  }

  /** While the crawl stays inside a closed universe, a round that yields a non-empty
      frontier strictly shrinks the unvisited part of the universe. */
  lemma RoundProgress(peers: Endpoint -> set<Endpoint>, universe: set<Endpoint>,
                      visited: set<Endpoint>, frontier: set<Endpoint>)
    requires frontier <= visited <= universe
    requires Closed(universe, peers)
    ensures Round(peers, visited, frontier).visited <= universe
    ensures Round(peers, visited, frontier).frontier != {} ==>
      |universe - Round(peers, visited, frontier).visited| < |universe - visited|
  {
    var next := Round(peers, visited, frontier);
    forall e | e in next.visited ensures e in universe {
      if e !in visited {
        var f :| f in frontier && e in peers(f);
      }
    }
    assert universe - visited == (universe - next.visited) + next.frontier;
    assert (universe - next.visited) !! next.frontier;
  }

  /** A round keeps `visited` inside every closed superset of the seeds. */
  lemma StepStaysInClosedSupersets(seeds: set<Endpoint>, peers: Endpoint -> set<Endpoint>,
                                   visited: set<Endpoint>, frontier: set<Endpoint>)
    requires frontier <= visited
    requires forall s :: seeds <= s && Closed(s, peers) ==> visited <= s
    ensures forall s :: seeds <= s && Closed(s, peers) ==> Round(peers, visited, frontier).visited <= s
  {
    var next := Round(peers, visited, frontier);
    forall s | seeds <= s && Closed(s, peers) ensures next.visited <= s {
      forall e | e in next.visited ensures e in s {
        if e !in visited {
          var f :| f in frontier && e in peers(f);
          assert f in s;
        }
      }
    }
  }

  /** After a round, the peers of every queried endpoint, old or new, are visited. */
  lemma StepCoversQueried(peers: Endpoint -> set<Endpoint>, queried: set<Endpoint>,
                          visited: set<Endpoint>, frontier: set<Endpoint>)
    requires forall e :: e in queried ==> peers(e) - {""} <= visited
    ensures forall e :: e in queried + frontier ==> peers(e) - {""} <= Round(peers, visited, frontier).visited
  {
  }

  /** Appending a frontier disjoint from everything queried keeps the rounds pairwise disjoint. */
  lemma StepKeepsRoundsDisjoint(rounds: seq<set<Endpoint>>, frontier: set<Endpoint>)
    requires forall i, j :: 0 <= i < j < |rounds| ==> rounds[i] !! rounds[j]
    requires UnionAll(rounds) !! frontier
    ensures forall i, j :: 0 <= i < j < |rounds + [frontier]| ==> (rounds + [frontier])[i] !! (rounds + [frontier])[j]
  {
    var rounds' := rounds + [frontier];
    forall i, j | 0 <= i < j < |rounds'| ensures rounds'[i] !! rounds'[j] {
      if j == |rounds| {
        assert rounds'[i] == rounds[i];
        assert rounds[i] <= UnionAll(rounds);
      } else {
        assert rounds'[i] == rounds[i] && rounds'[j] == rounds[j];
      }
    }
  }

  /** Appending a non-empty frontier disjoint from everything queried adds at least one
      queried endpoint per round. */
  lemma StepCountsRounds(rounds: seq<set<Endpoint>>, frontier: set<Endpoint>)
    requires |rounds| <= |UnionAll(rounds)|
    requires UnionAll(rounds) !! frontier
    requires frontier != {}
    ensures |rounds + [frontier]| <= |UnionAll(rounds + [frontier])|
  {
    UnionAllAppend(rounds, frontier);
    assert |UnionAll(rounds) + frontier| == |UnionAll(rounds)| + |frontier|;
  }

  /** What holds of the visited set between rounds of the crawl from `seeds`: `queried`
      is everything already queried for peers, `frontier` the endpoints to query next. */
  ghost predicate VisitInvariant(seeds: set<Endpoint>, peers: Endpoint -> set<Endpoint>,
                                 visited: set<Endpoint>, frontier: set<Endpoint>, queried: set<Endpoint>)
  {
    && seeds <= visited
    && visited == queried + frontier
    && queried !! frontier
    && (forall e :: e in queried ==> peers(e) - {""} <= visited)
    && (forall s :: seeds <= s && Closed(s, peers) ==> visited <= s)
  }

  /** What holds of the queried frontiers between rounds. */
  ghost predicate RoundsInvariant(seeds: set<Endpoint>, frontier: set<Endpoint>, rounds: seq<set<Endpoint>>)
  {
    && (forall i :: 0 <= i < |rounds| ==> rounds[i] != {})
    && (forall i, j :: 0 <= i < j < |rounds| ==> rounds[i] !! rounds[j])
    && |rounds| <= |UnionAll(rounds)|
    && (|rounds| == 0 ==> frontier == seeds)
    && (|rounds| > 0 ==> rounds[0] == seeds)
  }

  /** One more round keeps the visited-set invariant. */
  lemma VisitStep(seeds: set<Endpoint>, peers: Endpoint -> set<Endpoint>,
                  visited: set<Endpoint>, frontier: set<Endpoint>, queried: set<Endpoint>)
    requires VisitInvariant(seeds, peers, visited, frontier, queried)
    ensures VisitInvariant(seeds, peers, Round(peers, visited, frontier).visited,
                           Round(peers, visited, frontier).frontier, queried + frontier)
  {
    var next := Round(peers, visited, frontier);
    StepStaysInClosedSupersets(seeds, peers, visited, frontier);
    StepCoversQueried(peers, queried, visited, frontier);
    assert next.visited == visited + next.frontier;
  }

  /** One more round keeps the invariant on the queried frontiers. */
  lemma RoundsStep(seeds: set<Endpoint>, frontier: set<Endpoint>, rounds: seq<set<Endpoint>>, next: set<Endpoint>)
    requires RoundsInvariant(seeds, frontier, rounds)
    requires UnionAll(rounds) !! frontier
    requires frontier != {}
    ensures RoundsInvariant(seeds, next, rounds + [frontier])
  {
    StepKeepsRoundsDisjoint(rounds, frontier);
    StepCountsRounds(rounds, frontier);
    var rounds' := rounds + [frontier];
    assert forall i :: 0 <= i < |rounds| ==> rounds'[i] == rounds[i];
    assert rounds'[|rounds|] == frontier;
  }

  /** `next` is the frontier the round after the queried frontiers `before` yields: the
      round that queries the last of them, with everything found so far visited. */
  ghost predicate Step(peers: Endpoint -> set<Endpoint>, before: seq<set<Endpoint>>, next: set<Endpoint>)
    requires |before| > 0
  {
    Round(peers, UnionAll(before), before[|before| - 1]).frontier == next
  }

  /** Each queried frontier after the first is what the round before it yielded, and
      `frontier` is what the last one yielded. */
  ghost predicate Traced(peers: Endpoint -> set<Endpoint>, rounds: seq<set<Endpoint>>, frontier: set<Endpoint>)
  {
    && (forall i :: 0 < i < |rounds| ==> Step(peers, rounds[..i], rounds[i]))
    && (|rounds| > 0 ==> Step(peers, rounds, frontier))
  }

  /** Querying one more frontier extends the trace of rounds by that frontier. */
  lemma TraceAppend(peers: Endpoint -> set<Endpoint>, rounds: seq<set<Endpoint>>,
                    frontier: set<Endpoint>, next: set<Endpoint>)
    requires Traced(peers, rounds, frontier)
    requires next == Round(peers, UnionAll(rounds + [frontier]), frontier).frontier
    ensures Traced(peers, rounds + [frontier], next)
  {
    var rounds' := rounds + [frontier];
    assert Step(peers, rounds', next);
    forall i | 0 < i < |rounds'| ensures Step(peers, rounds'[..i], rounds'[i]) {
      if i < |rounds| {
        assert rounds'[..i] == rounds[..i];
        assert rounds'[i] == rounds[i];
      } else {
        assert rounds'[..i] == rounds;
        assert rounds'[i] == frontier;
      }
    }
  }

  /** Everything the crawl loop keeps between rounds. */
  ghost predicate CrawlInvariant(seeds: set<Endpoint>, peers: Endpoint -> set<Endpoint>, universe: set<Endpoint>,
                                 visited: set<Endpoint>, frontier: set<Endpoint>, rounds: seq<set<Endpoint>>)
  {
    && visited <= universe
    && VisitInvariant(seeds, peers, visited, frontier, UnionAll(rounds))
    && RoundsInvariant(seeds, frontier, rounds)
    && Traced(peers, rounds, frontier)
  }

  /** One pass of the crawl loop keeps its invariant, and the next state is smaller:
      either fewer endpoints of the universe are left unvisited, or the frontier is
      empty and nothing changed. */
  lemma CrawlStep(seeds: set<Endpoint>, peers: Endpoint -> set<Endpoint>, universe: set<Endpoint>,
                  visited: set<Endpoint>, frontier: set<Endpoint>, rounds: seq<set<Endpoint>>)
    requires Closed(universe, peers)
    requires CrawlInvariant(seeds, peers, universe, visited, frontier, rounds)
    requires frontier != {}
    ensures CrawlInvariant(seeds, peers, universe, Round(peers, visited, frontier).visited,
                           Round(peers, visited, frontier).frontier, rounds + [frontier])
    ensures Round(peers, visited, frontier).frontier != {} ==>
      |universe - Round(peers, visited, frontier).visited| < |universe - visited|
    ensures Round(peers, visited, frontier).frontier == {} ==>
      Round(peers, visited, frontier).visited == visited
  {
    var next := Round(peers, visited, frontier);
    RoundProgress(peers, universe, visited, frontier);
    VisitStep(seeds, peers, visited, frontier, UnionAll(rounds));
    RoundsStep(seeds, frontier, rounds, next.frontier);
    UnionAllAppend(rounds, frontier);
    TraceAppend(peers, rounds, frontier, next.frontier);
  }

  /** Runs the peer discovery from `seeds`. `visited` is the final `rpc_provider_lst`;
      `rounds` lists, in order, the non-empty frontiers queried for peers. `universe` is
      any finite set holding the seeds and closed under the peer answers: the real peer
      graph is finite, and without such a bound the source does not terminate. */
  method Crawl(seeds: set<Endpoint>, peers: Endpoint -> set<Endpoint>, ghost universe: set<Endpoint>)
    returns (visited: set<Endpoint>, rounds: seq<set<Endpoint>>)
    requires seeds <= universe
    requires Closed(universe, peers)
    ensures seeds <= visited <= universe
    ensures Closed(visited, peers)
    ensures forall s :: seeds <= s && Closed(s, peers) ==> visited <= s
    ensures UnionAll(rounds) == visited
    ensures forall i :: 0 <= i < |rounds| ==> rounds[i] != {}
    ensures forall i, j :: 0 <= i < j < |rounds| ==> rounds[i] !! rounds[j]
    ensures |rounds| <= |visited|
    ensures seeds != {} ==> |rounds| > 0 && rounds[0] == seeds
    ensures forall i :: 0 < i < |rounds| ==> Step(peers, rounds[..i], rounds[i])
    ensures |rounds| > 0 ==> Step(peers, rounds, {})
  {
    visited := seeds;
    var frontier := seeds;
    rounds := [];
    while frontier != {}
      invariant CrawlInvariant(seeds, peers, universe, visited, frontier, rounds)
      decreases |universe - visited|, |frontier|
    {
      CrawlStep(seeds, peers, universe, visited, frontier, rounds);
      var next := Round(peers, visited, frontier);
      rounds := rounds + [frontier];
      visited, frontier := next.visited, next.frontier;
    }
  }
}

/** The script's top level (rpc-finder.py:130-166): discover the peers from the seeds,
    classify every endpoint found, and report the vulnerable validators. */
module Scan {
  import opened Wrappers
  import opened Text
  import opened Probe
  import opened Peers
  import opened Discovery
  import opened Status
  import opened Report

  /** Lines 150-151: the set of rows `get_vuln_validators` returns over `nodes`, less the
      sentinel. `clock(e)` is the scan time `datetime.now()` gives while `e` is classified. */
  function ClassifyAll(nodes: set<Endpoint>, net: Network, decode: StatusDecoder, clock: Endpoint -> string): (valid: set<string>)
    ensures NotAvailable !in valid
  {
    (set e | e in nodes :: Classify(e, net(e + StatusPath), decode, clock(e))) - {NotAvailable}
  }

  /** Every endpoint that classifies as available has its row among the classified rows. */
  lemma AvailableEndpointsReported(nodes: set<Endpoint>, net: Network, decode: StatusDecoder, clock: Endpoint -> string, e: Endpoint)
    requires e in nodes && Inspect(e, net(e + StatusPath), decode, clock(e)).Some?
    ensures FormatRow(Inspect(e, net(e + StatusPath), decode, clock(e)).value) in ClassifyAll(nodes, net, decode, clock)
  {
    var row := Classify(e, net(e + StatusPath), decode, clock(e));
    assert row in (set x | x in nodes :: Classify(x, net(x + StatusPath), decode, clock(x)));
  }

  /** Every classified row is one an available endpoint produced, so the report can
      always read its voting power back. */
  lemma ClassifiedRowsParse(nodes: set<Endpoint>, net: Network, decode: StatusDecoder, clock: Endpoint -> string, row: string)
    requires row in ClassifyAll(nodes, net, decode, clock)
    ensures exists e :: e in nodes && Inspect(e, net(e + StatusPath), decode, clock(e)).Some?
                        && row == FormatRow(Inspect(e, net(e + StatusPath), decode, clock(e)).value)
    ensures VotingPowerOf(row).Some?
  {
    var e :| e in nodes && row == Classify(e, net(e + StatusPath), decode, clock(e));
  }

  /** Lists a set in some order, each member once: the order `for node in valid_rpc` visits. */
  method Enumerate(s: set<string>) returns (rows: seq<string>)
    ensures multiset(rows) == multiset(s)
  {
    rows := [];
    var rest := s;
    while rest != {}
      invariant rest <= s
      invariant multiset(rows) + multiset(rest) == multiset(s)
      decreases |rest|
    {
      var row :| row in rest;
      rows := rows + [row];
      rest := rest - {row};
    }
  }

  /** The whole scan. `nodes` is the final `rpc_provider_lst`, `valid` is `valid_rpc`,
      `rows` the order the report walks it in, `vulnerable` and `stake` the report. */
  method Run(seeds: set<Endpoint>, net: Network, decodeNetInfo: NetInfoDecoder,
              decodeStatus: StatusDecoder, clock: Endpoint -> string, ghost universe: set<Endpoint>)
    returns (nodes: set<Endpoint>, valid: set<string>, rows: seq<string>,
             vulnerable: seq<seq<string>>, stake: int)
    requires seeds <= universe
    requires Closed(universe, PeerOracle(net, decodeNetInfo))
    ensures seeds <= nodes <= universe
    ensures Closed(nodes, PeerOracle(net, decodeNetInfo))
    ensures forall s :: seeds <= s && Closed(s, PeerOracle(net, decodeNetInfo)) ==> nodes <= s
    ensures valid == ClassifyAll(nodes, net, decodeStatus, clock)
    ensures multiset(rows) == multiset(valid)
    ensures SplitsOf(vulnerable, Vulnerable(rows))
    ensures forall i :: 0 <= i < |vulnerable| ==>
      Join(vulnerable[i], ',') in valid && IsVulnerable(Join(vulnerable[i], ','))
    ensures stake == Stake(rows)
    ensures forall order :: multiset(order) == multiset(valid) ==> Stake(order) == stake
    ensures stake > 0 <==> |vulnerable| > 0
  {
    var rounds;
    nodes, rounds := Crawl(seeds, PeerOracle(net, decodeNetInfo), universe);
    valid := ClassifyAll(nodes, net, decodeStatus, clock);
    rows := Enumerate(valid);
    ValidRowsParse(nodes, net, decodeStatus, clock, rows);
    vulnerable, stake := BuildReport(rows);
    ListedRowsAreValid(rows, valid, vulnerable);
    StakeOfAnyOrder(rows, valid);
  }

  /** Every row of an enumeration of the classified rows has a readable voting power. */
  lemma ValidRowsParse(nodes: set<Endpoint>, net: Network, decode: StatusDecoder, clock: Endpoint -> string, rows: seq<string>)
    requires multiset(rows) == multiset(ClassifyAll(nodes, net, decode, clock))
    ensures forall i :: 0 <= i < |rows| ==> VotingPowerOf(rows[i]).Some?
  {
    forall i | 0 <= i < |rows| ensures VotingPowerOf(rows[i]).Some? {
      assert rows[i] in multiset(rows);
      ClassifiedRowsParse(nodes, net, decode, clock, rows[i]);
    }
  }

  /** Every listed line is a classified row with strictly positive voting power. */
  lemma ListedRowsAreValid(rows: seq<string>, valid: set<string>, vulnerable: seq<seq<string>>)
    requires multiset(rows) == multiset(valid)
    requires SplitsOf(vulnerable, Vulnerable(rows))
    ensures forall i :: 0 <= i < |vulnerable| ==>
      Join(vulnerable[i], ',') in valid && IsVulnerable(Join(vulnerable[i], ','))
  {
    forall i | 0 <= i < |vulnerable|
      ensures Join(vulnerable[i], ',') in valid && IsVulnerable(Join(vulnerable[i], ','))
    {
      var row := Vulnerable(rows)[i];
      JoinSplit(row, ',');
      VulnerableMembers(rows);
      assert row in Vulnerable(rows);
      assert row in multiset(rows);
    }
  }

  /** Any other order of walking the classified rows gives the same stake. */
  lemma StakeOfAnyOrder(rows: seq<string>, valid: set<string>)
    requires multiset(rows) == multiset(valid)
    ensures forall order :: multiset(order) == multiset(valid) ==> Stake(order) == Stake(rows)
  {
    forall order | multiset(order) == multiset(valid) ensures Stake(order) == Stake(rows) {
      StakeIgnoresOrder(order, rows);
    }
  }
}

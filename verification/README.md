# rpc-finder, modelled in Dafny

A model of the scanner in `rpc-finder.py`. The scanner crawls a Cosmos/Tendermint
network from a set of seed RPC endpoints. It asks each endpoint's `/net_info` for peers
until no new endpoints appear. Then it asks every endpoint found for its `/status`,
keeps the nodes of chain `odyssey-0`, and reports the validators whose voting power is
visible through that unauthenticated endpoint, together with their total ("affected")
stake.

The pipeline has four parts, one module each, on top of small helper modules:

- `Peers` (peers.dfy): `get_peers_via_rpc`. Turns a `/net_info` answer into
  `http://{remote_ip}:{port}` endpoints.
- `Discovery` (crawl.dfy): the crawl loop. `Round` is one round of
  `pool.map` plus the set updates. `Crawl` is the `while` loop, with its invariants
  and the variant `|universe - visited|, |frontier|`.
- `Status` (status.dfy): `get_vuln_validators`. Classifies one endpoint and
  formats the 11-field CSV row.
- `Report` (report.dfy): the report. Drops the sentinel, keeps rows whose voting
  power is strictly positive, and sums them.
- `Scan` (scan.dfy) runs the whole pipeline. `Text` (text.dfy) holds Python's
  `in`, `split`, `join`, `str(int)` and `int(str)`. `Probe` (probe.dfy) holds the three
  outcomes of `request_get`. `Wrappers` (wrappers.dfy) holds `Option`.

Boundaries:

- The network is a parameter `net: string -> ProbeResult`. A probe gives a body, the
  `None` of a non-200 status, or the sentinel string `"request_get error"`.
- `json.loads` is a decoder parameter. It returns a record datatype whose fields are
  `Option`s, `None` where the key is absent.
- The clock is a parameter `clock: Endpoint -> string`.
- `pool.map` is a set comprehension. The pool's barrier makes the order of answers
  irrelevant: only their union is used.

Behaviours of the code worth noting:

- The default port `26657` is used only when the third piece of `rpc_address` is
  empty. An address with fewer than three pieces is skipped.
- The target network is the constant `odyssey-0`.
- `rounds` counts the non-empty frontiers queried. When the seed set is empty, the
  source still makes one `pool.map` call over it. That call does nothing
  (`EmptyRoundIsNoOp`).

## Model

| member | source | states |
|---|---|---|
| `Probe.ProbeText` | rpc-finder.py:58 | `str(peers)`: a body's text, `"None"` for a non-200 answer, and the sentinel text when the request raised. `SentinelContainsError` and `Peers.FailedProbeYieldsNothing` state what the `"error"` test makes of it. |
| `Probe.SentinelContainsError` | rpc-finder.py:33-34 | The failure sentinel `"request_get error"` contains the substring `"error"`. |
| `Peers.RpcPort` | rpc-finder.py:64 | A port exists exactly when `rpc_address.split(":")` has at least three pieces. When it exists it is non-empty and holds no colon. |
| `Peers.RpcPortOfPieces` | rpc-finder.py:64 | For any address `a:b:c` followed by nothing or by more colon-led text, with `a`, `b` and `c` colon-free, the port is `c`, or `26657` when `c` is empty. So `tcp://host:port` gives `port`, and `tcp://[::1]:26657` gives the default, since its third piece is empty. |
| `Peers.PeerEndpoint` | rpc-finder.py:63-69 | A peer entry yields an endpoint exactly when it has `remote_ip` and `node_info.other.rpc_address` and the address splits into at least three pieces. The endpoint is `http://{remote_ip}:{port}`. |
| `Peers.PeersOf` | rpc-finder.py:62-70 | An endpoint is extracted exactly when some entry of the list yields it. A skipped entry does not lose the others. |
| `Peers.PeerOracle` | rpc-finder.py:57 | The crawl's view of `get_peers_via_rpc`: it probes `{endpoint}/net_info`. An endpoint whose probe raises or gets a non-200 answer names no peers. |
| `Peers.ExtractPeers` | rpc-finder.py:54-73 | A body containing `"error"` yields nothing. So does a `None` probe, an undecodable body, or a body without `result.peers`. Otherwise the result is the endpoints of the peer list. |
| `Peers.FailedProbeYieldsNothing` | rpc-finder.py:57-59 | A probe that raised contributes no peers, whatever the decoder does. |
| `Peers.ExtractedEndpointsAreUrls` | rpc-finder.py:66 | Every extracted endpoint starts with `http://`. So the crawl's `discard('')` never removes a real endpoint. |
| `Peers.MissingRemoteIpIsSkipped` | rpc-finder.py:62-69 | One well-formed entry plus one entry without `remote_ip` give exactly one endpoint. |
| `Discovery.Discovered` | rpc-finder.py:141-142 | The flattened answers of a round contain every frontier member's peers. They contain nothing that no frontier member named. |
| `Discovery.Round` | rpc-finder.py:141-146 | `visited` never shrinks. The new frontier is exactly the newly visited endpoints, so it is disjoint from the old visited set. Every queried endpoint's non-empty peers end up visited. |
| `Discovery.EmptyRoundIsNoOp` | rpc-finder.py:133-140 | A round over an empty frontier changes nothing. So the unconditional first round followed by the `while` loop is one loop that starts from `frontier = seeds`. |
| `Discovery.RoundProgress` | rpc-finder.py:140-146 | Inside a universe closed under the peer answers, a round stays in the universe. If it yields a non-empty frontier, `|universe - visited|` strictly decreases. |
| `Discovery.TwoNodeScenario` | rpc-finder.py:133-146 | Take a seed whose only peer names no peers. The first round visits both and queries the peer next. The second round finds nothing new, so the crawl stops after two rounds. |
| `Discovery.UnionAllFromRounds` | rpc-finder.py:141 | Every endpoint in the union of the queried frontiers was queried in some round. |
| `Discovery.Crawl` | rpc-finder.py:130-146 | The loop terminates. At exit, visited contains the seeds and lies within the universe. It is closed under the peer answers and lies within every closed superset of the seeds, so it is exactly the set reachable from the seeds. `rounds` is the trace of the frontiers the loop queried: each one after the first is the `Round` frontier of the one before it, with everything found so far visited, and the last one yields nothing new. The first is the seed set. The frontiers are non-empty and pairwise disjoint, and their union is the visited set, so each endpoint is queried for peers exactly once. There are at most `|visited|` of them. |
| `Status.RecordOf` | rpc-finder.py:80-103 | The lookups on a decoded answer give a record exactly when the answer describes one: both markers pass, the network is `odyssey-0`, every field is present, and height and voting power parse. Any record that the answer describes is the one returned. |
| `Status.Inspect` | rpc-finder.py:76-107 | A record is produced exactly when the probe is a body that decodes to a document describing it. The document must pass both markers and report network `odyssey-0`. Every field must be present, and height and voting power must parse as integers. The record's fields are the reported values. |
| `Status.Classify` | rpc-finder.py:75-107 | The result is `'rpc_not_available'` exactly when no record is produced. Otherwise it is the record's row. |
| `Status.OtherNetworkIsNotAvailable` | rpc-finder.py:84-85 | A decoded answer whose network is not `odyssey-0` classifies as not available, however complete it is. |
| `Status.FailuresAreNotAvailable` | rpc-finder.py:76-107 | Each of the following classifies as not available: a probe that is not a body, an undecodable body, the `error` marker, a missing `jsonrpc` marker, a foreign or missing network, any missing field, a height that is not an integer, a voting power that is not an integer. |
| `Status.CompleteAnswerGivesRow` | rpc-finder.py:88-103 | An answer passing every check yields the row of the reported moniker, address, version, catching-up flag, parsed height and parsed voting power, stamped with the endpoint and scan time. |
| `Status.PyBool` | rpc-finder.py:92 | Python's `str()` of the `catching_up` boolean: `"True"` or `"False"`, capitalised as Python prints them. `RowFields` puts it in the `Syncing?` column. It holds no comma, so it never shifts the fields `split(",")` returns. |
| `Status.RowFields` | rpc-finder.py:98-103 | A row has exactly eleven fields, one per column of `CSV_HEADER_STR` (line 119). `RowRoundTrip` and `RowLeadingFields` show that these are the fields `split(",")` gives back. |
| `Status.FormatRow` | rpc-finder.py:98-103 | A row never equals `'rpc_not_available'`, so the `discard` at line 151 never drops one. `int(row.split(",")[-1])` at line 161 reads back exactly the record's voting power, whatever commas the other fields contain. |
| `Status.VotingPowerOf` | rpc-finder.py:161 | `int(node.split(",")[-1])`. `FormatRow` shows it reads back exactly the voting power of any row, and `Scan.ClassifiedRowsParse` that it never fails on a classified row. |
| `Status.RowStartsWithEndpoint` | rpc-finder.py:98-103 | A row starts with its endpoint. |
| `Status.RowLeadingFields` | rpc-finder.py:98-103 | When the endpoint has no comma, fields 2, 4 and 5 of a row are `N/A`, `N/A` and `False`, and field 3 reads back as the block height. |
| `Status.RowRoundTrip` | rpc-finder.py:164 | When no text field has a comma, `row.split(",")` gives back exactly the eleven fields, in column order. |
| `Text.Split` | rpc-finder.py:64 | `s.split(sep)` is never an empty list, and no piece contains the separator. Its inverse is `Join` (`JoinSplit`, `SplitJoin`). |
| `Text.SplitJoin` | rpc-finder.py:164 | Splitting a join of separator-free parts gives back exactly those parts. |
| `Text.Join` | rpc-finder.py:169 | `sep.join(parts)`. `JoinSplit` and `SplitJoin` make it the inverse of `Split`. |
| `Text.LastPiece` | rpc-finder.py:161 | `s.split(sep)[-1]` holds no separator. |
| `Text.LastPieceIsSuffix` | rpc-finder.py:161 | `s.split(sep)[-1]` is the text after the last separator. It is a suffix of `s` that is either all of `s` or directly preceded by a separator. |
| `Text.ParseInt` | rpc-finder.py:91-93 | Python's `int()` on a string. `ParsedShape` shows it accepts exactly the integer literals (`IntLiteral`), and `ParseShowInt` shows it inverts `ShowInt`. |
| `Text.ParsedShape` | rpc-finder.py:91-93 | `int()` succeeds exactly on an optional sign followed by at least one ASCII decimal digit, read character by character. A negative result comes only after a minus sign. |
| `Text.Contains` | rpc-finder.py:58 | Python's `sub in s`: `sub` occurs at some index of `s`. `SentinelContainsError` uses it to show that the failure sentinel is rejected. |
| `Text.ShowInt` | rpc-finder.py:103 | `str(n)` is made of a minus sign and decimal digits only, so a formatted integer never adds a comma to a row. |
| `Text.ParseShowInt` | rpc-finder.py:161 | `int(str(n)) == n` for every integer `n`. |
| `Text.JoinSplit` | rpc-finder.py:169 | `",".join(row.split(","))` gives back `row`, so each CSV line of the vulnerable list is the classified row. |
| `Report.IsVulnerable` | rpc-finder.py:163 | `voting_power_ > 0` on a row whose power parses. `VulnerableMembers` shows it is exactly what decides whether a row is listed. |
| `Report.Vulnerable` | rpc-finder.py:160-164 | The list of vulnerable rows, in visiting order, is never longer than the rows. `VulnerableMembers` gives its membership. |
| `Report.Stake` | rpc-finder.py:157-165 | `affected_stake`: the total voting power of the listed rows. `StakeIsSumOfShares` shows that the row-by-row accumulation of the loop computes it. |
| `Report.SumShares` | rpc-finder.py:160-165 | The loop's `affected_stake += voting_power_`: each row's share, added in the order the rows are visited. `StakeIsSumOfShares` shows it equals `Stake`. |
| `Report.StakeIsSumOfShares` | rpc-finder.py:160-165 | Adding each row's share as the loop visits it gives the total power of the listed rows. |
| `Report.VulnerableMembers` | rpc-finder.py:160-164 | A row is listed exactly when it is among the rows and its voting power is strictly positive. Zero and negative powers are excluded. |
| `Report.StakePositiveIffListed` | rpc-finder.py:163-167 | The affected stake is never negative. It is positive exactly when some row is listed. |
| `Report.StakeIgnoresOrder` | rpc-finder.py:160-165 | Any two orders of walking the same rows give the same affected stake. |
| `Report.BuildReport` | rpc-finder.py:157-166 | The loop lists the split fields of exactly the vulnerable rows, in order. Joining each listed entry gives back its row. The stake is the total power of the listed rows, and it is positive exactly when the list is non-empty. |
| `Report.ReportOfMixedPowers` | rpc-finder.py:160-165 | For rows with voting powers 0, 5, -1 and 100, only the 5 and 100 rows are listed, and the affected stake is 105. |
| `Scan.ClassifyAll` | rpc-finder.py:150-151 | The classified set never contains the sentinel. |
| `Scan.AvailableEndpointsReported` | rpc-finder.py:150-151 | Every endpoint that classifies as available has its row in the classified set. |
| `Scan.ClassifiedRowsParse` | rpc-finder.py:150-161 | Every classified row came from an available endpoint, so its last field always parses. The report's `int(...)` never raises. |
| `Scan.Enumerate` | rpc-finder.py:160 | Walking the set visits each classified row exactly once. |
| `Scan.Run` | rpc-finder.py:130-166 | The whole scan. The visited nodes are the least closed superset of the seeds. The classified rows are the rows of those nodes. The listed rows are classified and vulnerable. The stake is the same for every order of walking the set, and it is positive exactly when something is listed. |

## Left out

- HTTP (`requests.get`, headers, timeouts, status codes): a probe is one of its
  three outcomes, given by the `net` parameter.
- The thread pool: `pool.map` is a set comprehension. Thanks to the round barrier,
  the order in which answers arrive does not matter.
- `json.loads` and the repr of the decoded dictionary: replaced by decoder
  parameters. The two `/status` marker tests on `str(node_data)` are boolean fields
  of the decoded record. The model does not tie those booleans to the text of the
  other fields, although in the source a moniker containing `error` trips the first
  test.
- Configuration and seed loading: the YAML config, the seed file,
  `get_genesis_ips`, `filter_private_ip` and `write_to_file`. The seed set is a
  parameter.
- Output: CSV writing, `tabulate` and `print`.
- `datetime.now()`: the scan time is the `clock` parameter.
- The network is deterministic, a function of the URL. This loses nothing, because
  each endpoint is queried for peers exactly once.
- Crawl: termination is proved only when a finite universe contains the seeds and is
  closed under the peer answers. With no such bound the source's loop does not stop
  either.
- ParseInt: does not accept the forms Python's `int()` also accepts: surrounding
  whitespace, `_` digit separators and non-ASCII digits. It also does not model the
  4300-digit cap that CPython (3.11 and later, and security releases of 3.7-3.10)
  puts on `int()` of a decimal string. Above the cap the source raises, and so answers
  `'rpc_not_available'` for such a height or voting power, where the model produces a
  row. The cap is an interpreter setting, not part of the scanner, and integer
  round-trips are stated without it.
- Inspect: height and voting power are modelled only as JSON strings. `int()` would
  also accept JSON numbers and booleans. `catching_up` is modelled only as a JSON
  boolean, and the other text fields only as JSON strings.
- Peers: a `peers` value that is not a list, and an `rpc_address` that is not a
  string, are folded into the decoder as absent values. A `remote_ip` that is present
  but not a string is formatted with `str()` by the source (a JSON null gives
  `http://None:{port}`). The decoder is taken to supply that text, so the model
  does not separate these cases.
- BuildReport: a row whose last field is not an integer makes the source raise. The
  method requires every row to parse. `Scan.ClassifiedRowsParse` proves that every
  classified row does.

/** `get_peers_via_rpc` (rpc-finder.py:54-73): the endpoints a node's `/net_info`
    answer names as its peers. */
module Peers {
  import opened Wrappers
  import opened Text
  import opened Probe

  /** A node's RPC base URL, `http://{ip}:{port}`; identity is the exact string. */
  type Endpoint = string

  const NetInfoPath: string := "/net_info"
  const DefaultRpcPort: string := "26657"

  /** The decoded `/net_info` JSON: each field is `None` where the key is absent. The
      decoder also gives `None` for an `rpc_address` that is not a string, since
      `.split` raises on it. For a `remote_ip` that is present, it gives Python's `str()`
      of the value, since the f-string formats it: a JSON null arrives as `"None"`. */
  datatype PeerOther = PeerOther(rpcAddress: Option<string>)
  datatype PeerNodeInfo = PeerNodeInfo(other: Option<PeerOther>)
  datatype PeerJson = PeerJson(nodeInfo: Option<PeerNodeInfo>, remoteIp: Option<string>)
  datatype NetInfoResult = NetInfoResult(peers: Option<seq<PeerJson>>)
  datatype NetInfoJson = NetInfoJson(result: Option<NetInfoResult>)

  /** The decoder `json.loads` stands for: `None` where it raises. */
  type NetInfoDecoder = string -> Option<NetInfoJson>

  /** `p["node_info"]["other"]["rpc_address"]`, `None` where a key is missing. */
  function RpcAddress(p: PeerJson): Option<string>
  {
    match p.nodeInfo
    case None => None
    case Some(info) =>
      match info.other
      case None => None
      case Some(other) => other.rpcAddress
  }

  /** `rpc_address.split(":")[2] or 26657`; `None` where the index raises. */
  function RpcPort(address: string): (port: Option<string>)
    ensures port.Some? <==> |Split(address, ':')| >= 3
    ensures port.Some? ==> port.value != "" && ':' !in port.value
  {
    var pieces := Split(address, ':');
    if |pieces| < 3 then None
    else if pieces[2] == "" then Some(DefaultRpcPort)
    else Some(pieces[2])
  }

  /** The endpoint one peer entry contributes; `None` for an entry the inner
      `except` skips. */
  function PeerEndpoint(p: PeerJson): (e: Option<Endpoint>)
    ensures e.Some? <==>
      p.remoteIp.Some? && RpcAddress(p).Some? && |Split(RpcAddress(p).value, ':')| >= 3
    ensures e.Some? ==>
      e.value == "http://" + p.remoteIp.value + ":" + RpcPort(RpcAddress(p).value).value
  {
    match RpcAddress(p)
    case None => None
    case Some(address) =>
      match RpcPort(address)
      case None => None
      case Some(port) =>
        match p.remoteIp
        case None => None
        case Some(ip) => Some("http://" + ip + ":" + port)
  }

  /** The `for p in peers` loop: every entry that yields an endpoint adds it, and a
      skipped entry leaves the others alone. */
  function PeersOf(entries: seq<PeerJson>): (found: set<Endpoint>)
    ensures forall e :: e in found <==>
      exists i :: 0 <= i < |entries| && PeerEndpoint(entries[i]) == Some(e)
  {
    if |entries| == 0 then {}
    else
      var earlier := entries[..|entries| - 1];
      var last := PeerEndpoint(entries[|entries| - 1]);
      assert forall i :: 0 <= i < |earlier| ==> earlier[i] == entries[i];
      PeersOf(earlier) + (if last.Some? then {last.value} else {})
  }

  /** The peer list of a decoded answer, `json.loads(peers)["result"]["peers"]`. */
  function EntriesOf(doc: NetInfoJson): Option<seq<PeerJson>>
  {
    match doc.result
    case None => None
    case Some(result) => result.peers
  }

  /** `get_peers_via_rpc` on the outcome of probing `{endpoint}/net_info`. The source
      returns `''` on every failure; iterating `''` adds nothing, so failures are `{}`. */
  function ExtractPeers(probe: ProbeResult, decode: NetInfoDecoder): (found: set<Endpoint>)
    ensures Contains(ProbeText(probe), "error") ==> found == {}
    ensures probe.NoBody? ==> found == {}
    ensures probe.Body? && !Contains(probe.text, "error") && decode(probe.text).Some?
            && EntriesOf(decode(probe.text).value).Some?
            ==> found == PeersOf(EntriesOf(decode(probe.text).value).value)
    ensures probe.Body? && (decode(probe.text).None? || EntriesOf(decode(probe.text).value).None?)
            ==> found == {}
  {
    if Contains(ProbeText(probe), "error") then {}
    else
      match probe {
        case Body(text) =>
          match decode(text) {
            case None => {}
            case Some(doc) =>
              match EntriesOf(doc) {
                case None => {}
                case Some(entries) => PeersOf(entries)
              }
          }
        case _ => {}
      }
  }

  /** The peer oracle of a network: what `get_peers_via_rpc(e)` returns for each `e`. */
  function PeerOracle(net: Network, decode: NetInfoDecoder): (oracle: Endpoint -> set<Endpoint>)
    ensures forall e :: !net(e + NetInfoPath).Body? ==> oracle(e) == {}
  {
    FailedProbeYieldsNothing(decode);
    e => ExtractPeers(net(e + NetInfoPath), decode)
  }

  /** A probe that raised contributes no peers, whatever the decoder would do. */
  lemma FailedProbeYieldsNothing(decode: NetInfoDecoder)
    ensures ExtractPeers(Sentinel, decode) == {}
  {
    SentinelContainsError();
  }

  /** Every extracted endpoint has the `http://{ip}:{port}` shape, so none is `''`
      and the crawl's `discard('')` never removes a real endpoint. */
  lemma ExtractedEndpointsAreUrls(probe: ProbeResult, decode: NetInfoDecoder, e: Endpoint)
    requires e in ExtractPeers(probe, decode)
    ensures |e| > 7 && e[..7] == "http://"
  {
    assert probe.Body?;
    var doc := decode(probe.text);
    assert doc.Some? && EntriesOf(doc.value).Some?;
    var entries := EntriesOf(doc.value).value;
    assert e in PeersOf(entries);
    var i :| 0 <= i < |entries| && PeerEndpoint(entries[i]) == Some(e);
  }

  /** Whatever follows the third colon-free piece, the port is that piece, and the
      default port when it is empty: `tcp://host:port` gives `port`, and an address
      with more colons, such as `tcp://[::1]:26657`, gives its (possibly empty) third
      piece. */
  lemma {:induction false} RpcPortOfPieces(a: string, b: string, c: string, tail: string)
    requires ':' !in a && ':' !in b && ':' !in c
    requires tail == [] || tail[0] == ':'
    ensures RpcPort(a + ":" + b + ":" + c + tail) == Some(if c == "" then DefaultRpcPort else c)
  {
    var address := a + ":" + b + ":" + c + tail;
    assert address == a + [':'] + (b + [':'] + (c + tail));
    SplitConcat(a, b + [':'] + (c + tail), ':');
    SplitConcat(b, c + tail, ':');
    SplitWithoutSeparator(a, ':');
    SplitWithoutSeparator(b, ':');
    if tail == [] {
      assert c + tail == c;
      SplitWithoutSeparator(c, ':');
    } else {
      assert c + tail == c + [':'] + tail[1..];
      SplitConcat(c, tail[1..], ':');
      SplitWithoutSeparator(c, ':');
    }
    assert Split(address, ':')[2] == c;
  }

  /** One well-formed entry and one entry missing `remote_ip` give exactly one endpoint. */
  lemma MissingRemoteIpIsSkipped(ip: string, host: string, port: string, info: PeerNodeInfo)
    requires ':' !in host && ':' !in port && port != ""
    requires info == PeerNodeInfo(Some(PeerOther(Some("tcp://" + host + ":" + port))))
    ensures PeersOf([PeerJson(Some(info), Some(ip)), PeerJson(Some(info), None)])
            == {"http://" + ip + ":" + port}
  {
    assert "tcp://" + host + ":" + port == "tcp" + ":" + ("//" + host) + ":" + port + [];
    RpcPortOfPieces("tcp", "//" + host, port, []);
    var good := PeerJson(Some(info), Some(ip));
    var bad := PeerJson(Some(info), None);
    var e0 := "http://" + ip + ":" + port;
    assert PeerEndpoint(good) == Some(e0);
    assert PeerEndpoint(bad) == None;
    var found := PeersOf([good, bad]);
    assert e0 in found by {
      assert [good, bad][0] == good;
    }
    forall e | e in found ensures e == e0 {
      var i :| 0 <= i < 2 && PeerEndpoint([good, bad][i]) == Some(e);
    }
  }
}

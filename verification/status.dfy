/** `get_vuln_validators` (rpc-finder.py:75-107): classify one endpoint from its
    `/status` answer, and the CSV row it produces. */
module Status {
  import opened Wrappers
  import opened Text
  import opened Probe

  const StatusPath: string := "/status"
  /** The only chain the scanner reports on. */
  const TargetNetwork: string := "odyssey-0"
  /** What classification returns for every endpoint it cannot report. */
  const NotAvailable: string := "rpc_not_available"

  /** The decoded `/status` JSON: each field is `None` where the key is absent. */
  datatype NodeInfoJson = NodeInfoJson(network: Option<string>, moniker: Option<string>, version: Option<string>)
  datatype ValidatorInfoJson = ValidatorInfoJson(address: Option<string>, votingPower: Option<string>)
  datatype SyncInfoJson = SyncInfoJson(latestBlockHeight: Option<string>, catchingUp: Option<bool>)
  datatype StatusResultJson = StatusResultJson(
    nodeInfo: Option<NodeInfoJson>,
    validatorInfo: Option<ValidatorInfoJson>,
    syncInfo: Option<SyncInfoJson>)
  /** The two flags are the substring tests `'error' in str(node_data)` and
      `'jsonrpc' in str(node_data)` on the repr of the decoded dictionary. */
  datatype StatusJson = StatusJson(reprHasError: bool, reprHasJsonrpc: bool, result: Option<StatusResultJson>)

  /** The decoder `json.loads` stands for: `None` where it raises. */
  type StatusDecoder = string -> Option<StatusJson>

  /** The information one available validator endpoint reports. */
  datatype ValidatorRecord = ValidatorRecord(
    endpoint: string,
    blockHeight: int,
    moniker: string,
    validator: string,
    version: string,
    scanTime: string,
    catchingUp: bool,
    votingPower: int)

  // The lookups of lines 84-94, each `None` where a key on its path is absent.

  function NodeInfoOf(doc: StatusJson): Option<NodeInfoJson>
  {
    if doc.result.Some? then doc.result.value.nodeInfo else None
  }

  function ValidatorInfoOf(doc: StatusJson): Option<ValidatorInfoJson>
  {
    if doc.result.Some? then doc.result.value.validatorInfo else None
  }

  function SyncInfoOf(doc: StatusJson): Option<SyncInfoJson>
  {
    if doc.result.Some? then doc.result.value.syncInfo else None
  }

  function NetworkOf(doc: StatusJson): Option<string>
  {
    if NodeInfoOf(doc).Some? then NodeInfoOf(doc).value.network else None
  }

  function MonikerOf(doc: StatusJson): Option<string>
  {
    if NodeInfoOf(doc).Some? then NodeInfoOf(doc).value.moniker else None
  }

  function VersionOf(doc: StatusJson): Option<string>
  {
    if NodeInfoOf(doc).Some? then NodeInfoOf(doc).value.version else None
  }

  function AddressOf(doc: StatusJson): Option<string>
  {
    if ValidatorInfoOf(doc).Some? then ValidatorInfoOf(doc).value.address else None
  }

  function VotingPowerTextOf(doc: StatusJson): Option<string>
  {
    if ValidatorInfoOf(doc).Some? then ValidatorInfoOf(doc).value.votingPower else None
  }

  function HeightTextOf(doc: StatusJson): Option<string>
  {
    if SyncInfoOf(doc).Some? then SyncInfoOf(doc).value.latestBlockHeight else None
  }

  function CatchingUpOf(doc: StatusJson): Option<bool>
  {
    if SyncInfoOf(doc).Some? then SyncInfoOf(doc).value.catchingUp else None
  }

  /** `rec` is what endpoint `endpoint` reports in `doc`, scanned at `scanTime`: the
      markers pass, the network is the target, every field is present and both
      integers parse. */
  ghost predicate Describes(doc: StatusJson, endpoint: string, scanTime: string, rec: ValidatorRecord)
  {
    && !doc.reprHasError
    && doc.reprHasJsonrpc
    && NetworkOf(doc) == Some(TargetNetwork)
    && MonikerOf(doc) == Some(rec.moniker)
    && AddressOf(doc) == Some(rec.validator)
    && VersionOf(doc) == Some(rec.version)
    && CatchingUpOf(doc) == Some(rec.catchingUp)
    && HeightTextOf(doc).Some? && ParseInt(HeightTextOf(doc).value) == Some(rec.blockHeight)
    && VotingPowerTextOf(doc).Some? && ParseInt(VotingPowerTextOf(doc).value) == Some(rec.votingPower)
    && rec.endpoint == endpoint
    && rec.scanTime == scanTime
  }

  /** The lookups of lines 81-94 on a decoded answer; `None` wherever the source returns
      `'rpc_not_available'`. The checks are grouped differently from the source's order
      (which reads `version` last and parses the height before it looks up the voting
      power), but every failure gives the same answer, so the result is the same. */
  function RecordOf(endpoint: string, doc: StatusJson, scanTime: string): (r: Option<ValidatorRecord>)
    ensures r.Some? ==> Describes(doc, endpoint, scanTime, r.value)
    ensures forall rec :: Describes(doc, endpoint, scanTime, rec) ==> r == Some(rec)
  {
    if doc.reprHasError || !doc.reprHasJsonrpc then None
    else
      match doc.result {
        case None => None
        case Some(result) =>
          match result.nodeInfo {
            case None => None
            case Some(nodeInfo) =>
              if nodeInfo.network != Some(TargetNetwork) then None
              else if nodeInfo.moniker.None? || nodeInfo.version.None? then None
              else
                match (result.validatorInfo, result.syncInfo) {
                  case (Some(validatorInfo), Some(syncInfo)) =>
                    if validatorInfo.address.None? || validatorInfo.votingPower.None? then None
                    else if syncInfo.latestBlockHeight.None? || syncInfo.catchingUp.None? then None
                    else
                      var height := ParseInt(syncInfo.latestBlockHeight.value);
                      var power := ParseInt(validatorInfo.votingPower.value);
                      if height.None? || power.None? then None
                      else Some(ValidatorRecord(
                        endpoint, height.value, nodeInfo.moniker.value, validatorInfo.address.value,
                        nodeInfo.version.value, scanTime, syncInfo.catchingUp.value, power.value))
                  case _ => None
                }
          }
      }
  }

  /** Classification of a probe outcome: a record exactly when the answer is a body
      that decodes to a document describing one. */
  function Inspect(endpoint: string, probe: ProbeResult, decode: StatusDecoder, scanTime: string): (r: Option<ValidatorRecord>)
    ensures r.Some? ==> probe.Body? && decode(probe.text).Some?
                        && Describes(decode(probe.text).value, endpoint, scanTime, r.value)
    ensures forall rec ::
      (probe.Body? && decode(probe.text).Some? && Describes(decode(probe.text).value, endpoint, scanTime, rec))
      ==> r == Some(rec)
  {
    match probe {
      case Body(text) =>
        match decode(text) {
          case None => None
          case Some(doc) => RecordOf(endpoint, doc, scanTime)
        }
      // `json.loads(None)` raises, and the sentinel string is not JSON.
      case _ => None
    }
  }

  /** Python's `str(b)` for a boolean. */
  function PyBool(b: bool): string
  {
    if b then "True" else "False"
  }

  /** The eleven CSV fields of line 103, in the header's column order. */
  function RowFields(rec: ValidatorRecord): (fields: seq<string>)
    ensures |fields| == 11
  {
    [rec.endpoint, "N/A", ShowInt(rec.blockHeight), "N/A", "False", rec.moniker, rec.validator,
     rec.version, rec.scanTime, PyBool(rec.catchingUp), ShowInt(rec.votingPower)]
  }

  /** The row line 103 returns. It always holds a comma and the sentinel never does, so
      `discard` of the sentinel never drops a row; its last field is the decimal voting
      power, so the report reads it back exactly, whatever commas the other fields hold. */
  function FormatRow(rec: ValidatorRecord): (row: string)
    ensures row != NotAvailable
    ensures VotingPowerOf(row) == Some(rec.votingPower)
  {
    var fields := RowFields(rec);
    LastPieceOfJoin(fields, ',');
    ParseShowInt(rec.votingPower);
    assert Join(fields, ',') == fields[0] + [','] + Join(fields[1..], ',');
    assert Join(fields, ',')[|fields[0]|] == ',';
    assert ',' !in NotAvailable;
    Join(fields, ',')
  }

  /** `get_vuln_validators(endpoint)` given the outcome of probing `{endpoint}/status`. */
  function Classify(endpoint: string, probe: ProbeResult, decode: StatusDecoder, scanTime: string): (row: string)
    ensures row == NotAvailable <==> Inspect(endpoint, probe, decode, scanTime).None?
    ensures row != NotAvailable ==> row == FormatRow(Inspect(endpoint, probe, decode, scanTime).value)
  {
    match Inspect(endpoint, probe, decode, scanTime) {
      case None => NotAvailable
      case Some(rec) => FormatRow(rec)
    }
  }

  /** The voting power as the report reads it back, `int(row.split(",")[-1])`. */
  function VotingPowerOf(row: string): Option<int>
  {
    ParseInt(LastPiece(row, ','))
  }

  /** A row starts with the endpoint it describes. */
  lemma RowStartsWithEndpoint(rec: ValidatorRecord)
    ensures FormatRow(rec)[..|rec.endpoint|] == rec.endpoint
  {
    var fields := RowFields(rec);
    assert FormatRow(rec) == rec.endpoint + ([','] + Join(fields[1..], ','));
  }

  /** When the endpoint holds no comma, the second, fourth and fifth fields of a row are
      the constants `N/A`, `N/A`, `False` and the third reads back as the block height. */
  lemma RowLeadingFields(rec: ValidatorRecord)
    requires ',' !in rec.endpoint
    ensures |Split(FormatRow(rec), ',')| >= 5
    ensures Split(FormatRow(rec), ',')[0] == rec.endpoint
    ensures Split(FormatRow(rec), ',')[1] == "N/A"
    ensures ParseInt(Split(FormatRow(rec), ',')[2]) == Some(rec.blockHeight)
    ensures Split(FormatRow(rec), ',')[3] == "N/A"
    ensures Split(FormatRow(rec), ',')[4] == "False"
  {
    var fields := RowFields(rec);
    LeadingPiecesOfJoin(fields, ',', 5);
    var pieces := Split(FormatRow(rec), ',');
    assert pieces[..5] == fields[..5];
    assert forall i :: 0 <= i < 5 ==> pieces[i] == pieces[..5][i];
    ParseShowInt(rec.blockHeight);
  }

  /** When no text field holds a comma, splitting a row gives back exactly its fields. */
  lemma RowRoundTrip(rec: ValidatorRecord)
    requires ',' !in rec.endpoint && ',' !in rec.moniker && ',' !in rec.validator
    requires ',' !in rec.version && ',' !in rec.scanTime
    ensures Split(FormatRow(rec), ',') == RowFields(rec)
  {
    SplitJoin(RowFields(rec), ',');
  }

  /** Any answer whose network is not the target is not available, however complete. */
  lemma OtherNetworkIsNotAvailable(endpoint: string, text: string, decode: StatusDecoder, scanTime: string)
    requires decode(text).Some? && NetworkOf(decode(text).value) != Some(TargetNetwork)
    ensures Classify(endpoint, Body(text), decode, scanTime) == NotAvailable
  {
  }

  /** Each way the source falls into `'rpc_not_available'`. */
  lemma FailuresAreNotAvailable(endpoint: string, probe: ProbeResult, decode: StatusDecoder, scanTime: string)
    requires
      || !probe.Body?
      || decode(probe.text).None?
      || (var doc := decode(probe.text).value;
          || doc.reprHasError
          || !doc.reprHasJsonrpc
          || NetworkOf(doc) != Some(TargetNetwork)
          || MonikerOf(doc).None? || AddressOf(doc).None? || VersionOf(doc).None? || CatchingUpOf(doc).None?
          || HeightTextOf(doc).None? || ParseInt(HeightTextOf(doc).value).None?
          || VotingPowerTextOf(doc).None? || ParseInt(VotingPowerTextOf(doc).value).None?)
    ensures Classify(endpoint, probe, decode, scanTime) == NotAvailable
  {
  }

  /** Every other answer gives a row whose fields are the reported values. */
  lemma CompleteAnswerGivesRow(endpoint: string, text: string, decode: StatusDecoder, scanTime: string, doc: StatusJson)
    requires decode(text) == Some(doc)
    requires !doc.reprHasError && doc.reprHasJsonrpc && NetworkOf(doc) == Some(TargetNetwork)
    requires MonikerOf(doc).Some? && AddressOf(doc).Some? && VersionOf(doc).Some? && CatchingUpOf(doc).Some?
    requires HeightTextOf(doc).Some? && ParseInt(HeightTextOf(doc).value).Some?
    requires VotingPowerTextOf(doc).Some? && ParseInt(VotingPowerTextOf(doc).value).Some?
    ensures Classify(endpoint, Body(text), decode, scanTime) == FormatRow(ValidatorRecord(
      endpoint, ParseInt(HeightTextOf(doc).value).value, MonikerOf(doc).value, AddressOf(doc).value,
      VersionOf(doc).value, scanTime, CatchingUpOf(doc).value, ParseInt(VotingPowerTextOf(doc).value).value))
  {
    var rec := ValidatorRecord(
      endpoint, ParseInt(HeightTextOf(doc).value).value, MonikerOf(doc).value, AddressOf(doc).value,
      VersionOf(doc).value, scanTime, CatchingUpOf(doc).value, ParseInt(VotingPowerTextOf(doc).value).value);
    assert Describes(doc, endpoint, scanTime, rec);
  }
}

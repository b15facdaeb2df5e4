/** `request_get` (rpc-finder.py:27-34): one GET with a timeout. Its three outcomes are
    kept; the HTTP machinery behind them is not modelled. */
module Probe {
  import opened Text

  /** `Body(text)` is a 200 response, `NoBody` the `None` a non-200 status falls
      through to, `Sentinel` the string returned when the request raises. */
  datatype ProbeResult = Body(text: string) | NoBody | Sentinel

  const SentinelText: string := "request_get error"

  /** The network as the scanner sees it: the outcome of probing each URL. */
  type Network = string -> ProbeResult

  /** Python's `str(...)` of what `request_get` returned. */
  function ProbeText(probe: ProbeResult): string
  {
    match probe
    case Body(t) => t
    case NoBody => "None"
    case Sentinel => SentinelText
  }

  /** The failure sentinel itself contains the word the extractor rejects on. */
  lemma SentinelContainsError()
    ensures Contains(SentinelText, "error")
  {
    assert SentinelText[12..17] == "error";
    assert OccursAt(SentinelText, "error", 12);
  }
}

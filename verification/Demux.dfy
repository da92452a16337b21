/** Control or video (protocol/demux.cpp). */
module Demux {
  import opened Bytes
  import AnnexB

  const SNIFF_MAX_SIZE := 32768

  predicate IsControlJson(payload: seq<byte>) {
    && 0 < |payload| < SNIFF_MAX_SIZE
    && payload[0] == '{' as int
    && forall i | 0 <= i < |payload| :: payload[i] != 0
  }

  /** A payload with a start code anywhere is never taken for control, so no picture is lost to the demux. */
  lemma VideoIsNeverControl(payload: seq<byte>)
    requires !AnnexB.Parse(payload).IsEmpty()
    ensures !IsControlJson(payload)
  {
    var p := AnnexB.First(payload, 0);
    assert p < |payload|;
    assert payload[p] == 0;
  }
}

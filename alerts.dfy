/**
 The alert test the sampling loop applies to every sample: an alert is raised when
 either rate is strictly above the threshold of 10 Mbps.
 */
module Alerts {
  import opened RateSampler

  /** The alert threshold, in Mbps (an integer constant compared against float rates). */
  const Threshold: real := 10.0

  /** The alert test: either rate strictly above the threshold. */
  predicate Alert(download: real, upload: real)
  {
    download > Threshold || upload > Threshold
  }

  /** The comparison is strict: rates at or below the threshold never alert. */
  lemma QuietAtThreshold(download: real, upload: real)
    requires download <= Threshold && upload <= Threshold
    ensures !Alert(download, upload)
  {
  }

  /** Raising either rate never silences an alert. */
  lemma AlertMonotonic(download: real, upload: real, download': real, upload': real)
    requires download <= download' && upload <= upload'
    ensures Alert(download, upload) ==> Alert(download', upload')
  {
  }

  /**
   The alert stated on the counters: whenever the rate call returns, a sample alerts exactly
   when more than Threshold * 1024 * 1024 / 8 bytes per second of the interval were
   received or sent.
   */
  lemma AlertOnCounters(prev: CounterReading, curr: CounterReading, interval: real)
    requires 0.0 < interval && SleepReturns(interval)
    ensures var r := NetworkUsage(prev, curr, interval).value;
            var limit := Threshold * (BytesPerMebibyte as real) / (BitsPerByte as real) * interval;
            Alert(r.download, r.upload)
            <==> (curr.bytesRecv - prev.bytesRecv) as real > limit
                 || (curr.bytesSent - prev.bytesSent) as real > limit
  {
    var recv := curr.bytesRecv - prev.bytesRecv;
    var sent := curr.bytesSent - prev.bytesSent;
    MbpsExceeds(recv, interval, Threshold);
    MbpsExceeds(sent, interval, Threshold);
  }
}

/**
 The rate arithmetic of the bandwidth monitor: two cumulative counter readings taken
 `interval` seconds apart become a download and an upload rate in Mbps, where one
 megabit is 1024 * 1024 bits. The counters are read from the operating system, so the
 readings are parameters here. Rates are exact reals; the program uses floats.
 */
module RateSampler {
  import opened Wrappers

  const BitsPerByte: int := 8
  const BytesPerMebibyte: int := 1024 * 1024

  /** Sleep lengths are converted to a signed 64-bit count of nanoseconds; longer ones overflow. */
  const NanosecondsPerSecond: int := 1_000_000_000
  const SleepLimitNanoseconds: int := 0x8000_0000_0000_0000

  /** One reading of the host-wide cumulative byte counters. */
  datatype CounterReading = CounterReading(bytesSent: nat, bytesRecv: nat)

  /** A download and an upload rate, in Mbps. */
  datatype Rates = Rates(download: real, upload: real)

  /**
   The rate of `deltaBytes` bytes transferred in `interval` seconds. The delta is not
   clamped: a counter that went backwards gives a negative rate.
   */
  function Mbps(deltaBytes: int, interval: real): (r: real)
    requires interval != 0.0
    ensures r * interval * (BytesPerMebibyte as real) == (deltaBytes * BitsPerByte) as real
    ensures interval > 0.0 ==> (r > 0.0 <==> deltaBytes > 0)
    ensures interval > 0.0 ==> (r == 0.0 <==> deltaBytes == 0)
    ensures interval > 0.0 ==> (r < 0.0 <==> deltaBytes < 0)
  {
    var bits := (deltaBytes * BitsPerByte) as real;
    var r := bits / (BytesPerMebibyte as real) / interval;
    assert r * interval == bits / (BytesPerMebibyte as real);
    r
  }

  /** Whether sleeping `interval` seconds returns: negative lengths and lengths overflowing the nanosecond count raise. */
  predicate SleepReturns(interval: real)
  {
    0.0 <= interval && interval * (NanosecondsPerSecond as real) < SleepLimitNanoseconds as real
  }

  /**
   One call of the rate function, with the two counter reads passed in. It raises when
   the sleep of `interval` seconds raises (a negative length, or one whose nanosecond
   count overflows) or when `interval` is zero (division by zero); otherwise download
   comes from the received counter and upload from the sent one.
   */
  function NetworkUsage(prev: CounterReading, curr: CounterReading, interval: real): (r: Option<Rates>)
    ensures r.Some? <==> 0.0 < interval && interval * (NanosecondsPerSecond as real) < SleepLimitNanoseconds as real
    ensures r.Some? ==> r.value.download * interval * (BytesPerMebibyte as real)
                        == ((curr.bytesRecv - prev.bytesRecv) * BitsPerByte) as real
    ensures r.Some? ==> r.value.upload * interval * (BytesPerMebibyte as real)
                        == ((curr.bytesSent - prev.bytesSent) * BitsPerByte) as real
  {
    if !SleepReturns(interval) then None
    else if interval == 0.0 then None
    else
      var bytesSent := curr.bytesSent - prev.bytesSent;
      var bytesRecv := curr.bytesRecv - prev.bytesRecv;
      Some(Rates(Mbps(bytesRecv, interval), Mbps(bytesSent, interval)))
  }

  /** Sleeping ten billion seconds overflows the nanosecond count, so the call raises; nine billion does not. */
  lemma LongSleepRaises(prev: CounterReading, curr: CounterReading)
    ensures NetworkUsage(prev, curr, 10_000_000_000.0) == None
    ensures NetworkUsage(prev, curr, 9_000_000_000.0).Some?
  {
  }

  /** Equal deltas over the same interval give equal rates, and a larger delta a larger rate. */
  lemma MbpsMonotonic(d1: int, d2: int, interval: real)
    requires interval > 0.0
    ensures d1 <= d2 <==> Mbps(d1, interval) <= Mbps(d2, interval)
  {
    var r1, r2 := Mbps(d1, interval), Mbps(d2, interval);
    var k := interval * (BytesPerMebibyte as real);
    assert k > 0.0;
    assert r1 * k == (d1 * BitsPerByte) as real;
    assert r2 * k == (d2 * BitsPerByte) as real;
    assert (r2 - r1) * k == ((d2 - d1) * BitsPerByte) as real;
    if d1 <= d2 {
      assert (r2 - r1) * k >= 0.0;
    } else {
      assert (r2 - r1) * k < 0.0;
    }
  }

  /** A rate exceeds `c` exactly when the delta in bits exceeds `c` megabits per second of the interval. */
  lemma MbpsExceeds(deltaBytes: int, interval: real, c: real)
    requires interval > 0.0
    ensures Mbps(deltaBytes, interval) > c
            <==> (deltaBytes * BitsPerByte) as real > c * interval * (BytesPerMebibyte as real)
  {
    var r := Mbps(deltaBytes, interval);
    var k := interval * (BytesPerMebibyte as real);
    assert k > 0.0;
    assert r * k == (deltaBytes * BitsPerByte) as real;
    assert (r - c) * k == (deltaBytes * BitsPerByte) as real - c * k;
    if r > c {
      assert (r - c) * k > 0.0;
    } else {
      assert (r - c) * k <= 0.0;
    }
  }

  /** One mebibyte received in one second is exactly 8 Mbps; two mebibytes 16 Mbps. */
  lemma OneMebibytePerSecond()
    ensures NetworkUsage(CounterReading(0, 0), CounterReading(1048576, 2097152), 1.0)
            == Some(Rates(16.0, 8.0))
  {
  }

  /** A counter that did not move gives zero rates whenever the call returns. */
  lemma IdleCounters(prev: CounterReading, interval: real)
    requires 0.0 < interval && SleepReturns(interval)
    ensures NetworkUsage(prev, prev, interval) == Some(Rates(0.0, 0.0))
  {
  }

  /** Whenever the call returns, a counter that went backwards gives a negative rate: nothing clamps the delta. */
  lemma CounterRegressionIsNegative(prev: CounterReading, curr: CounterReading, interval: real)
    requires 0.0 < interval && SleepReturns(interval)
    requires curr.bytesSent < prev.bytesSent
    ensures NetworkUsage(prev, curr, interval).value.upload < 0.0
  {
  }
}

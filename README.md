# Bandwidth monitor: a Dafny model of its sampling core

The monitor samples the host's cumulative network byte counters. Each successful tick
reads them twice, one second apart, and then sleeps another second, so a sample comes
about every two seconds and the second in between is never measured. A tick whose rate
call raised skips that final sleep and the loop retries at once. It turns each pair of
readings into a download and an upload rate in Mbps, where one megabit is 1024 * 1024
bits. It prints an alert when either rate is strictly above 10 Mbps. It keeps the
newest 100 samples in three parallel lists (timestamps, download rates, upload rates)
for a live graph. It also shows a map from each network interface
to its IPv4 address, captured once at start-up.

The model has six modules:

- `RateSampler` (`rate_sampler.dfy`) holds the rate formula of `get_network_usage`. The
  two counter readings and the interval are parameters. Rates are exact reals.
- `Alerts` (`alerts.dfy`) holds the threshold constant and the alert test.
- `Interfaces` (`interfaces.dfy`) holds the IPv4 filter of `get_network_interfaces`. It
  has a specification function (`ActiveInterfaces`) and a method with the source's
  nested loop (`GetNetworkInterfaces`) proved equal to it.
- `SampleWindow` (`sample_window.dfy`) is the rolling window as values. One tick
  appends and then drops index 0 when the window holds more than 100. A run of ticks is
  a fold of that step. The lemmas prove that the fold keeps exactly the newest 100.
- `Monitor` (`monitor.dfy`) holds the class `BandwidthMonitor`. Its fields are the
  three lists and the interface map. `Tick` is one iteration of the sampling loop and
  `Run` is the loop over a finite sequence of tick outcomes. Both are proved against
  `SampleWindow`.
- `Wrappers` (`wrappers.dfy`) holds only `Option`, where `None` means there is no
  value: the rate call raised (`NetworkUsage`) or the interface has no IPv4 address
  (`LastIPv4`).

Where the code and the design description differ, the model follows the code:

- The design clamps a decreasing counter to a zero rate. The code does not, so
  `CounterRegressionIsNegative` proves the rate is negative.
- The design divides by the measured elapsed time. The code divides by the nominal
  `interval` (1 second in the loop), so the model does too.
- The design makes the capacity and threshold configurable. The code hard-codes 100
  and 10, and so does the model (`SampleWindow.Capacity`, `Alerts.Threshold`).
- The design backs off briefly after a failed counter read. The code has no back-off:
  the `continue` (mini.py:57) skips the final `time.sleep(1)` (mini.py:78), and if the
  first counter read (mini.py:29) raises the tick does not sleep at all, so a persistent
  failure spins the loop. The model has no clock, so it does not capture the spin.
- The design rejects a non-positive interval at start-up. In the code, `time.sleep`
  raises for a negative interval and for one whose count of nanoseconds does not fit a
  signed 64-bit integer (about 9.2e9 seconds), and a zero interval makes the division
  raise. `NetworkUsage` returns `None` in all three cases.

## Model

| member | source | states |
|---|---|---|
| `RateSampler.Mbps` | mini.py:38-39 | the rate times the interval times 1024*1024 gives back the delta in bits; over a positive interval the rate is positive, zero or negative exactly when the delta is |
| `RateSampler.NetworkUsage` | mini.py:28-41 | the call returns exactly when the interval is positive and its nanosecond count is below 2^63 (sleep raises for a negative or overflowing length, the division for zero); download comes from the received counter, upload from the sent counter |
| `RateSampler.LongSleepRaises` | mini.py:28-30 | an interval of ten billion seconds makes the call raise, nine billion does not |
| `RateSampler.MbpsMonotonic` | mini.py:38-39 | over a positive interval, a larger delta never gives a smaller rate, and conversely |
| `RateSampler.MbpsExceeds` | mini.py:38-39 | a rate exceeds c exactly when the delta in bits exceeds c * interval * 1024*1024 |
| `RateSampler.OneMebibytePerSecond` | mini.py:34-39 | 2097152 bytes received and 1048576 bytes sent in one second give 16 and 8 Mbps exactly |
| `RateSampler.IdleCounters` | mini.py:34-39 | whenever the call returns, counters that did not move give zero rates |
| `RateSampler.CounterRegressionIsNegative` | mini.py:34-39 | whenever the call returns, a sent counter that went backwards gives a negative upload rate: nothing clamps it |
| `Alerts.QuietAtThreshold` | mini.py:66 | with the threshold of 10 (line 9), rates at or below it never alert: the comparison is strict |
| `Alerts.AlertMonotonic` | mini.py:66 | raising either rate never silences an alert |
| `Alerts.AlertOnCounters` | mini.py:66 | whenever the rate call returns, a sample alerts exactly when more than 10*1024*1024/8 bytes per second of the interval were received or sent |
| `Interfaces.LastIPv4` | mini.py:22-24 | none exactly when no address of the list is IPv4; otherwise the address of an IPv4 entry after which no IPv4 entry follows |
| `Interfaces.ActiveInterfaces` | mini.py:18-25 | the keys are exactly the interfaces with at least one IPv4 address, and each value is that interface's last IPv4 address |
| `Interfaces.GetNetworkInterfaces` | mini.py:18-25 | the nested loop that overwrites per IPv4 address builds exactly the map `ActiveInterfaces` describes |
| `SampleWindow.Record` | mini.py:61-76 | one tick from a window within capacity stays within capacity, and the new sample is last |
| `SampleWindow.RecordKeepsNewest` | mini.py:72-76 | from a window within capacity, append-then-pop keeps exactly the newest 100 entries |
| `SampleWindow.RecordAll` | mini.py:52-76 | a run of successful ticks, one append-then-pop each; a window within capacity stays within capacity over any run |
| `SampleWindow.RecordAllKeepsNewest` | mini.py:52-78 | from a window within capacity, any run of ticks leaves the newest 100 of all entries seen, in chronological order |
| `SampleWindow.FewSamplesAllKept` | mini.py:61-63 | from empty, up to 100 ticks keep every sample |
| `SampleWindow.LastCapacitySamplesKept` | mini.py:72-76 | from empty, after 100 + k ticks exactly the last 100 samples remain, in order |
| `SampleWindow.OverflowByOneDropsFirst` | mini.py:73-76 | a full window that takes one more sample loses exactly its index 0 |
| `Monitor.AlertFlags` | mini.py:53-67 | one alert flag per tick; flag k is the alert test (mini.py:66, definition `Alerts.Alert`) on a measured tick and false on a tick whose rate call raised |
| `Monitor.MeasuredSamples` | mini.py:53-63 | a run records one sample per tick whose rate call returned: its length is the tick count minus the failures |
| `Monitor.MeasuredSamplesFromMeasuredTicks` | mini.py:53-63 | every recorded sample comes from a tick whose rate call returned |
| `Monitor.ZipRecord` | mini.py:61-76 | appending to and popping the three lists separately is the same as recording the sample in the window they form together |
| `Monitor.BandwidthMonitor.constructor` | mini.py:12-15 | the lists and the interface map start empty |
| `Monitor.BandwidthMonitor.Start` | mini.py:46-50 | the interface map is captured once as `ActiveInterfaces` of the address table; the lists are untouched |
| `Monitor.BandwidthMonitor.Tick` | mini.py:53-76 | a tick that raised changes nothing and does not alert; otherwise all three lists get the sample appended and lose index 0 when the timestamps exceed 100; the lists stay parallel and within 100; the window is the old window with the sample recorded; the alert flag is the threshold test and does not touch the lists |
| `Monitor.BandwidthMonitor.Run` | mini.py:52-78 | over a finite run the lists stay parallel, hold at most 100 entries, and hold the old window with every measured sample recorded in order; one alert flag per tick |
| `Monitor.RunFromEmpty` | mini.py:52-78 | from empty lists, a run leaves the newest 100 measured samples; their number is the smaller of 100 and the ticks that did not fail (one failure in ten ticks leaves nine) |

## Left out

- Operating system reads: `psutil.net_io_counters` and `psutil.net_if_addrs` are parameters (counter readings, the address table). Only the family and the address string of an address are kept; netmask, broadcast and point-to-point fields are not modelled.
- Clocks and sleeping: `time.time` and `time.sleep` are not modelled, apart from the lengths sleep refuses. The elapsed time of a sample is an input of the tick, and nothing is claimed about its monotonicity or about the two-second spacing of samples.
- The endless `while True` loop and its daemon thread are modelled as `Run` over a finite sequence of tick outcomes. Why the rate call raised is not modelled; `Raised` stands for any exception.
- `Monitor.BandwidthMonitor.Tick`: builds the three new lists and stores them together. The source appends and pops on each shared list in turn, so the plotting thread can see the lists mid-update, with unequal lengths or 101 entries. Concurrent readers are not modelled.
- The plotting callback `update_graph`, matplotlib, the animation and all printed output (alert and debug lines) are not modelled. The alert is returned as a flag.
- Printing is assumed not to raise. The alert and debug prints (mini.py:67, 70) sit outside the `try`; if one raised (say, an encoding error for the warning sign), the thread would end after the append and before the pop, leaving 101 entries. The model does not capture that.
- Floating point: rates are exact reals, so IEEE rounding of the division is not modelled; nor is the rounding of a float sleep length when it is converted to nanoseconds, which can move the overflow bound by a few nanoseconds.
- `Interfaces.GetNetworkInterfaces`: the result is a map, so the insertion order of the source's dictionary is not modelled. The order of the addresses within one interface is modelled, because it decides which IPv4 address wins.

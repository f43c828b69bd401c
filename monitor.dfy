/**
 The sampling loop and the three lists it keeps for plotting: timestamps, download
 rates and upload rates, appended together on every successful tick and trimmed
 together to the newest 100. The rate call and the clock are inputs of a tick.
 */
module Monitor {
  import opened RateSampler
  import opened Alerts
  import opened Interfaces
  import opened SampleWindow

  /**
   What one iteration of the loop sees: the rate call raised, or it returned `usage`
   and the clock then stood `elapsed` seconds after monitoring started.
   */
  datatype TickInput = Raised | Measured(usage: Rates, elapsed: real)

  function SampleOf(input: TickInput): Sample
    requires input.Measured?
  {
    Sample(input.elapsed, input.usage.download, input.usage.upload)
  }

  /** Whether the tick prints an alert: only a measured tick whose rates exceed the threshold. */
  predicate AlertOn(input: TickInput)
  {
    input.Measured? && Alert(input.usage.download, input.usage.upload)
  }

  /** The alert flag of every tick of a run, in order. */
  function AlertFlags(inputs: seq<TickInput>): (r: seq<bool>)
    ensures |r| == |inputs|
    ensures forall k :: 0 <= k < |r| ==> r[k] == AlertOn(inputs[k])
  {
    if inputs == [] then []
    else AlertFlags(inputs[..|inputs| - 1]) + [AlertOn(inputs[|inputs| - 1])]
  }

  /** The number of ticks whose rate call raised. */
  function Failures(inputs: seq<TickInput>): nat
  {
    if inputs == [] then 0
    else Failures(inputs[..|inputs| - 1]) + (if inputs[|inputs| - 1].Raised? then 1 else 0)
  }

  /** The samples a run of ticks records, in order; a tick that raised records nothing. */
  function MeasuredSamples(inputs: seq<TickInput>): (r: seq<Sample>)
    ensures |r| + Failures(inputs) == |inputs|
  {
    if inputs == [] then []
    else
      var last := inputs[|inputs| - 1];
      MeasuredSamples(inputs[..|inputs| - 1]) + if last.Measured? then [SampleOf(last)] else []
  }

  /** Every recorded sample comes from a tick whose rate call returned. */
  lemma {:induction false} MeasuredSamplesFromMeasuredTicks(inputs: seq<TickInput>, k: int)
    requires 0 <= k < |MeasuredSamples(inputs)|
    ensures exists i :: 0 <= i < |inputs| && inputs[i].Measured? && MeasuredSamples(inputs)[k] == SampleOf(inputs[i])
    decreases |inputs|
  {
    var init := inputs[..|inputs| - 1];
    if k < |MeasuredSamples(init)| {
      MeasuredSamplesFromMeasuredTicks(init, k);
      var i :| 0 <= i < |init| && init[i].Measured? && MeasuredSamples(init)[k] == SampleOf(init[i]);
      assert inputs[i] == init[i];
    } else {
      assert MeasuredSamples(inputs)[k] == SampleOf(inputs[|inputs| - 1]);
    }
  }

  /** Extending a run by one tick extends its measured samples by that tick's sample, if any. */
  lemma MeasuredSamplesSnoc(inputs: seq<TickInput>, i: int)
    requires 0 <= i < |inputs|
    ensures MeasuredSamples(inputs[..i + 1])
            == MeasuredSamples(inputs[..i]) + if inputs[i].Measured? then [SampleOf(inputs[i])] else []
  {
    assert inputs[..i + 1][..i] == inputs[..i];
  }

  /** One more tick of a run moves the window from the run so far to the longer run. */
  lemma RunStep(w: seq<Sample>, inputs: seq<TickInput>, i: int, current: seq<Sample>, next: seq<Sample>)
    requires 0 <= i < |inputs|
    requires current == RecordAll(w, MeasuredSamples(inputs[..i]))
    requires next == if inputs[i].Measured? then Record(current, SampleOf(inputs[i])) else current
    ensures next == RecordAll(w, MeasuredSamples(inputs[..i + 1]))
  {
    MeasuredSamplesSnoc(inputs, i);
    var before := MeasuredSamples(inputs[..i]);
    if inputs[i].Measured? {
      RecordAllSnoc(w, before, SampleOf(inputs[i]));
    } else {
      assert MeasuredSamples(inputs[..i + 1]) == before + [] == before;
    }
  }

  /** The three parallel lists read as one sequence of samples. */
  function Zip(ts: seq<real>, ds: seq<real>, us: seq<real>): (r: seq<Sample>)
    requires |ts| == |ds| == |us|
  {
    seq(|ts|, k requires 0 <= k < |ts| => Sample(ts[k], ds[k], us[k]))
  }

  /** Appending to each list appends the zipped sample. */
  lemma ZipAppend(ts: seq<real>, ds: seq<real>, us: seq<real>, s: Sample)
    requires |ts| == |ds| == |us|
    ensures Zip(ts + [s.elapsed], ds + [s.download], us + [s.upload]) == Zip(ts, ds, us) + [s]
  {
  }

  /** Popping index 0 from each list pops index 0 from the zipped window. */
  lemma ZipDropOldest(ts: seq<real>, ds: seq<real>, us: seq<real>)
    requires |ts| == |ds| == |us| > 0
    ensures Zip(ts[1..], ds[1..], us[1..]) == Zip(ts, ds, us)[1..]
  {
  }

  /** Recording into each list separately is recording the sample into the zipped window. */
  lemma ZipRecord(ts: seq<real>, ds: seq<real>, us: seq<real>, s: Sample)
    requires |ts| == |ds| == |us|
    ensures |Record(ts, s.elapsed)| == |Record(ds, s.download)| == |Record(us, s.upload)|
    ensures Zip(Record(ts, s.elapsed), Record(ds, s.download), Record(us, s.upload)) == Record(Zip(ts, ds, us), s)
  {
    ZipAppend(ts, ds, us, s);
    if |ts| + 1 > Capacity {
      ZipDropOldest(ts + [s.elapsed], ds + [s.download], us + [s.upload]);
    }
  }

  /** Recording one more sample after a run is recording the longer run. */
  lemma {:induction false} RecordAllSnoc<T>(w: seq<T>, xs: seq<T>, x: T)
    ensures RecordAll(w, xs + [x]) == Record(RecordAll(w, xs), x)
    decreases xs
  {
    if xs == [] {
      assert [] + [x] == [x];
      assert [x][1..] == [];
    } else {
      assert (xs + [x])[0] == xs[0];
      assert (xs + [x])[1..] == xs[1..] + [x];
      RecordAllSnoc(Record(w, xs[0]), xs[1..], x);
    }
  }

  class BandwidthMonitor {
    var timeStamps: seq<real>
    var downloadSpeeds: seq<real>
    var uploadSpeeds: seq<real>
    var networkInfo: map<string, string>

    /** The three lists stay parallel and hold at most Capacity entries. */
    ghost predicate Valid()
      reads this
    {
      |timeStamps| == |downloadSpeeds| == |uploadSpeeds| <= Capacity
    }

    /** The window the lists hold, oldest sample first. */
    ghost function Samples(): seq<Sample>
      reads this
      requires Valid()
    {
      Zip(timeStamps, downloadSpeeds, uploadSpeeds)
    }

    /** The program's state before monitoring starts: empty lists and an empty interface map. */
    constructor ()
      ensures Valid() && Samples() == []
      ensures timeStamps == [] && downloadSpeeds == [] && uploadSpeeds == []
      ensures networkInfo == map[]
    {
      timeStamps, downloadSpeeds, uploadSpeeds := [], [], [];
      networkInfo := map[];
    }

    /** Monitoring starts by capturing the interface map once; the lists are not touched. */
    method Start(interfaces: map<string, seq<Addr>>)
      modifies this
      ensures networkInfo == ActiveInterfaces(interfaces)
      ensures timeStamps == old(timeStamps) && downloadSpeeds == old(downloadSpeeds) && uploadSpeeds == old(uploadSpeeds)
    {
      networkInfo := GetNetworkInterfaces(interfaces);
    }

    /**
     One iteration of the sampling loop. A tick whose rate call raised changes nothing.
     Otherwise the timestamp and both rates are appended, the alert test is applied, and
     when the timestamp list then holds more than Capacity entries index 0 is popped
     from all three lists.
     */
    method Tick(input: TickInput) returns (alerted: bool)
      modifies this
      ensures networkInfo == old(networkInfo)
      ensures alerted == AlertOn(input)
      ensures input.Raised? ==>
                timeStamps == old(timeStamps) && downloadSpeeds == old(downloadSpeeds) && uploadSpeeds == old(uploadSpeeds)
      ensures input.Measured? && |old(timeStamps)| < Capacity ==>
                && timeStamps == old(timeStamps) + [input.elapsed]
                && downloadSpeeds == old(downloadSpeeds) + [input.usage.download]
                && uploadSpeeds == old(uploadSpeeds) + [input.usage.upload]
      ensures input.Measured? && |old(timeStamps)| >= Capacity ==>
                && timeStamps == old(timeStamps)[1..] + [input.elapsed]
                && downloadSpeeds == (old(downloadSpeeds) + [input.usage.download])[1..]
                && uploadSpeeds == (old(uploadSpeeds) + [input.usage.upload])[1..]
      ensures |old(timeStamps)| <= Capacity ==> |timeStamps| <= Capacity
      ensures old(Valid()) ==> Valid()
      ensures old(Valid()) ==>
                Samples() == if input.Measured? then Record(old(Samples()), SampleOf(input)) else old(Samples())
    {
      if input.Raised? {
        return false;
      }
      ghost var ts, ds, us := timeStamps, downloadSpeeds, uploadSpeeds;
      var download, upload := input.usage.download, input.usage.upload;
      var times, downloads, uploads := timeStamps + [input.elapsed], downloadSpeeds + [download], uploadSpeeds + [upload];
      alerted := Alert(download, upload);
      if |times| > Capacity {
        times, downloads, uploads := times[1..], downloads[1..], uploads[1..];
      }
      timeStamps, downloadSpeeds, uploadSpeeds := times, downloads, uploads;
      if |ts| == |ds| == |us| {
        ZipRecord(ts, ds, us, SampleOf(input));
      }
    }

    /**
     The sampling loop over a finite run of ticks. The lists end as the window after
     recording every measured sample in order, and one alert flag is reported per tick.
     */
    method Run(inputs: seq<TickInput>) returns (alerts: seq<bool>)
      requires Valid()
      modifies this
      ensures Valid()
      ensures |timeStamps| == |downloadSpeeds| == |uploadSpeeds| <= Capacity
      ensures networkInfo == old(networkInfo)
      ensures Samples() == RecordAll(old(Samples()), MeasuredSamples(inputs))
      ensures |alerts| == |inputs|
      ensures forall i :: 0 <= i < |inputs| ==> alerts[i] == AlertOn(inputs[i])
    {
      alerts := [];
      var i := 0;
      while i < |inputs|
        invariant 0 <= i <= |inputs|
        invariant Valid()
        invariant networkInfo == old(networkInfo)
        invariant Samples() == RecordAll(old(Samples()), MeasuredSamples(inputs[..i]))
        invariant alerts == AlertFlags(inputs[..i])
      {
        ghost var current := Samples();
        var alerted := Tick(inputs[i]);
        alerts := alerts + [alerted];
        assert inputs[..i + 1][..i] == inputs[..i];
        RunStep(old(Samples()), inputs, i, current, Samples());
        i := i + 1;
      }
      assert inputs[..i] == inputs;
    }
  }

  /**
   From the initial empty lists, a run leaves the newest Capacity measured samples in
   order; in particular a run where one tick of ten raised holds the other nine.
   */
  lemma RunFromEmpty(inputs: seq<TickInput>)
    ensures |RecordAll([], MeasuredSamples(inputs))| == Min(|inputs| - Failures(inputs), Capacity)
    ensures RecordAll([], MeasuredSamples(inputs)) == Newest(MeasuredSamples(inputs), Capacity)
  {
    RecordAllKeepsNewest([], MeasuredSamples(inputs));
    assert [] + MeasuredSamples(inputs) == MeasuredSamples(inputs);
  }
}

/** The main program's polling loop: read a level, wrap it as a record, feed the
    aggregation window. The endless loop is modelled over a finite list of replies and
    stops, as the program does, at the first reply that faults. */
module PollingLoop {
  import opened Bits
  import opened Tables
  import opened SplDecoder
  import opened PeakWindow

  /** The record built from a reading; the weighting is read but not recorded. */
  function Record(s: Sample): SensorData
  {
    SensorData("sound", "YOUR SENSOR LOCATION", s.range, s.speed, s.tenths)
  }

  /** The record the loop builds from a reply, read off its bytes: the range code and
      speed bit pick the names, the level is the ten-bit raw value over the floor, and the
      weighting bit has no place in it. */
  lemma RecordFromReply(reply: seq<byte>)
    requires DecodeSpl(reply).Ok?
    ensures Record(DecodeSpl(reply).value) ==
      SensorData("sound", "YOUR SENSOR LOCATION", Ranges[Field(reply[1], 2, 3)], Speeds[Field(reply[1], 6, 1)],
                 MinTenths + reply[0] + 256 * Field(reply[1], 0, 2))
  {
  }

  /** `peak` after a list of replies, read in order. */
  function PeakOf(peak: int, replies: seq<seq<byte>>): int
  {
    if replies == [] then peak
    else PeakStep(PeakOf(peak, replies[..|replies| - 1]), replies[|replies| - 1])
  }

  /** `peak` after a run is the largest of its starting value and the levels read:
      at least each of them, and equal to one of them. */
  lemma {:induction false} PeakOfIsMax(peak: int, replies: seq<seq<byte>>)
    ensures PeakOf(peak, replies) >= peak
    ensures forall j :: 0 <= j < |replies| && |replies[j]| >= 2 ==>
              PeakOf(peak, replies) >= Level(replies[j][0], replies[j][1])
    ensures PeakOf(peak, replies) == peak ||
            exists j :: 0 <= j < |replies| && |replies[j]| >= 2 &&
              PeakOf(peak, replies) == Level(replies[j][0], replies[j][1])
  {
    if replies != [] {
      var init := replies[..|replies| - 1];
      PeakOfIsMax(peak, init);
      var last := |replies| - 1;
      var p := PeakOf(peak, init);
      forall j | 0 <= j < last
        ensures replies[j] == init[j]
      {
      }
      if PeakOf(peak, replies) != peak && PeakOf(peak, replies) == p {
        var j :| 0 <= j < |init| && |init[j]| >= 2 && p == Level(init[j][0], init[j][1]);
        assert replies[j] == init[j];
      }
    }
  }

  /** Reading one more reply extends `peak`'s fold by one step. */
  lemma PeakOfSnoc(peak: int, replies: seq<seq<byte>>, n: nat)
    requires n < |replies|
    ensures PeakOf(peak, replies[..n + 1]) == PeakStep(PeakOf(peak, replies[..n]), replies[n])
  {
    assert replies[..n + 1][..n] == replies[..n];
  }

  /** Every reply decodes without a fault. */
  predicate AllDecode(replies: seq<seq<byte>>)
  {
    forall j :: 0 <= j < |replies| ==> DecodeSpl(replies[j]).Ok?
  }

  /** The records of a list of replies that all decode, in order. */
  function RecordsOf(replies: seq<seq<byte>>): (records: seq<SensorData>)
    requires AllDecode(replies)
    ensures |records| == |replies|
    ensures forall j :: 0 <= j < |replies| ==> records[j] == Record(DecodeSpl(replies[j]).value)
  {
    if replies == [] then []
    else
      var init := replies[..|replies| - 1];
      assert AllDecode(init) by {
        forall j | 0 <= j < |init|
          ensures DecodeSpl(init[j]).Ok?
        {
          assert init[j] == replies[j];
        }
      }
      RecordsOf(init) + [Record(DecodeSpl(replies[|replies| - 1]).value)]
  }

  /** One more reply that decodes extends the records, after any earlier readings, by its record. */
  lemma RecordsOfSnoc(earlier: seq<SensorData>, replies: seq<seq<byte>>, n: nat)
    requires n < |replies| && AllDecode(replies[..n]) && DecodeSpl(replies[n]).Ok?
    ensures AllDecode(replies[..n + 1])
    ensures earlier + RecordsOf(replies[..n + 1]) == earlier + RecordsOf(replies[..n]) + [Record(DecodeSpl(replies[n]).value)]
  {
    var next := replies[..n + 1];
    assert next[..n] == replies[..n];
    forall j | 0 <= j < n + 1
      ensures DecodeSpl(next[j]).Ok?
    {
      if j < n {
        assert next[j] == replies[..n][j];
      }
    }
  }

  /** One pass of the loop: `readSPL`, build the record, and step the window. A fault
      ends the pass before the window sees anything. */
  method PollOnce(meter: Meter, window: Window, reply: seq<byte>) returns (r: Result<SensorData>)
    requires window.Valid()
    modifies meter, window
    ensures window.Valid()
    ensures meter.peak == PeakStep(old(meter.peak), reply)
    ensures r == if DecodeSpl(reply).Ok? then Ok(Record(DecodeSpl(reply).value)) else Err(DecodeSpl(reply).fault)
    ensures r.Ok? ==> window.Readings() == old(window.Readings()) + [r.value]
    ensures r.Err? ==> window.Readings() == old(window.Readings()) && window.written == old(window.written)
  {
    var sample := meter.ReadSpl(reply);
    if sample.Err? {
      return Err(sample.fault);
    }
    var data := Record(sample.value);
    window.Step(data);
    r := Ok(data);
  }

  /** The loop over a finite list of replies. It reads them in order and stops after the
      first one that faults, returning how many it read and that fault. */
  method Run(meter: Meter, window: Window, replies: seq<seq<byte>>) returns (polled: nat, fault: Option<Fault>)
    requires window.Valid()
    modifies meter, window
    ensures window.Valid()
    ensures polled <= |replies|
    ensures fault.None? ==> polled == |replies| && AllDecode(replies) &&
                            window.Readings() == old(window.Readings()) + RecordsOf(replies)
    ensures fault.Some? ==> 0 < polled && AllDecode(replies[..polled - 1]) &&
                            DecodeSpl(replies[polled - 1]) == Err(fault.item) &&
                            window.Readings() == old(window.Readings()) + RecordsOf(replies[..polled - 1])
    ensures meter.peak == PeakOf(old(meter.peak), replies[..polled])
  {
    polled, fault := 0, None;
    while polled < |replies|
      invariant polled <= |replies|
      invariant window.Valid()
      invariant AllDecode(replies[..polled])
      invariant window.Readings() == old(window.Readings()) + RecordsOf(replies[..polled])
      invariant meter.peak == PeakOf(old(meter.peak), replies[..polled])
    {
      PeakOfSnoc(old(meter.peak), replies, polled);
      var r := PollOnce(meter, window, replies[polled]);
      if r.Err? {
        polled, fault := polled + 1, Some(r.fault);
        return;
      }
      RecordsOfSnoc(old(window.Readings()), replies, polled);
      polled := polled + 1;
    }
    assert replies[..polled] == replies;
  }
}

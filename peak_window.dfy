/** The aggregation window of the polling loop: of every 31 consecutive readings, the
    loudest one (the first of them on a tie) is written to the database. */
module PeakWindow {
  import opened Tables

  /** The record written to the database: `SensorData`. The level is in tenths of a dB. */
  datatype SensorData = SensorData(measurement: string, location: string, range: string, speed: string, value: int)

  /** Readings per window; the 31st reading of a window flushes it. */
  const WindowSize: nat := 31

  /** The position of the reading a window keeps: the first one that holds the window's
      largest level. It follows the loop's rule (adopt the first reading, replace it only
      with a strictly louder one). */
  function Kept(w: seq<SensorData>): (k: nat)
    requires |w| > 0
    ensures k < |w|
    ensures forall j :: 0 <= j < |w| ==> w[j].value <= w[k].value
    ensures forall j :: 0 <= j < k ==> w[j].value < w[k].value
    decreases |w|
  {
    if |w| == 1 then 0
    else
      var k := Kept(w[..|w| - 1]);
      if w[|w| - 1].value > w[k].value then |w| - 1 else k
  }

  /** The two properties of Kept single out one position: a reading that is as loud as
      every other and strictly louder than every earlier one is the kept one. */
  lemma KeptUnique(w: seq<SensorData>, k: nat)
    requires k < |w|
    requires forall j :: 0 <= j < |w| ==> w[j].value <= w[k].value
    requires forall j :: 0 <= j < k ==> w[j].value < w[k].value
    ensures k == Kept(w)
  {
    var c := Kept(w);
    assert w[c].value <= w[k].value && w[k].value <= w[c].value;
  }

  /** The record a full window writes: its kept reading. */
  function Flushed(w: seq<SensorData>): SensorData
    requires |w| > 0
  {
    w[Kept(w)]
  }

  /** The candidate after one more reading: the new reading if strictly louder, else the old one. */
  lemma FlushedSnoc(w: seq<SensorData>, d: SensorData)
    requires |w| > 0
    ensures Flushed(w + [d]) == if d.value > Flushed(w).value then d else Flushed(w)
  {
    assert (w + [d])[..|w|] == w;
  }

  /** The readings of consecutive windows, in order. */
  function Concat(ws: seq<seq<SensorData>>): seq<SensorData>
  {
    if ws == [] then [] else Concat(ws[..|ws| - 1]) + ws[|ws| - 1]
  }

  /** Every window holds 31 readings. */
  predicate AllFull(ws: seq<seq<SensorData>>)
  {
    ws == [] || (AllFull(ws[..|ws| - 1]) && |ws[|ws| - 1]| == WindowSize)
  }

  /** Full windows hold 31 readings each. */
  lemma {:induction false} ConcatLength(ws: seq<seq<SensorData>>)
    requires AllFull(ws)
    ensures |Concat(ws)| == WindowSize * |ws|
  {
    if ws != [] {
      ConcatLength(ws[..|ws| - 1]);
    }
  }

  /** Window k of a run of full windows is readings 31k .. 31k+30 of their concatenation. */
  lemma {:induction false} ConcatSlice(ws: seq<seq<SensorData>>, k: nat)
    requires AllFull(ws) && k < |ws|
    ensures |ws[k]| == WindowSize && |Concat(ws)| == WindowSize * |ws|
    ensures Concat(ws)[WindowSize * k .. WindowSize * k + WindowSize] == ws[k]
  {
    var init := ws[..|ws| - 1];
    ConcatLength(ws);
    ConcatLength(init);
    if k < |ws| - 1 {
      ConcatSlice(init, k);
      assert init[k] == ws[k];
      assert Concat(ws) == Concat(init) + ws[|ws| - 1];
    }
  }

  /** The records a run of full windows writes, one per window, in order. */
  function FlushedAll(ws: seq<seq<SensorData>>): (records: seq<SensorData>)
    requires AllFull(ws)
    ensures |records| == |ws|
  {
    if ws == [] then [] else FlushedAll(ws[..|ws| - 1]) + [Flushed(ws[|ws| - 1])]
  }

  /** Record k of a run is the record of window k, and each record is the loudest reading
      of its window. */
  lemma {:induction false} FlushedAllAt(ws: seq<seq<SensorData>>, k: nat)
    requires AllFull(ws) && k < |ws|
    ensures |FlushedAll(ws)| == |ws| && |ws[k]| == WindowSize
    ensures FlushedAll(ws)[k] == Flushed(ws[k])
  {
    var init := ws[..|ws| - 1];
    if k < |ws| - 1 {
      FlushedAllAt(init, k);
      assert init[k] == ws[k];
    } else if init != [] {
      FlushedAllAt(init, 0);
    }
  }

  /** Closing one more full window extends the readings, the records and the run. */
  lemma AppendWindow(ws: seq<seq<SensorData>>, w: seq<SensorData>)
    requires AllFull(ws) && |w| == WindowSize
    ensures AllFull(ws + [w])
    ensures FlushedAll(ws + [w]) == FlushedAll(ws) + [Flushed(w)]
  {
    assert (ws + [w])[..|ws|] == ws;
  }

  /** One more reading extends the readings, whether or not it closes a window. */
  lemma ReadingsStep(done: seq<seq<SensorData>>, current: seq<SensorData>, data: SensorData)
    ensures Concat(done + [current + [data]]) == Concat(done) + (current + [data])
  {
    assert (done + [current + [data]])[..|done|] == done;
  }

  /** The loop state of the main program: the counter `i`, the candidate `oldData`,
      and `written`, the records handed to the database in order. The candidate is None
      before the first reading, when the Python variable is not yet bound. */
  class Window {
    var i: nat
    var oldData: Option<SensorData>
    var written: seq<SensorData>
    /** The windows flushed so far, and the readings of the window in progress. */
    ghost var done: seq<seq<SensorData>>
    ghost var current: seq<SensorData>

    ghost predicate Valid()
      reads this
    {
      i < WindowSize && |current| == i &&
      (i > 0 ==> oldData == Some(Flushed(current))) &&
      AllFull(done) && written == FlushedAll(done)
    }

    /** Every reading the loop has been given, in order. */
    ghost function Readings(): seq<SensorData>
      reads this
    {
      Concat(done) + current
    }

    constructor ()
      ensures Valid() && i == 0 && written == [] && Readings() == []
    {
      i := 0;
      oldData := None;
      written := [];
      done := [];
      current := [];
    }

    /** One pass of the loop body after the reading: keep the first reading of a window,
        replace the candidate only with a strictly louder one, and on the 31st reading
        write the candidate and start a new window. */
    method Step(data: SensorData)
      requires Valid()
      modifies this
      ensures Valid()
      ensures Readings() == old(Readings()) + [data]
      ensures i == if old(i) + 1 == WindowSize then 0 else old(i) + 1
      ensures old(i) + 1 < WindowSize ==> written == old(written)
      ensures old(i) + 1 == WindowSize ==> written == old(written) + [Flushed(old(current) + [data])]
    {
      ghost var w := current + [data];
      ReadingsStep(done, current, data);
      if i > 0 {
        FlushedSnoc(current, data);
      }
      if i == 0 {
        oldData := Some(data);
      } else if data.value > oldData.item.value {
        oldData := Some(data);
      }
      assert oldData == Some(Flushed(w));
      i := i + 1;
      current := w;
      if i == WindowSize {
        AppendWindow(done, w);
        written := written + [oldData.item];
        done := done + [w];
        current := [];
        i := 0;
      }
    }

    /** Exactly one record has been written per 31 readings; `i` counts the rest. */
    lemma Counts()
      requires Valid()
      ensures |Readings()| == WindowSize * |written| + i
    {
      ConcatLength(done);
    }

    /** Record k is the kept reading of readings 31k .. 31k+30. */
    lemma WrittenAreWindowPeaks(k: nat)
      requires Valid() && k < |written|
      ensures WindowSize * k + WindowSize <= |Readings()|
      ensures written[k] == Flushed(Readings()[WindowSize * k .. WindowSize * k + WindowSize])
    {
      ConcatSlice(done, k);
      FlushedAllAt(done, k);
      assert Readings()[WindowSize * k .. WindowSize * k + WindowSize]
          == Concat(done)[WindowSize * k .. WindowSize * k + WindowSize];
    }
  }
}

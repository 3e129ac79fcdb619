/** Progress-bar selection: `getBar` picks one of ten fixed bars, each with the
    knob in one of ten slots. The glyphs are abstracted to two markers. */
module ProgressBar {
  import opened Arith

  datatype Marker = Knob | Track

  /** The bar with the knob in slot `k` and track everywhere else. */
  function BarAt(k: nat): (bar: seq<Marker>)
    requires k < 10
    ensures |bar| == 10
    ensures forall j :: 0 <= j < 10 ==> (bar[j] == Knob <==> j == k)
  {
    seq(10, j => if j == k then Knob else Track)
  }

  /** The `progressBars` table: entry `k` has its knob in slot `k`. */
  const ProgressBars: seq<seq<Marker>> := [BarAt(0), BarAt(1), BarAt(2), BarAt(3), BarAt(4),
                                           BarAt(5), BarAt(6), BarAt(7), BarAt(8), BarAt(9)]

  /** `Math.floor(x)` for a real `x`. */
  function Floor(x: real): int {
    x.Floor
  }

  /** `getBar(progress)` for a numeric (not NaN) progress: the knob sits in slot
      0 below 10, in slot 9 from 90 on, and in between in the slot whose band of
      ten holds the progress. */
  function GetBar(progress: real): (bar: seq<Marker>)
    ensures |bar| == 10
    ensures forall j :: 0 <= j < 10 ==>
      (bar[j] == Knob <==>
        if progress < 10.0 then j == 0
        else if progress >= 90.0 then j == 9
        else (j * 10) as real <= progress < (j * 10 + 10) as real)
  {
    if progress < 10.0 then ProgressBars[0]
    else
      var k := Min(Floor(progress / 10.0), |ProgressBars| - 1);
      assert 1 <= k <= 9;
      assert progress < 90.0 ==> (k * 10) as real <= progress < (k * 10 + 10) as real;
      ProgressBars[k]
  }

  /** The slot of the knob. */
  function KnobSlot(bar: seq<Marker>): (k: nat)
    requires Knob in bar
    ensures k < |bar| && bar[k] == Knob
    ensures forall j :: 0 <= j < k ==> bar[j] != Knob
  {
    if bar[0] == Knob then 0 else 1 + KnobSlot(bar[1..])
  }

  /** Every bar has exactly one knob. */
  lemma OneKnob(progress: real)
    ensures Knob in GetBar(progress)
    ensures forall j :: 0 <= j < 10 && GetBar(progress)[j] == Knob ==> j == KnobSlot(GetBar(progress))
  {
    var bar := GetBar(progress);
    var k :| 0 <= k < 10 && (if progress < 10.0 then k == 0
      else if progress >= 90.0 then k == 9
      else (k * 10) as real <= progress < (k * 10 + 10) as real) by {
      if progress >= 10.0 && progress < 90.0 {
        var f := Floor(progress / 10.0);
        assert (f * 10) as real <= progress < (f * 10 + 10) as real;
      }
    }
    assert bar[k] == Knob;
  }

  /** More progress never moves the knob back. */
  lemma KnobMonotone(p: real, q: real)
    requires p <= q
    ensures Knob in GetBar(p) && Knob in GetBar(q)
    ensures KnobSlot(GetBar(p)) <= KnobSlot(GetBar(q))
  {
    OneKnob(p);
    OneKnob(q);
  }

  /** The examples the test suite checks at the two ends of the scale. */
  lemma BarEnds()
    ensures GetBar(9.0) == GetBar(0.0) == GetBar(5.0)
    ensures GetBar(100.0) == GetBar(99.0) == GetBar(90.0)
    ensures GetBar(10.0) == GetBar(19.0) != GetBar(9.0)
  {
    assert GetBar(10.0)[1] == Knob && GetBar(9.0)[1] == Track;
  }
}

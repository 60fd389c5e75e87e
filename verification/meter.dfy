/** The two-slot peak meter: `update` raises the raw peaks, `get_peak` turns them into levels
    and clears them. A level in decibels `20 log10(a)` is kept as the amplitude `a` it stands
    for (0 dB is 1.0); since the logarithm is strictly increasing, every comparison made in
    decibels is the same comparison on amplitudes. */
module Meter {
  import opened Faults
  import opened Signal

  /** The meter has exactly two slots, whatever the stream's channel count. */
  const Slots: int := 2

  datatype Meter = Meter(peakRaw: seq<real>, peakLevel: seq<real>)

  predicate WellFormed(m: Meter)
  {
    && |m.peakRaw| == Slots && |m.peakLevel| == Slots
    && (forall i :: 0 <= i < Slots ==> m.peakRaw[i] >= 0.0)
    && (forall i :: 0 <= i < Slots ==> m.peakLevel[i] > 0.0)
  }

  /** A fresh meter: raw peaks 0.0, levels 0 dB. */
  function NewMeter(): (m: Meter)
    ensures WellFormed(m) && Cleared(m)
    ensures forall i :: 0 <= i < Slots ==> m.peakRaw[i] == 0.0 && m.peakLevel[i] == 1.0
  {
    Meter([0.0, 0.0], [1.0, 1.0])
  }

  /** The channel loop of `update` from channel `c` on: `np.max` of an empty channel
      raises, and a third channel indexes past the two slots. */
  function UpdateFrom(m: Meter, b: Block, c: nat): (r: Result<Meter>)
    requires WellFormed(m) && c <= |b|
    ensures r.Ok? <==> FitsFrom(b, c)
    ensures r.Ok? ==> WellFormed(r.value) && r.value.peakLevel == m.peakLevel
    ensures r.Ok? ==> forall i :: 0 <= i < Slots ==>
      r.value.peakRaw[i] == if c <= i < |b| then Max(m.peakRaw[i], MaxAbs(b[i])) else m.peakRaw[i]
    decreases |b| - c
  {
    if c == |b| then Ok(m)
    else if |b[c]| == 0 then Err(EmptyArray)
    else if c >= Slots then Err(ChannelIndex)
    else
      var raised := Meter(m.peakRaw[c := Max(m.peakRaw[c], MaxAbs(b[c]))], m.peakLevel);
      assert raised.peakRaw[c] == Max(m.peakRaw[c], MaxAbs(b[c]));
      assert forall i :: 0 <= i < Slots && i != c ==> raised.peakRaw[i] == m.peakRaw[i];
      UpdateFrom(raised, b, c + 1)
  }

  /** Every channel from `c` on is non-empty and has a slot. */
  predicate FitsFrom(b: Block, c: nat)
    decreases |b| - c
  {
    c >= |b| || (|b[c]| > 0 && c < Slots && FitsFrom(b, c + 1))
  }

  lemma {:induction false} FitsFromAll(b: Block, c: nat)
    requires c <= |b|
    ensures FitsFrom(b, c) <==> forall k :: c <= k < |b| ==> |b[k]| > 0 && k < Slots
    decreases |b| - c
  {
    if c < |b| {
      FitsFromAll(b, c + 1);
      if !FitsFrom(b, c) && |b[c]| > 0 && c < Slots {
        var k :| c + 1 <= k < |b| && !(|b[k]| > 0 && k < Slots);
      }
    }
  }

  /** The loop got past channel `i`: every channel from `c` to `i` was non-empty. */
  predicate Reached(b: Block, c: int, i: int)
  {
    forall k :: c <= k <= i ==> 0 <= k < |b| && |b[k]| > 0
  }

  /** The meter as the channel loop from `c` on leaves it, whether or not it raises: the
      slots of the channels it got past are raised, since each assignment happens before the
      next channel's `np.max` or slot index can fail. */
  function PartialUpdate(m: Meter, b: Block, c: nat): (r: Meter)
    requires WellFormed(m) && c <= |b|
    ensures WellFormed(r) && r.peakLevel == m.peakLevel
    ensures forall i :: 0 <= i < Slots ==>
      r.peakRaw[i] == if c <= i < |b| && Reached(b, c, i) then Max(m.peakRaw[i], MaxAbs(b[i])) else m.peakRaw[i]
    ensures UpdateFrom(m, b, c).Ok? ==> r == UpdateFrom(m, b, c).value
    decreases |b| - c
  {
    if c == |b| || |b[c]| == 0 || c >= Slots then
      assert forall i :: c <= i < |b| ==> !Reached(b, c, i) || i >= Slots;
      m
    else
      var raised := Meter(m.peakRaw[c := Max(m.peakRaw[c], MaxAbs(b[c]))], m.peakLevel);
      var r := PartialUpdate(raised, b, c + 1);
      assert forall i :: c < i < |b| ==> (Reached(b, c, i) <==> Reached(b, c + 1, i));
      assert Reached(b, c, c);
      r
  }

  /** `update`: each present channel's raw peak becomes the larger of itself and the
      channel's peak amplitude. */
  function Update(m: Meter, b: Block): (r: Result<Meter>)
    requires WellFormed(m)
    ensures r.Ok? <==> |b| <= Slots && forall c :: 0 <= c < |b| ==> |b[c]| > 0
    ensures r.Ok? ==> WellFormed(r.value) && r.value.peakLevel == m.peakLevel
    ensures r.Ok? ==> forall c :: 0 <= c < |b| ==>
      r.value.peakRaw[c] >= m.peakRaw[c] && r.value.peakRaw[c] >= MaxAbs(b[c])
      && (r.value.peakRaw[c] == m.peakRaw[c] || r.value.peakRaw[c] == MaxAbs(b[c]))
    ensures r.Ok? ==> forall i :: |b| <= i < Slots ==> r.value.peakRaw[i] == m.peakRaw[i]
  {
    var r := UpdateFrom(m, b, 0);
    FitsFromAll(b, 0);
    assert |b| > Slots ==> r.Err? by {
      if |b| > Slots { assert !(|b[Slots]| > 0 && Slots < Slots); }
    }
    r
  }

  /** `get_peak`: a slot with a positive raw peak takes it as its level, every raw peak is
      cleared, and the reading is the levels. */
  function GetPeak(m: Meter): (r: (Meter, seq<real>))
    requires WellFormed(m)
    ensures WellFormed(r.0) && Cleared(r.0) && r.1 == r.0.peakLevel
    ensures forall i :: 0 <= i < Slots ==>
      r.1[i] == if m.peakRaw[i] > 0.0 then m.peakRaw[i] else m.peakLevel[i]
  {
    var level := seq(Slots, i requires 0 <= i < Slots =>
      if m.peakRaw[i] > 0.0 then m.peakRaw[i] else m.peakLevel[i]);
    (Meter([0.0, 0.0], level), level)
  }

  /** No raw peak is pending: the state after every read. */
  predicate Cleared(m: Meter)
    requires WellFormed(m)
  {
    forall i :: 0 <= i < Slots ==> m.peakRaw[i] == 0.0
  }

  /** Reading twice in a row gives the same levels and leaves the same meter: the second
      read finds nothing new. */
  lemma ReadTwice(m: Meter)
    requires WellFormed(m)
    ensures GetPeak(GetPeak(m).0) == GetPeak(m)
  {
    var (m1, level) := GetPeak(m);
    assert GetPeak(m1).1 == level;
  }

  /** After a read, updating with a chunk and reading again reports each present
      channel's own peak amplitude when it is positive, and the old level otherwise; a
      slot with no channel keeps its level. */
  lemma ReadingIsChunkPeak(m: Meter, b: Block)
    requires WellFormed(m) && Update(GetPeak(m).0, b).Ok?
    ensures var level := GetPeak(m).1;
      var reading := GetPeak(Update(GetPeak(m).0, b).value).1;
      && (forall c :: 0 <= c < |b| ==>
            reading[c] == if MaxAbs(b[c]) > 0.0 then MaxAbs(b[c]) else level[c])
      && (forall i :: |b| <= i < Slots ==> reading[i] == level[i])
  {
    var cleared := GetPeak(m).0;
    var u := Update(cleared, b).value;
    assert forall c :: 0 <= c < |b| ==> u.peakRaw[c] == MaxAbs(b[c]);
  }

  /** With a single channel the second slot is never written: a meter whose second slot
      is cleared at 0 dB keeps it so through any update and read. */
  ghost predicate SecondSlotIdle(m: Meter)
  {
    WellFormed(m) && m.peakRaw[1] == 0.0 && m.peakLevel[1] == 1.0
  }

  lemma MonoKeepsSecondSlot(m: Meter, b: Block)
    requires SecondSlotIdle(m) && |b| <= 1
    ensures Update(m, b).Ok? ==> SecondSlotIdle(Update(m, b).value)
    ensures SecondSlotIdle(GetPeak(m).0) && GetPeak(m).1[1] == 1.0
  {
  }
}

/** The valuation resolver: for each attributed record, the player's market
    value at the start and at the end of the record's interval, and the
    highest value recorded within it. */
module Valuations {
  import opened Tables
  import opened Attribution

  /** A valuation of the player dated on or before the day. */
  predicate OnOrBefore(v: Valuation, playerId: int, day: int) {
    v.playerId == playerId && v.date <= day
  }

  /** A valuation of the player dated within the interval, both ends included. */
  predicate Within(v: Valuation, playerId: int, s: Span) {
    v.playerId == playerId && InSpan(v.date, s)
  }

  /** The position, in the valuation table, of the latest valuation of the
      player dated on or before the day; among several on that latest date,
      the first one (`argmax` of the date column); None when there is none. */
  function LatestOnOrBefore(vals: seq<Valuation>, playerId: int, day: int): (k: Option<nat>)
    ensures k.None? <==> forall j :: 0 <= j < |vals| ==> !OnOrBefore(vals[j], playerId, day)
    ensures k.Some? ==> k.value < |vals| && OnOrBefore(vals[k.value], playerId, day)
    ensures k.Some? ==> forall j :: 0 <= j < |vals| && OnOrBefore(vals[j], playerId, day) ==>
      vals[j].date <= vals[k.value].date
    ensures k.Some? ==> forall j :: 0 <= j < k.value && OnOrBefore(vals[j], playerId, day) ==>
      vals[j].date < vals[k.value].date
  {
    if |vals| == 0 then None
    else
      var n := |vals| - 1;
      var k := LatestOnOrBefore(vals[..n], playerId, day);
      assert forall j :: 0 <= j < n ==> vals[..n][j] == vals[j];
      if OnOrBefore(vals[n], playerId, day) && (k.None? || vals[k.value].date < vals[n].date) then Some(n)
      else k
  }

  /** The highest value among the player's valuations dated within the
      interval; None when there is none. */
  function PeakWithin(vals: seq<Valuation>, playerId: int, s: Span): (r: Option<int>)
    ensures r.None? <==> forall j :: 0 <= j < |vals| ==> !Within(vals[j], playerId, s)
    ensures r.Some? ==> exists j :: 0 <= j < |vals| && Within(vals[j], playerId, s) && vals[j].marketValue == r.value
    ensures r.Some? ==> forall j :: 0 <= j < |vals| && Within(vals[j], playerId, s) ==> vals[j].marketValue <= r.value
  {
    if |vals| == 0 then None
    else
      var n := |vals| - 1;
      var r := PeakWithin(vals[..n], playerId, s);
      assert forall j :: 0 <= j < n ==> vals[..n][j] == vals[j];
      if !Within(vals[n], playerId, s) then r
      else if r.Some? && vals[n].marketValue <= r.value then r
      else Some(vals[n].marketValue)
  }

  /** Whether the player has any valuation at all. */
  predicate HasValuations(vals: seq<Valuation>, playerId: int) {
    exists j :: 0 <= j < |vals| && vals[j].playerId == playerId
  }

  /** The market value at a position found by a lookup, if any. */
  function ValueAt(vals: seq<Valuation>, k: Option<nat>): Option<int>
    requires k.Some? ==> k.value < |vals|
  {
    if k.Some? then Some(vals[k.value].marketValue) else None
  }

  /** The values of one row of `add_player_valuations`; every other column
      is left as it is. */
  function Resolve(r: AttributedRecord, vals: seq<Valuation>): (v: AttributedRecord)
    ensures v.(startValue := None, peakValue := None, endValue := None) ==
            r.(startValue := None, peakValue := None, endValue := None)
  {
    if HasValuations(vals, r.playerId) then
      r.(startValue := ValueAt(vals, LatestOnOrBefore(vals, r.playerId, r.span.start)),
         peakValue := PeakWithin(vals, r.playerId, r.span),
         endValue := ValueAt(vals, LatestOnOrBefore(vals, r.playerId, r.span.end)))
    else
      r.(startValue := None, peakValue := None, endValue := None)
  }

  /** A resolved value at a day: present exactly when the player has a
      valuation on or before the day, and then the value of the first of the
      latest such valuations. */
  ghost predicate ValueOnOrBefore(vals: seq<Valuation>, playerId: int, day: int, value: Option<int>) {
    && (value.Some? <==> exists j :: 0 <= j < |vals| && OnOrBefore(vals[j], playerId, day))
    && (value.Some? ==> exists j ::
         && 0 <= j < |vals| && OnOrBefore(vals[j], playerId, day)
         && vals[j].marketValue == value.value
         && (forall i :: 0 <= i < |vals| && OnOrBefore(vals[i], playerId, day) ==> vals[i].date <= vals[j].date)
         && (forall i :: 0 <= i < j && OnOrBefore(vals[i], playerId, day) ==> vals[i].date < vals[j].date))
  }

  /** A resolved peak: present exactly when a valuation of the player falls
      within the interval, and then the highest of those values. */
  ghost predicate PeakOver(vals: seq<Valuation>, playerId: int, s: Span, value: Option<int>) {
    && (value.Some? <==> exists j :: 0 <= j < |vals| && Within(vals[j], playerId, s))
    && (value.Some? ==>
         && (exists j :: 0 <= j < |vals| && Within(vals[j], playerId, s) && vals[j].marketValue == value.value)
         && (forall j :: 0 <= j < |vals| && Within(vals[j], playerId, s) ==> vals[j].marketValue <= value.value))
  }

  /** What resolving a row means: only the three value columns change; the
      start and end values are the latest valuations on or before the
      record's start and end dates, and the peak is the highest valuation
      within the record's interval, each absent when nothing qualifies. */
  lemma ResolvedValues(r: AttributedRecord, vals: seq<Valuation>)
    ensures var v := Resolve(r, vals);
      && v.(startValue := None, peakValue := None, endValue := None) ==
         r.(startValue := None, peakValue := None, endValue := None)
      && ValueOnOrBefore(vals, r.playerId, r.span.start, v.startValue)
      && ValueOnOrBefore(vals, r.playerId, r.span.end, v.endValue)
      && PeakOver(vals, r.playerId, r.span, v.peakValue)
  {
    var v := Resolve(r, vals);
    if HasValuations(vals, r.playerId) {
      var ks := LatestOnOrBefore(vals, r.playerId, r.span.start);
      if ks.Some? {
        assert vals[ks.value].marketValue == v.startValue.value;
      }
      var ke := LatestOnOrBefore(vals, r.playerId, r.span.end);
      if ke.Some? {
        assert vals[ke.value].marketValue == v.endValue.value;
      }
    }
  }

  /** With at most one valuation per player per date, the latest valuation on
      or before a day is the only valuation on that date, so which one
      `argmax` picks does not matter. */
  lemma LatestIsUnique(vals: seq<Valuation>, playerId: int, day: int, j: nat)
    requires forall a, b :: 0 <= a < b < |vals| && vals[a].playerId == vals[b].playerId ==> vals[a].date != vals[b].date
    requires j < |vals| && OnOrBefore(vals[j], playerId, day)
    requires forall i :: 0 <= i < |vals| && OnOrBefore(vals[i], playerId, day) ==> vals[i].date <= vals[j].date
    ensures LatestOnOrBefore(vals, playerId, day) == Some(j)
  {
  }

  /** Valuations on 2015-06-01 (10M), 2017-01-01 (20M) and 2018-01-01 (15M)
      and a record from 2016-01-01 to 2017-06-01 (days counted from
      1970-01-01) give a start value of 10M, a peak of 20M and an end value
      of 20M. */
  lemma ResolveExample(r: AttributedRecord)
    requires r.span == Span(16801, 17318)
    ensures var vals := [Valuation(r.playerId, 16587, 10000000),
                         Valuation(r.playerId, 17167, 20000000),
                         Valuation(r.playerId, 17532, 15000000)];
      var v := Resolve(r, vals);
      v.startValue == Some(10000000) && v.peakValue == Some(20000000) && v.endValue == Some(20000000)
  {
    var vals := [Valuation(r.playerId, 16587, 10000000),
                 Valuation(r.playerId, 17167, 20000000),
                 Valuation(r.playerId, 17532, 15000000)];
    assert HasValuations(vals, r.playerId) by {
      assert vals[0].playerId == r.playerId;
    }
    var ks := LatestOnOrBefore(vals, r.playerId, r.span.start);
    assert OnOrBefore(vals[0], r.playerId, r.span.start);
    assert ks == Some(0);
    var ke := LatestOnOrBefore(vals, r.playerId, r.span.end);
    assert OnOrBefore(vals[1], r.playerId, r.span.end);
    assert ke == Some(1);
    var peak := PeakWithin(vals, r.playerId, r.span);
    assert Within(vals[1], r.playerId, r.span);
    assert peak == Some(20000000);
  }

  /** `add_player_valuations`: each row of the player-manager table, in
      place, gets its start, peak and end value. */
  method AddPlayerValuations(table: array<AttributedRecord>, vals: seq<Valuation>)
    modifies table
    ensures forall i :: 0 <= i < table.Length ==> table[i] == Resolve(old(table[i]), vals)
  {
    for idx := 0 to table.Length
      invariant forall i :: 0 <= i < idx ==> table[i] == Resolve(old(table[i]), vals)
      invariant forall i :: idx <= i < table.Length ==> table[i] == old(table[i])
    {
      var player := table[idx];
      var startValue: Option<int> := None;
      var peakValue: Option<int> := None;
      var endValue: Option<int> := None;
      if HasValuations(vals, player.playerId) {
        var k := LatestOnOrBefore(vals, player.playerId, player.span.start);
        if k.Some? {
          startValue := Some(vals[k.value].marketValue);
        }
        k := LatestOnOrBefore(vals, player.playerId, player.span.end);
        if k.Some? {
          endValue := Some(vals[k.value].marketValue);
        }
        peakValue := PeakWithin(vals, player.playerId, player.span);
      }
      table[idx] := player.(startValue := startValue, peakValue := peakValue, endValue := endValue);
    }
  }
}

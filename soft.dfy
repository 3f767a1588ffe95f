// The loops of the four soft-constraint components of a schedule's
// evaluation (minimum fill, preferences, pairing, cross-division
// overlap), stated on the schedule's contents as values, and the weighted
// sum `eval()` takes of them. Each is proved equal to its component as
// defined in `Penalties`.
module SoftConstraints {
  import opened Common
  import opened Slots
  import opened Divisions
  import opened Events
  import opened Penalties

  /** The loop of `evalMinFilled()`, over the slots and the two assignments' contents. */
  method MinFilledPenalty(slots: set<Slot>, own: map<Slot, set<string>>, fixed: map<Slot, set<string>>,
                          penGameMin: int, penPracticeMin: int) returns (penalty: int)
    ensures penalty == MinFilled(OccupancyOf(slots, own, fixed), penGameMin, penPracticeMin)
  {
    ghost var occupancy := OccupancyOf(slots, own, fixed);
    penalty := 0;
    var rest := slots;
    while rest != {}
      invariant rest <= occupancy.Keys
      invariant penalty == Sum(occupancy.Keys - rest, MinFillFn(occupancy, penGameMin, penPracticeMin))
      decreases rest
    {
      var slot :| slot in rest;
      var n := |OwnIn(own, slot) + OwnIn(fixed, slot)|;
      ghost var before := penalty;
      if n < slot.min {
        if slot.isGameSlot {
          penalty := penalty + (slot.min - n) * penGameMin;
        } else {
          penalty := penalty + (slot.min - n) * penPracticeMin;
        }
      }
      MinFillStep(occupancy, penGameMin, penPracticeMin, rest, slot, n, before, penalty);
      rest := rest - {slot};
    }
    assert occupancy.Keys - rest == occupancy.Keys;
  }

  /** The loop of `evalPref()`, over every event's preferences. */
  method PrefPenalty(prefs: map<string, map<Slot, int>>, placed: map<string, Slot>) returns (penalty: int)
    ensures penalty == Pref(prefs, placed)
  {
    penalty := 0;
    var rest := prefs.Keys;
    while rest != {}
      invariant rest <= prefs.Keys
      invariant penalty == Sum(prefs.Keys - rest, PrefFn(prefs, placed))
      decreases rest
    {
      var id :| id in rest;
      var missed := MissedWeight(prefs[id], PlacedAt(placed, id));
      ghost var before := penalty;
      penalty := penalty + missed;
      SumStep(prefs.Keys, rest, PrefFn(prefs, placed), id, before, penalty);
      rest := rest - {id};
    }
    assert prefs.Keys - rest == prefs.Keys;
  }

  /** The inner loop of `evalPref()` over one event's preferences. */
  method MissedWeight(prefs: map<Slot, int>, at: Option<Slot>) returns (w: int)
    ensures w == Missed(prefs, at)
  {
    w := 0;
    var rest := prefs.Keys;
    while rest != {}
      invariant rest <= prefs.Keys
      invariant w == Sum(prefs.Keys - rest, MissFn(prefs, at))
      decreases rest
    {
      var slot :| slot in rest;
      ghost var before := w;
      if Some(slot) != at {
        w := w + prefs[slot];
      }
      SumStep(prefs.Keys, rest, MissFn(prefs, at), slot, before, w);
      rest := rest - {slot};
    }
    assert prefs.Keys - rest == prefs.Keys;
  }

  /** The loops of `evalPair()`, over every event's partners. */
  method PairPenalty(pairs: map<string, set<string>>, placed: map<string, Slot>, penNotPaired: int)
    returns (penalty: int)
    requires forall id :: id in pairs && pairs[id] != {} ==> id in placed
    ensures penalty == penNotPaired * |Unpaired(pairs, placed)|
  {
    penalty := 0;
    var explored: set<set<string>> := {};
    var rest := pairs.Keys;
    while rest != {}
      invariant rest <= pairs.Keys
      invariant explored == PairsOf(pairs, pairs.Keys - rest)
      invariant penalty == penNotPaired * |UnpairedAmong(explored, placed)|
      decreases rest
    {
      var id :| id in rest;
      var partners := pairs[id];
      while partners != {}
        invariant partners <= pairs[id]
        invariant explored == PairsOf(pairs, pairs.Keys - rest) + set b | b in pairs[id] - partners :: {id, b}
        invariant penalty == penNotPaired * |UnpairedAmong(explored, placed)|
        decreases partners
      {
        var b :| b in partners;
        var pair := {id, b};
        ghost var explored0, before := explored, penalty;
        if pair !in explored {
          explored := explored + {pair};
          if !OverlapsOpt(placed[id], PlacedAt(placed, b)) {
            penalty := penalty + penNotPaired;
          }
        }
        ExploreStep(pairs, placed, pairs.Keys - rest, id, partners, b, penNotPaired, explored0, explored, before, penalty);
        partners := partners - {b};
      }
      PairsOfStep(pairs, pairs.Keys - rest, id);
      assert pairs.Keys - rest + {id} == pairs.Keys - (rest - {id});
      rest := rest - {id};
    }
    assert pairs.Keys - rest == pairs.Keys;
  }

  /** The body of `eval()` on the schedule's contents: each component's loop, then the weighted sum. */
  method Evaluation(w: Weights, slots: set<Slot>, own: map<Slot, set<string>>, fixed: map<Slot, set<string>>,
                    prefs: map<string, map<Slot, int>>, pairs: map<string, set<string>>,
                    events: map<string, Event>, placed: map<string, Slot>) returns (value: int)
    requires EventsKeyed(events) && events.Keys <= placed.Keys && pairs.Keys <= placed.Keys
    ensures value == Evaluate(w, OccupancyOf(slots, own, fixed), prefs, pairs, DivisionsOf(events), placed)
  {
    var minFilled := MinFilledPenalty(slots, own, fixed, w.penGameMin, w.penPracticeMin);
    var pref := PrefPenalty(prefs, placed);
    var pair := PairPenalty(pairs, placed, w.penNotPaired);
    var secDiff := SecDiffPenalty(events, placed, w.penSection);
    value := Weighted(w, minFilled, pref, pair, secDiff);
    EvaluateOf(w, OccupancyOf(slots, own, fixed), prefs, pairs, DivisionsOf(events), placed, minFilled, pref, pair, secDiff);
  }

  /** The first loop of `evalSecDiff()`: the events grouped into one list per tier. */
  method GroupByTier(events: map<string, Event>) returns (tiers: map<string, seq<Event>>)
    requires EventsKeyed(events)
    ensures forall t :: t in tiers ==> TierListOk(tiers[t], t, events.Keys, events)
    ensures forall id :: id in events ==> events[id].division.tier in tiers
  {
    tiers := map[];
    var rest := events.Keys;
    while rest != {}
      invariant rest <= events.Keys
      invariant forall t :: t in tiers ==> TierListOk(tiers[t], t, events.Keys - rest, events)
      invariant forall id :: id in events.Keys - rest ==> events[id].division.tier in tiers
      decreases rest
    {
      var id :| id in rest;
      var e := events[id];
      var t := e.division.tier;
      ghost var done := events.Keys - rest;
      var list := if t in tiers then tiers[t] else [];
      assert TierListOk(list, t, done, events);
      assert Ids(list + [e]) == Ids(list) + [id];
      tiers := tiers[t := list + [e]];
      rest := rest - {id};
      assert events.Keys - rest == done + {id};
    }
  }

  /** The two inner loops of `evalSecDiff()` over one tier's list. */
  method TierPenalty(tier: seq<Event>, ghost t: string, ghost events: map<string, Event>,
                     placed: map<string, Slot>, penSection: int, penalty0: int) returns (penalty: int)
    requires TierListOk(tier, t, events.Keys, events)
    requires events.Keys <= placed.Keys
    ensures penalty == penalty0 + penSection * |SectionClashesIn(DivisionsOf(events), placed, {t})|
  {
    ghost var ids := Ids(tier);
    ghost var divs := DivisionsOf(events);
    penalty := penalty0;
    assert ClashesUpTo(ids, divs, placed, 0, 1) == {};
    var i := 0;
    while i < |tier| - 1
      invariant 0 <= i && (i <= |tier| - 1 || i == 0)
      invariant penalty == TierCharge(tier, events, placed, penSection, penalty0, i, i + 1)
    {
      penalty := TierPairsFrom(tier, t, events, placed, penSection, penalty0, i, penalty);
      ClashesUpToNext(ids, divs, placed, i);
      i := i + 1;
    }
    ClashesUpToTier(ids, divs, placed, t, i);
  }

  /** The inner loop of `evalSecDiff()`: event `i` of a tier against every later one. */
  method TierPairsFrom(tier: seq<Event>, ghost t: string, ghost events: map<string, Event>,
                       placed: map<string, Slot>, penSection: int, ghost penalty0: int, i: int, start: int)
    returns (penalty: int)
    requires TierRegistered(tier, t, events) && events.Keys <= placed.Keys
    requires 0 <= i < |tier| - 1
    requires start == TierCharge(tier, events, placed, penSection, penalty0, i, i + 1)
    ensures penalty == TierCharge(tier, events, placed, penSection, penalty0, i, |tier|)
  {
    TierClashTest(tier, t, events, placed, i, i + 1);
    var at, division := placed[tier[i].id], tier[i].division;
    penalty := start;
    var j := i + 1;
    while j < |tier|
      invariant i + 1 <= j <= |tier|
      invariant penalty == TierCharge(tier, events, placed, penSection, penalty0, i, j)
    {
      ghost var before := penalty;
      if OverlapsOpt(at, PlacedAt(placed, tier[j].id)) && !Same(division, tier[j].division) {
        penalty := penalty + penSection;
      }
      TierPairStep(tier, t, events, placed, i, j, penSection, penalty0, before, penalty);
      j := j + 1;
    }
  }

  /** The loops of `evalSecDiff()`: group the events by tier, then walk each tier's pairs. */
  method SecDiffPenalty(events: map<string, Event>, placed: map<string, Slot>, penSection: int)
    returns (penalty: int)
    requires EventsKeyed(events) && events.Keys <= placed.Keys
    ensures penalty == penSection * |SectionClashes(DivisionsOf(events), placed)|
  {
    var tiers := GroupByTier(events);
    ghost var divs := DivisionsOf(events);
    penalty := 0;
    var rest := tiers.Keys;
    while rest != {}
      invariant rest <= tiers.Keys
      invariant penalty == penSection * |SectionClashesIn(divs, placed, tiers.Keys - rest)|
      decreases rest
    {
      var t :| t in rest;
      ghost var done := tiers.Keys - rest;
      ghost var before := penalty;
      penalty := TierPenalty(tiers[t], t, events, placed, penSection, penalty);
      SectionClashesInStep(divs, placed, done, t);
      TiersStep(penSection, before, penalty, SectionClashesIn(divs, placed, done), SectionClashesIn(divs, placed, {t}));
      rest := rest - {t};
      assert tiers.Keys - rest == done + {t};
    }
    assert tiers.Keys - rest == tiers.Keys;
    SectionClashesAll(divs, placed, tiers.Keys);
  }

  /** The division of every event, by id. */
  function DivisionsOf(events: map<string, Event>): map<string, Division> {
    map id | id in events :: events[id].division
  }

  /** A tier's list: events of tier `t` from `events`, no id twice, exactly those among `done`. */
  ghost predicate TierListOk(list: seq<Event>, t: string, done: set<string>, events: map<string, Event>) {
    TierRegistered(list, t, events)
    && (forall id :: id in Ids(list) <==> id in done && id in events && events[id].division.tier == t)
  }

  /** A list of events of tier `t`, no id twice, each stored in `events` under its own id. */
  ghost predicate TierRegistered(list: seq<Event>, t: string, events: map<string, Event>) {
    Distinct(Ids(list))
    && (forall i :: 0 <= i < |list| ==> list[i].id in events && events[list[i].id] == list[i] && list[i].division.tier == t)
  }

  /** The test `evalSecDiff()` applies to positions `i < j` of a tier's list is a section clash. */
  lemma TierClashTest(tier: seq<Event>, t: string, events: map<string, Event>, placed: map<string, Slot>, i: int, j: int)
    requires TierRegistered(tier, t, events) && events.Keys <= placed.Keys
    requires 0 <= i < j < |tier|
    ensures tier[i].id in placed
    ensures (OverlapsOpt(placed[tier[i].id], PlacedAt(placed, tier[j].id)) && !Same(tier[i].division, tier[j].division))
      <==> SectionClash(DivisionsOf(events), placed, Ids(tier)[i], Ids(tier)[j])
  {
    var ids := Ids(tier);
    assert ids[i] in ids && ids[j] in ids;
    assert ids[i] != ids[j];
  }

  /** The penalty after the loops of `evalSecDiff()` reach positions `i`, `j` of a tier's list. */
  ghost function TierCharge(tier: seq<Event>, events: map<string, Event>, placed: map<string, Slot>,
                            pen: int, penalty0: int, i: int, j: int): int
  {
    penalty0 + pen * |ClashesUpTo(Ids(tier), DivisionsOf(events), placed, i, j)|
  }

  /** One step of the inner loop of `evalSecDiff()` adds the penalty exactly for a new section clash. */
  lemma TierPairStep(tier: seq<Event>, t: string, events: map<string, Event>, placed: map<string, Slot>,
                     i: int, j: int, pen: int, penalty0: int, before: int, after: int)
    requires TierRegistered(tier, t, events) && events.Keys <= placed.Keys
    requires 0 <= i < j < |tier|
    requires tier[i].id in placed
    requires before == TierCharge(tier, events, placed, pen, penalty0, i, j)
    requires after == before +
      (if OverlapsOpt(placed[tier[i].id], PlacedAt(placed, tier[j].id)) && !Same(tier[i].division, tier[j].division)
       then pen else 0)
    ensures after == TierCharge(tier, events, placed, pen, penalty0, i, j + 1)
  {
    TierClashTest(tier, t, events, placed, i, j);
    TierStep(Ids(tier), DivisionsOf(events), placed, i, j, pen, penalty0, before, after);
  }

  lemma TiersStep(p: int, before: int, after: int, a: set<set<string>>, b: set<set<string>>)
    requires a * b == {}
    requires before == p * |a| && after == before + p * |b|
    ensures after == p * |a + b|
  {
    assert |a + b| == |a| + |b|;
  }

  /** The ids of a list of events, in order. */
  function Ids(list: seq<Event>): (r: seq<string>)
    ensures |r| == |list| && forall i :: 0 <= i < |list| ==> r[i] == list[i].id
  {
    seq(|list|, i requires 0 <= i < |list| => list[i].id)
  }
}

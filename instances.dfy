/**
 * The problem instance (slots, events, weights and the fixed partial
 * assignment) and schedules over it. The two refer to each other: an
 * instance owns its partial schedule, and every schedule reads its
 * instance, so both live in this module.
 */
module Instances {
  import opened Common
  import opened Slots
  import opened Divisions
  import opened Events
  import opened Penalties
  import opened SoftConstraints

  /**
   * The incompatibility that registering `e` creates with an event `o`
   * already present. When either is a game: the divisions are the same, or
   * both are U15-U19 games. When both are practices: the source tests the
   * NEW event's division for the "all" wildcard (twice) and never the other
   * event's, then asks for the same division.
   */
  predicate Clashes(e: Event, o: Event) {
    ClashesAs(e.isGame, e.division, o)
  }

  /** `Clashes` for a new event given by its kind and division. */
  predicate ClashesAs(isGame: bool, d: Division, o: Event) {
    if isGame || o.isGame then
      Same(d, o.division) || (isGame && IsU15toU19(d) && o.isGame && o.IsU15toU19())
    else
      d.div == AllDivs && Same(d, o.division)
  }

  /** CMSA U12T1 and U13T1 games come with a special practice. */
  predicate NeedsSpecialPractice(e: Event) {
    e.isGame && e.division.league == "CMSA" && (e.division.tier == "U12T1" || e.division.tier == "U13T1")
  }

  /** The identifier of the special practice of a CMSA U12T1/U13T1 game. */
  function SpecialPracticeId(e: Event): string {
    "CMSA " + e.division.tier + "S"
  }

  /** The special practice's identifier is one the `Event` constructor accepts, as a practice of every division. */
  lemma SpecialPracticeIdReads(e: Event)
    requires NeedsSpecialPractice(e)
    ensures ParseEventId(SpecialPracticeId(e), false) == Success(Division("CMSA", e.division.tier + "S", AllDivs))
  {
    var t := e.division.tier + "S";
    assert SpecialPracticeId(e) == Join(["CMSA", t]);
    SpecialPracticeIdParses(t);
  }

  /** The division the special practice's identifier reads as. */
  function SpecialDivision(e: Event): Division {
    Division("CMSA", e.division.tier + "S", AllDivs)
  }

  /** Whether registering `e` over the events `evs` also registers a new special practice. */
  predicate SpecialAdded(e: Event, evs: map<string, Event>) {
    NeedsSpecialPractice(e) && SpecialPracticeId(e) != e.id && SpecialPracticeId(e) !in evs
  }

  /** The identifiers registered after `addEvent(e)` over the events `evs`, when `e`'s is new. */
  function AddedIds(e: Event, evs: map<string, Event>): set<string> {
    evs.Keys + {e.id} + (if SpecialAdded(e, evs) then {SpecialPracticeId(e)} else {})
  }

  /** The incompatibility relation after `addEvent(e)`: `e`, then its special practice, registered. */
  function AddedRel(m: map<string, set<string>>, e: Event, evs: map<string, Event>): map<string, set<string>> {
    var r := Registered(m, e.id, e.isGame, e.division, evs);
    if SpecialAdded(e, evs) then Registered(r, SpecialPracticeId(e), false, SpecialDivision(e), evs[e.id := e])
    else r
  }

  /** The pairing relation after `addEvent(e)`: the new events pair with nothing. */
  function AddedPairs(p: map<string, set<string>>, e: Event, evs: map<string, Event>): map<string, set<string>> {
    if SpecialAdded(e, evs) then p[e.id := {}][SpecialPracticeId(e) := {}] else p[e.id := {}]
  }

  class Instance {
    const wMinFilled: int
    const wPref: int
    const wPair: int
    const wSecDiff: int
    const penGameMin: int
    const penPracticeMin: int
    const penNotPaired: int
    const penSection: int

    var slots: map<string, Slot>
    var events: map<string, Event>
    var partialAssignment: map<string, Option<Slot>>
    var partialSchedule: Schedule?

    ghost predicate EventsKeyedById()
      reads this`events
    {
      EventsKeyed(events)
    }

    ghost predicate SlotsKeyedById()
      reads this`slots
    {
      SlotsKeyed(slots)
    }

    /** The incompatibility and pairing relations, keyed by event id. */
    ghost function Incompat(): map<string, set<string>>
      reads this`events, events.Values`incompatibleEvents
    {
      IncompatOf(events)
    }

    function PairRel(): map<string, set<string>>
      reads this`events, events.Values`pairs
    {
      map k | k in events :: events[k].pairs
    }

    /** The tables are keyed by id and the partial schedule belongs to this instance. */
    ghost predicate Wired()
      reads this`events, this`slots, this`partialSchedule, partialSchedule
    {
      EventsKeyedById() && SlotsKeyedById()
      && partialSchedule != null && partialSchedule.instance == this
      && partialSchedule.isPartialAssignment && partialSchedule.Valid()
    }

    ghost predicate Valid()
      reads this`events, this`slots, this`partialSchedule, events.Values`incompatibleEvents, events.Values`pairs, partialSchedule
    {
      Wired() && RelationsOk(Incompat(), PairRel())
    }

    /** `e` is the event registered under its id, and incompatibility is symmetric and irreflexive. */
    ghost predicate Registers(e: Event)
      reads this`events, events.Values
    {
      e.id in events && events[e.id] == e && SymmetricRel(Incompat()) && IrreflexiveRel(Incompat())
    }

    constructor (wMinFilled: int, wPref: int, wPair: int, wSecDiff: int,
                 penGameMin: int, penPracticeMin: int, penNotPaired: int, penSection: int)
      ensures Valid() && fresh(partialSchedule)
      ensures slots == map[] && events == map[] && partialAssignment == map[]
      ensures partialSchedule.schedule == map[]
      ensures this.wMinFilled == wMinFilled && this.wPref == wPref && this.wPair == wPair
      ensures this.wSecDiff == wSecDiff && this.penGameMin == penGameMin
      ensures this.penPracticeMin == penPracticeMin && this.penNotPaired == penNotPaired
      ensures this.penSection == penSection
    {
      this.wMinFilled := wMinFilled;
      this.wPref := wPref;
      this.wPair := wPair;
      this.wSecDiff := wSecDiff;
      this.penGameMin := penGameMin;
      this.penPracticeMin := penPracticeMin;
      this.penNotPaired := penNotPaired;
      this.penSection := penSection;
      slots := map[];
      events := map[];
      partialAssignment := map[];
      partialSchedule := null;
      new;
      partialSchedule := new Schedule(this, true);
    }

    /** `getSlot`: the slot stored under "day time type", if any. */
    function GetSlot(day: string, startTime: string, kind: string): (r: Option<Slot>)
      reads this`slots
      ensures SlotsKeyedById() && r.Some? ==>
        r.value in slots.Values && r.value.id == day + " " + startTime + " " + kind
      ensures SlotsKeyedById() && r.None? ==>
        forall s :: s in slots.Values ==> s.id != day + " " + startTime + " " + kind
    {
      var key := day + " " + startTime + " " + kind;
      if key in slots then Some(slots[key]) else None
    }

    /** The slot `addEvent` fixes a special practice to: Tuesday 18:00, if the instance has it. */
    function SpecialSlot(): Option<Slot>
      reads this`slots
    {
      GetSlot("TU", "18:00", "practice")
    }

    /**
     * The slot of the event's kind with that day and time, as looked up in
     * `getGameSlots()` / `getPracticeSlots()`.
     */
    function SlotOfKind(day: string, startTime: string, isGame: bool): (r: Option<Slot>)
      reads this`slots
      ensures r.Some? ==> r.value in slots.Values && r.value.isGameSlot == isGame
      ensures SlotsKeyedById() && r.Some? ==> r.value.id == SlotId(day, startTime, isGame)
      ensures SlotsKeyedById() && r.None? ==>
        forall s :: s in slots.Values && s.id == SlotId(day, startTime, isGame) ==> s.isGameSlot != isGame
    {
      var key := SlotId(day, startTime, isGame);
      if key in slots && slots[key].isGameSlot == isGame then Some(slots[key]) else None
    }

    method AddSlot(slot: Slot)
      requires Valid()
      modifies this`slots
      ensures Valid()
      ensures slots == old(slots)[slot.id := slot]
    {
      slots := slots[slot.id := slot];
    }

    /**
     * The relations, read through the event map, after the two events named
     * by `l` gained each other in the relations `l` selects and nothing else
     * changed.
     */
    twostate lemma LinkedSets(l: Link)
      requires old(EventsKeyedById()) && unchanged(this)
      requires {l.id1, l.id2} <= events.Keys
      requires forall o :: o in events.Values && o != events[l.id1] && o != events[l.id2] ==> unchanged(o)
      requires events[l.id1].incompatibleEvents == old(events[l.id1].incompatibleEvents) + (if l.incompat then {l.id2} else {})
      requires events[l.id2].incompatibleEvents == old(events[l.id2].incompatibleEvents) + (if l.incompat then {l.id1} else {})
      requires events[l.id1].pairs == old(events[l.id1].pairs) + (if l.pair then {l.id2} else {})
      requires events[l.id2].pairs == old(events[l.id2].pairs) + (if l.pair then {l.id1} else {})
      ensures Incompat() == LinkRel(old(Incompat()), l.id1, l.id2, l.incompat)
      ensures PairRel() == LinkRel(old(PairRel()), l.id1, l.id2, l.pair)
    {
      forall k | k in events
        ensures Incompat()[k] == old(Incompat())[k] + (if l.incompat then LinkSet(k, l.id1, l.id2) else {})
        ensures PairRel()[k] == old(PairRel())[k] + (if l.pair then LinkSet(k, l.id1, l.id2) else {})
      {
        assert old(Incompat())[k] == old(events[k].incompatibleEvents);
        assert old(PairRel())[k] == old(events[k].pairs);
        if k != l.id1 && k != l.id2 {
          assert events[k] != events[l.id1] && events[k] != events[l.id2];
          assert events[k] in events.Values;
        }
      }
      LinkRelPointwise(old(Incompat()), Incompat(), l.id1, l.id2, l.incompat);
      LinkRelPointwise(old(PairRel()), PairRel(), l.id1, l.id2, l.pair);
    }

    /**
     * Linking two registered events both ways, in the incompatibility
     * relation (between different events) or in the pairing relation, and
     * changing nothing else, keeps the instance valid.
     */
    twostate lemma LinkKeepsValid(l: Link)
      requires old(Valid()) && unchanged(this) && unchanged(partialSchedule)
      requires {l.id1, l.id2} <= events.Keys && (l.incompat ==> l.id1 != l.id2)
      requires Incompat() == LinkRel(old(Incompat()), l.id1, l.id2, l.incompat)
      requires PairRel() == LinkRel(old(PairRel()), l.id1, l.id2, l.pair)
      ensures Valid()
    {
      LinkPreserves(old(Incompat()), l.id1, l.id2, l.incompat);
      LinkPreserves(old(PairRel()), l.id1, l.id2, l.pair);
    }

    /** `addIncompatible`: both directions, when both ids are known and differ. */
    method AddIncompatible(id1: string, id2: string)
      requires Wired()
      modifies (if id1 in events && id2 in events then {events[id1], events[id2]} else {})`incompatibleEvents
      ensures Wired() && (old(Valid()) ==> Valid())
      ensures id1 in events && id2 in events ==>
        Incompat() == LinkRel(old(Incompat()), id1, id2, id1 != id2)
      ensures PairRel() == old(PairRel())
      ensures id1 in events && id2 in events ==>
        events[id1].unwantedSlots == old(events[id1].unwantedSlots)
        && events[id2].unwantedSlots == old(events[id2].unwantedSlots)
        && events[id1].preferences == old(events[id1].preferences)
        && events[id2].preferences == old(events[id2].preferences)
    {
      ghost var wasValid := Valid();
      if id1 in events && id2 in events {
        var e1, e2 := events[id1], events[id2];
        e1.SetIncompatible(e2);
        e2.SetIncompatible(e1);
        assert Incompat() == LinkRel(old(Incompat()), id1, id2, id1 != id2)
          && PairRel() == LinkRel(old(PairRel()), id1, id2, false) by {
          LinkedSets(Link(id1, id2, id1 != id2, false));
        }
        LinkRelUnlinked(old(PairRel()), id1, id2);
        if wasValid {
          LinkKeepsValid(Link(id1, id2, id1 != id2, false));
        }
      }
    }

    /** `addPair`: both directions, when both ids are known (an event may pair with itself). */
    method AddPair(id1: string, id2: string)
      requires Valid()
      modifies if id1 in events && id2 in events then {events[id1], events[id2]} else {}
      ensures Valid()
      ensures id1 in events && id2 in events ==>
        PairRel() == LinkRel(old(PairRel()), id1, id2, true)
      ensures Incompat() == old(Incompat())
      ensures id1 in events && id2 in events ==>
        events[id1].unwantedSlots == old(events[id1].unwantedSlots)
        && events[id2].unwantedSlots == old(events[id2].unwantedSlots)
        && events[id1].preferences == old(events[id1].preferences)
        && events[id2].preferences == old(events[id2].preferences)
    {
      if id1 in events && id2 in events {
        var e1, e2 := events[id1], events[id2];
        e1.SetPair(e2);
        e2.SetPair(e1);
        assert Valid() && PairRel() == LinkRel(old(PairRel()), id1, id2, true)
          && Incompat() == old(Incompat()) by {
          LinkedSets(Link(id1, id2, false, true));
          LinkKeepsValid(Link(id1, id2, false, true));
          LinkRelUnlinked(old(Incompat()), id1, id2);
        }
      }
    }

    /**
     * The relations, read through the event map, after a fresh event with no
     * relations has been put under a new key.
     */
    twostate lemma RegisteredSets(e: Event)
      requires old(EventsKeyedById()) && e.id !in old(events) && events == old(events)[e.id := e]
      requires e.incompatibleEvents == {} && e.pairs == {}
      requires unchanged(old(events.Values))
      ensures Incompat() == old(Incompat())[e.id := {}]
      ensures PairRel() == old(PairRel())[e.id := {}]
    {
      forall k | k in old(events)
        ensures Incompat()[k] == old(Incompat())[k] && PairRel()[k] == old(PairRel())[k]
      {
        assert old(events)[k] in old(events.Values);
      }
      ExtendPointwise(old(Incompat()), Incompat(), e.id);
      ExtendPointwise(old(PairRel()), PairRel(), e.id);
    }

    /**
     * `addEvent` without the special practice: the event is put under its id
     * and linked as incompatible to every other registered event it clashes
     * with.
     */
    method RegisterEvent(e: Event)
      requires Valid() && e.id !in events
      requires e.incompatibleEvents == {} && e.pairs == {}
      modifies this`events, events.Values`incompatibleEvents, e`incompatibleEvents
      ensures Valid()
      ensures events == old(events)[e.id := e]
      ensures Incompat() == Registered(old(Incompat()), e.id, e.isGame, e.division, old(events))
      ensures PairRel() == old(PairRel())[e.id := {}]
    {
      events := events[e.id := e];
      ghost var m0 := Incompat();
      assert m0 == old(Incompat())[e.id := {}] && PairRel() == old(PairRel())[e.id := {}] && Valid() by {
        RegisteredSets(e);
        ExtendPreserves(old(Incompat()), e.id);
        ExtendPreserves(old(PairRel()), e.id);
      }
      LinkClashes(e, old(events));
    }

    /** The loop of `addEvent`: `e` is linked to every registered event it clashes with. */
    method LinkClashes(e: Event, ghost o: map<string, Event>)
      requires Valid() && e.id !in o && events == o[e.id := e]
      modifies events.Values`incompatibleEvents
      ensures Valid()
      ensures Incompat() == AddClashes(old(Incompat()), e.id, ClashIds(e, o))
      ensures PairRel() == old(PairRel())
    {
      ghost var m0 := Incompat();
      assert e.id in m0 && ClosedRel(m0) && SymmetricRel(m0) && IrreflexiveRel(m0);
      var rest := events.Keys;
      ghost var done: set<string> := {};
      assert ClashIdsIn(e, o, done) == {};
      AddClashesNone(m0, e.id);
      while rest != {}
        invariant events == o[e.id := e]
        invariant done + rest == events.Keys
        invariant Wired()
        invariant Incompat() == AddClashes(m0, e.id, ClashIdsIn(e, o, done))
        invariant PairRel() == old(PairRel())
        decreases rest
      {
        var k :| k in rest;
        assert events[e.id] in events.Values && events[k] in events.Values;
        MoveOne(events.Keys, done, rest, k);
        LinkStep(e, k, m0, o, done);
        done, rest := done + {k}, rest - {k};
      }
      assert ClashIdsIn(e, o, done) == ClashIds(e, o);
      AddClashesKeepsRels(m0, e.id, ClashIds(e, o));
    }

    /** One pass of the loop of `RegisterEvent`, stated on the relation it builds. */
    method LinkStep(e: Event, k: string, ghost m0: map<string, set<string>>, ghost o: map<string, Event>, ghost done: set<string>)
      requires Wired() && k in events && events == o[e.id := e] && m0.Keys == events.Keys
      requires Incompat() == AddClashes(m0, e.id, ClashIdsIn(e, o, done))
      modifies {e, events[k]}`incompatibleEvents
      ensures events == old(events) && Wired()
      ensures Incompat() == AddClashes(m0, e.id, ClashIdsIn(e, o, done + {k}))
      ensures PairRel() == old(PairRel())
    {
      ghost var before := Incompat();
      var linked := LinkIfClashing(e, k);
      ghost var after := Incompat();
      assert linked == (k != e.id && Clashes(e, o[k])) by {
        assert k != e.id ==> k in o && o[k] == events[k];
      }
      ClashStep(m0, e, o, done, k, linked, before, after);
    }

    /** One step of `addEvent`'s loop: link `e` and the event under `k` when they clash. */
    method LinkIfClashing(e: Event, k: string) returns (linked: bool)
      requires Wired() && e.id in events && events[e.id] == e && k in events
      modifies {e, events[k]}`incompatibleEvents
      ensures Wired()
      ensures linked == (k != e.id && Clashes(e, events[k]))
      ensures Incompat() == if linked then LinkRel(old(Incompat()), e.id, k, true) else old(Incompat())
      ensures PairRel() == old(PairRel())
    {
      linked := k != e.id && Clashes(e, events[k]);
      if Clashes(e, events[k]) {
        AddIncompatible(e.id, k);
        if k == e.id {
          LinkRelUnlinked(old(Incompat()), e.id, k);
        }
      }
    }

    /**
     * `addEvent`: a known identifier is left alone; otherwise the event is
     * registered and linked to what it clashes with, and a CMSA U12T1/U13T1
     * game brings its special practice, fixed to Tuesday 18:00 in the
     * partial assignment and the partial schedule.
     */
    method AddEvent(e: Event)
      requires Valid() && (e.id !in events ==> e.incompatibleEvents == {} && e.pairs == {})
      modifies this`events, this`partialAssignment, events.Values`incompatibleEvents, e`incompatibleEvents, partialSchedule`schedule, partialSchedule`slotContents
      decreases if e.isGame then 1 else 0, 1, 0
      ensures Valid()
      ensures e.id in old(events) ==>
        events == old(events) && Incompat() == old(Incompat()) && PairRel() == old(PairRel())
        && partialAssignment == old(partialAssignment) && partialSchedule.schedule == old(partialSchedule.schedule)
      ensures e.id !in old(events) ==>
        events.Keys == AddedIds(e, old(events)) && KeepsEntries(old(events), events) && events[e.id] == e
        && Incompat() == AddedRel(old(Incompat()), e, old(events))
        && PairRel() == AddedPairs(old(PairRel()), e, old(events))
      ensures e.id !in old(events) ==>
        partialAssignment ==
          if NeedsSpecialPractice(e)
          then old(partialAssignment)[SpecialPracticeId(e) := SpecialSlot()]
          else old(partialAssignment)
      ensures partialSchedule.schedule ==
        if e.id !in old(events) && NeedsSpecialPractice(e)
          && SpecialLands(e, if SpecialAdded(e, old(events)) then Incompat()[SpecialPracticeId(e)] else {},
                          old(partialSchedule.schedule), old(partialSchedule.slotContents))
        then old(partialSchedule.schedule)[SpecialPracticeId(e) := SpecialSlot().value]
        else old(partialSchedule.schedule)
      ensures e.id in old(events) || !NeedsSpecialPractice(e) ==>
        partialSchedule.slotContents == old(partialSchedule.slotContents)
      ensures e.id in old(events) ==> e.incompatibleEvents == old(e.incompatibleEvents)
    {
      if e.id in events {
        return;
      }
      AddNewEvent(e);
    }

    /** `addEvent` for an identifier the instance does not know yet. */
    method AddNewEvent(e: Event)
      requires Valid() && e.id !in events && e.incompatibleEvents == {} && e.pairs == {}
      modifies this`events, this`partialAssignment, events.Values`incompatibleEvents, e`incompatibleEvents, partialSchedule`schedule, partialSchedule`slotContents
      decreases if e.isGame then 1 else 0, 0, 1
      ensures Valid()
      ensures events.Keys == AddedIds(e, old(events)) && KeepsEntries(old(events), events) && events[e.id] == e
      ensures Incompat() == AddedRel(old(Incompat()), e, old(events))
      ensures PairRel() == AddedPairs(old(PairRel()), e, old(events))
      ensures partialAssignment ==
        if NeedsSpecialPractice(e) then old(partialAssignment)[SpecialPracticeId(e) := SpecialSlot()]
        else old(partialAssignment)
      ensures partialSchedule.schedule ==
        if NeedsSpecialPractice(e)
          && SpecialLands(e, if SpecialAdded(e, old(events)) then Incompat()[SpecialPracticeId(e)] else {},
                          old(partialSchedule.schedule), old(partialSchedule.slotContents))
        then old(partialSchedule.schedule)[SpecialPracticeId(e) := SpecialSlot().value]
        else old(partialSchedule.schedule)
      ensures !NeedsSpecialPractice(e) ==> partialSchedule.slotContents == old(partialSchedule.slotContents)
    {
      ghost var ev0, inc0, pr0 := events, Incompat(), PairRel();
      ghost var fx0, sc0 := partialSchedule.schedule, partialSchedule.slotContents;
      RegisterEvent(e);
      if NeedsSpecialPractice(e) {
        ghost var ev1, inc1, pr1 := events, Incompat(), PairRel();
        assert (SpecialPracticeId(e) in ev1) == !SpecialAdded(e, ev0);
        assert partialSchedule.schedule == fx0 && partialSchedule.slotContents == sc0;
        AddSpecialPractice(e);
        SpecialPracticeAdded(e, ev0, inc0, pr0, ev1, inc1, pr1, events, Incompat(), PairRel());
      }
      // The source then puts the event under its id a second time: the same
      // entry is already there, so the map stays as it is.
    }

    /** The special-practice part of `addEvent`, once the game is registered. */
    method AddSpecialPractice(e: Event)
      requires Valid() && NeedsSpecialPractice(e)
      modifies this`events, this`partialAssignment, events.Values`incompatibleEvents, partialSchedule`schedule, partialSchedule`slotContents
      decreases 1, 0, 0
      ensures Valid()
      ensures KeepsEntries(old(events), events)
      ensures events.Keys == old(events).Keys + {SpecialPracticeId(e)}
      ensures Incompat() ==
        if SpecialPracticeId(e) in old(events) then old(Incompat())
        else Registered(old(Incompat()), SpecialPracticeId(e), false, SpecialDivision(e), old(events))
      ensures PairRel() ==
        if SpecialPracticeId(e) in old(events) then old(PairRel()) else old(PairRel())[SpecialPracticeId(e) := {}]
      ensures partialAssignment == old(partialAssignment)[SpecialPracticeId(e) := SpecialSlot()]
      ensures partialSchedule.schedule ==
        if SpecialLands(e, if SpecialPracticeId(e) in old(events) then {} else Incompat()[SpecialPracticeId(e)],
                        old(partialSchedule.schedule), old(partialSchedule.slotContents))
        then old(partialSchedule.schedule)[SpecialPracticeId(e) := SpecialSlot().value]
        else old(partialSchedule.schedule)
    {
      ghost var fx0, sc0 := partialSchedule.schedule, partialSchedule.slotContents;
      ghost var known := SpecialPracticeId(e) in events;
      var sp := RegisterSpecialPractice(e);
      ghost var inc1 := Incompat();
      var landed := FixSpecialPractice(sp);
      assert Incompat() == inc1;
      assert sp.IsEvening() == Divisions.IsEvening(SpecialDivision(e));
      assert landed == SpecialLands(e, if known then {} else inc1[sp.id], fx0, sc0);
    }

    /**
     * The `new Event(...)` and `addEvent` of a special practice: registered
     * unless its identifier is known, with the partial assignment and the
     * partial schedule untouched.
     */
    method RegisterSpecialPractice(e: Event) returns (sp: Event)
      requires Valid() && NeedsSpecialPractice(e)
      modifies this`events, this`partialAssignment, events.Values`incompatibleEvents, partialSchedule`schedule, partialSchedule`slotContents
      decreases 0, 2, 0
      ensures Valid()
      ensures sp.id == SpecialPracticeId(e) && !sp.isGame && sp.division == SpecialDivision(e)
      ensures KeepsEntries(old(events), events)
      ensures events.Keys == old(events).Keys + {SpecialPracticeId(e)}
      ensures Incompat() ==
        if SpecialPracticeId(e) in old(events) then old(Incompat())
        else Registered(old(Incompat()), SpecialPracticeId(e), false, SpecialDivision(e), old(events))
      ensures PairRel() ==
        if SpecialPracticeId(e) in old(events) then old(PairRel()) else old(PairRel())[SpecialPracticeId(e) := {}]
      ensures partialAssignment == old(partialAssignment)
      ensures partialSchedule.schedule == old(partialSchedule.schedule)
      ensures partialSchedule.slotContents == old(partialSchedule.slotContents)
      ensures sp.incompatibleEvents == if SpecialPracticeId(e) in old(events) then {} else Incompat()[SpecialPracticeId(e)]
    {
      ghost var ev0, inc0, pr0, pa0, fx0 := events, Incompat(), PairRel(), partialAssignment, partialSchedule.schedule;
      sp := NewSpecialPractice(e);
      assert Valid() && events == ev0 && Incompat() == inc0 && PairRel() == pr0
        && partialAssignment == pa0 && partialSchedule.schedule == fx0;
      AddEvent(sp);
      assert events.Keys == ev0.Keys + {sp.id} && KeepsEntries(ev0, events);
    }

    /** The fixed Tuesday 18:00 assignment of a special practice just registered. */
    method FixSpecialPractice(sp: Event) returns (ok: bool)
      requires Valid()
      modifies this`partialAssignment, partialSchedule`schedule, partialSchedule`slotContents
      ensures Valid() && events == old(events)
      ensures Incompat() == old(Incompat()) && PairRel() == old(PairRel())
      ensures partialAssignment == old(partialAssignment)[sp.id := SpecialSlot()]
      ensures ok <==>
        SpecialSlot().Some? && SpecialSlot().value in slots.Values && sp.id in events
        && Fits(sp, SpecialSlot().value, |OwnIn(old(partialSchedule.slotContents), SpecialSlot().value) - {sp.id}|,
                old(partialSchedule.schedule))
      ensures partialSchedule.schedule ==
        if ok then old(partialSchedule.schedule)[sp.id := SpecialSlot().value] else old(partialSchedule.schedule)
    {
      var slot := SpecialSlot();
      ok := FixAssignment(sp, slot);
    }

    /**
     * Whether the special practice of the game `e` lands in the partial
     * schedule: the Tuesday 18:00 practice slot exists and the practice,
     * incompatible with `inc`, fits there against the partial schedule
     * `placed` whose slots hold `sc`.
     */
    ghost predicate SpecialLands(e: Event, inc: set<string>, placed: map<string, Slot>, sc: map<Slot, set<string>>)
      reads this`slots
    {
      SpecialSlot().Some? && SpecialSlot().value in slots.Values
      && FitsAs(false, Divisions.IsEvening(SpecialDivision(e)), inc, SpecialSlot().value,
                |OwnIn(sc, SpecialSlot().value) - {SpecialPracticeId(e)}|, placed)
    }

    /**
     * Recording a fixed assignment, as `addEvent` and `addPartialAssignment`
     * both do: the partial assignment takes the slot (none included), and
     * the partial schedule assigns it when the slot and event exist and the
     * hard constraints allow. Nothing else changes.
     */
    method FixAssignment(e: Event, slot: Option<Slot>) returns (ok: bool)
      requires Valid()
      modifies this`partialAssignment, partialSchedule`schedule, partialSchedule`slotContents
      ensures Valid() && events == old(events) && slots == old(slots)
      ensures Incompat() == old(Incompat()) && PairRel() == old(PairRel())
      ensures partialAssignment == old(partialAssignment)[e.id := slot]
      ensures ok <==>
        slot.Some? && slot.value in slots.Values && e.id in events
        && Fits(e, slot.value, |OwnIn(old(partialSchedule.slotContents), slot.value) - {e.id}|, old(partialSchedule.schedule))
      ensures ok ==> partialSchedule.schedule == old(partialSchedule.schedule)[e.id := slot.value]
      ensures !ok ==> partialSchedule.schedule == old(partialSchedule.schedule)
    {
      SetFixed(e.id, slot);
      ok := AssignFixed(e, slot);
    }

    /** The `partialAssignment.put` half of a fixed assignment. */
    method SetFixed(id: string, slot: Option<Slot>)
      requires Valid()
      modifies this`partialAssignment
      ensures Valid() && events == old(events) && slots == old(slots)
      ensures Incompat() == old(Incompat()) && PairRel() == old(PairRel())
      ensures partialAssignment == old(partialAssignment)[id := slot]
    {
      partialAssignment := partialAssignment[id := slot];
    }

    /** The `partialSchedule.assign(e, slot)` half, with the hard constraints checked. */
    method AssignFixed(e: Event, slot: Option<Slot>) returns (ok: bool)
      requires Valid()
      modifies partialSchedule`schedule, partialSchedule`slotContents
      ensures Valid() && events == old(events) && slots == old(slots) && partialAssignment == old(partialAssignment)
      ensures Incompat() == old(Incompat()) && PairRel() == old(PairRel())
      ensures ok <==>
        slot.Some? && slot.value in slots.Values && e.id in events
        && Fits(e, slot.value, |OwnIn(old(partialSchedule.slotContents), slot.value) - {e.id}|, old(partialSchedule.schedule))
      ensures ok ==> partialSchedule.schedule == old(partialSchedule.schedule)[e.id := slot.value]
      ensures !ok ==> partialSchedule.schedule == old(partialSchedule.schedule)
    {
      ghost var inc0, pr0, ev0 := Incompat(), PairRel(), events;
      ok := partialSchedule.Assign(e, slot, true);
      assert events == ev0;
      assert Incompat() == inc0;
      assert PairRel() == pr0;
      assert Wired();
    }

    /**
     * `addPartialAssignment`: fixes a known event, not fixed yet, to the slot
     * of its kind at that day and time; each missing piece is an exception.
     * The partial schedule takes the assignment when the hard constraints
     * allow, which the success value reports.
     */
    method AddPartialAssignment(eventId: string, day: string, startTime: string) returns (r: Result<bool, string>)
      requires Valid()
      modifies this`partialAssignment, partialSchedule`schedule, partialSchedule`slotContents
      ensures Valid() && events == old(events) && slots == old(slots)
      ensures Incompat() == old(Incompat()) && PairRel() == old(PairRel())
      ensures eventId !in events ==> r == Failure(NoEventError(eventId))
      ensures eventId in events && FixedSlot(eventId, day, startTime).None? ==>
        r == Failure(NoSlotError(KindName(events[eventId].isGame), day, startTime))
      ensures eventId in events && FixedSlot(eventId, day, startTime).Some? && eventId in old(partialAssignment) ==>
        r == Failure(AlreadyFixedError(eventId))
      ensures r.Failure? ==>
        partialAssignment == old(partialAssignment) && partialSchedule.schedule == old(partialSchedule.schedule)
      ensures r.Success? ==>
        eventId in events && FixedSlot(eventId, day, startTime).Some? && eventId !in old(partialAssignment)
        && partialAssignment == old(partialAssignment)[eventId := FixedSlot(eventId, day, startTime)]
      ensures r.Success? ==>
        (r.value <==> Fits(events[eventId], FixedSlot(eventId, day, startTime).value,
                           |OwnIn(old(partialSchedule.slotContents), FixedSlot(eventId, day, startTime).value) - {eventId}|,
                           old(partialSchedule.schedule)))
      ensures r == Success(true) ==>
        partialSchedule.schedule == old(partialSchedule.schedule)[eventId := FixedSlot(eventId, day, startTime).value]
      ensures r == Success(false) ==> partialSchedule.schedule == old(partialSchedule.schedule)
    {
      if eventId !in events {
        return Failure(NoEventError(eventId));
      }
      var e := events[eventId];
      var slot := FixedSlot(eventId, day, startTime);
      if slot.None? {
        return Failure(NoSlotError(KindName(e.isGame), day, startTime));
      }
      if eventId in partialAssignment {
        return Failure(AlreadyFixedError(eventId));
      }
      var ok := FixAssignment(e, slot);
      r := Success(ok);
    }

    /** `getSlot(day, startTime, type)` with the type of the event `id`. */
    function FixedSlot(id: string, day: string, startTime: string): Option<Slot>
      reads this`events, this`slots
      requires id in events
    {
      GetSlot(day, startTime, KindName(events[id].isGame))
    }

    /** The special practice object `addEvent` creates: a practice with no relations yet. */
    static method NewSpecialPractice(e: Event) returns (sp: Event)
      requires NeedsSpecialPractice(e)
      ensures fresh(sp) && sp.id == SpecialPracticeId(e) && !sp.isGame
      ensures sp.division == Division("CMSA", e.division.tier + "S", AllDivs)
      ensures sp.incompatibleEvents == {} && sp.pairs == {} && sp.unwantedSlots == {} && sp.preferences == map[]
    {
      SpecialPracticeIdReads(e);
      sp := new Event(SpecialPracticeId(e), false);
    }

    /** `addUnwanted`: only for a known event and an existing slot of its kind. */
    method AddUnwanted(id: string, day: string, startTime: string)
      requires Valid()
      modifies if id in events then {events[id]} else {}
      ensures Valid()
      ensures id in events ==>
        events[id].unwantedSlots == old(events[id].unwantedSlots) +
          (if SlotOfKind(day, startTime, events[id].isGame).Some?
           then {SlotOfKind(day, startTime, events[id].isGame).value} else {})
        && events[id].incompatibleEvents == old(events[id].incompatibleEvents)
        && events[id].pairs == old(events[id].pairs)
        && events[id].preferences == old(events[id].preferences)
    {
      if id in events {
        var e := events[id];
        var slot := SlotOfKind(day, startTime, e.isGame);
        if slot.Some? {
          e.SetUnwanted(slot.value);
        }
      }
    }

    /** `addPreference`: only for a known event and an existing slot of its kind. */
    method AddPreference(id: string, day: string, startTime: string, weight: int)
      requires Valid()
      modifies if id in events then {events[id]} else {}
      ensures Valid()
      ensures id in events ==>
        events[id].preferences ==
          (if SlotOfKind(day, startTime, events[id].isGame).Some?
           then old(events[id].preferences)[SlotOfKind(day, startTime, events[id].isGame).value := weight]
           else old(events[id].preferences))
        && events[id].incompatibleEvents == old(events[id].incompatibleEvents)
        && events[id].pairs == old(events[id].pairs)
        && events[id].unwantedSlots == old(events[id].unwantedSlots)
    {
      if id in events {
        var e := events[id];
        var slot := SlotOfKind(day, startTime, e.isGame);
        if slot.Some? {
          e.SetPreference(slot.value, weight);
        }
      }
    }

    /** `getCompatibleSlots`: the instance's slots the event accepts. */
    method GetCompatibleSlots(e: Event) returns (r: set<Slot>)
      ensures r == set s | s in slots.Values && e.IsCompatible(s)
    {
      r := {};
      var rest := slots.Values;
      while rest != {}
        invariant rest <= slots.Values
        invariant r == set s | s in slots.Values - rest && e.IsCompatible(s)
        decreases rest
      {
        var s :| s in rest;
        if e.IsCompatible(s) {
          r := r + {s};
        }
        rest := rest - {s};
      }
    }
  }

  class Schedule {
    const instance: Instance
    const isPartialAssignment: bool
    var schedule: map<string, Slot>
    var slotContents: map<Slot, set<string>>

    /**
     * The event ids in `slotContents` are exactly the assignments of
     * `schedule`, read backwards; only registered events are assigned; a
     * partial schedule is its instance's.
     */
    ghost predicate Valid()
      reads this, instance`events, instance`partialSchedule
    {
      instance.EventsKeyedById()
      && (isPartialAssignment <==> instance.partialSchedule == this)
      && schedule.Keys <= instance.events.Keys
      && IndexOk(schedule, slotContents)
    }

    constructor (instance: Instance, isPartialAssignment: bool)
      ensures this.instance == instance && this.isPartialAssignment == isPartialAssignment
      ensures schedule == map[]
      ensures slotContents == map s | s in instance.slots.Values :: {}
    {
      this.instance := instance;
      this.isPartialAssignment := isPartialAssignment;
      schedule := map[];
      var contents: map<Slot, set<string>> := map[];
      var rest := instance.slots.Values;
      while rest != {}
        invariant rest <= instance.slots.Values
        invariant contents == map s | s in instance.slots.Values - rest :: {}
        decreases rest
      {
        var s :| s in rest;
        contents := contents[s := {}];
        rest := rest - {s};
      }
      slotContents := contents;
    }

    /** The events this schedule itself places in `s`. */
    function Own(s: Slot): set<string>
      reads this
    {
      OwnIn(slotContents, s)
    }

    /** The partial schedule consulted by the merged lookups: none for the partial schedule itself. */
    function Partial(): (p: Schedule?)
      reads instance`partialSchedule
    {
      if isPartialAssignment then null else instance.partialSchedule
    }

    /** The merged view of the assignment: own entries take precedence over the partial schedule's. */
    function Merged(): map<string, Slot>
      reads this, instance`partialSchedule, instance.partialSchedule
    {
      (if Partial() == null then map[] else Partial().schedule) + schedule
    }

    /** The ids assigned by this schedule or by the consulted partial schedule. */
    function AssignedIds(): set<string>
      reads this, instance`partialSchedule, instance.partialSchedule
    {
      Merged().Keys
    }

    /** The ids fixed by the instance's partial schedule. */
    function FixedIds(): set<string>
      reads instance`partialSchedule, instance.partialSchedule
    {
      if instance.partialSchedule == null then {} else instance.partialSchedule.schedule.Keys
    }

    /** `getEventsFromSlot`: own occupants plus the partial schedule's. */
    function GetEventsFromSlot(s: Slot): (r: set<string>)
      reads this, instance`partialSchedule, instance.partialSchedule
      ensures Own(s) <= r
    {
      Own(s) + (if Partial() == null then {} else Partial().Own(s))
    }

    /** `getSlotFromEvent`: the own slot, else the partial schedule's, else none. */
    function GetSlotFromEvent(id: string): (r: Option<Slot>)
      reads this, instance`partialSchedule, instance.partialSchedule
      ensures id in schedule ==> r == Some(schedule[id])
      ensures r.Some? <==> id in AssignedIds()
      ensures r.Some? ==> r.value == Merged()[id]
    {
      if id in schedule then Some(schedule[id])
      else if Partial() != null && id in Partial().schedule then Some(Partial().schedule[id])
      else None
    }

    /** `slotAvailable`: an existing slot with positive capacity not yet filled in the merged view. */
    predicate SlotAvailable(s: Option<Slot>)
      reads this, instance`partialSchedule, instance`slots, instance.partialSchedule
    {
      s.Some? && GetMax(s.value) >= 1 && s.value in instance.slots.Values
      && |GetEventsFromSlot(s.value)| < GetMax(s.value)
    }

    /** An available slot still has room in the schedule's own count, the one assigning checks. */
    lemma AvailableHasOwnRoom(s: Slot)
      requires SlotAvailable(Some(s))
      ensures |Own(s)| < GetMax(s)
    {
      var all := GetEventsFromSlot(s);
      assert Own(s) <= all;
      CardinalityMonotone(Own(s), all);
    }

    /**
     * `isPotentialAssignmentValid(e, s)`: kinds match, an evening event gets
     * an evening slot, the own occupants of `s` are fewer than its effective
     * capacity (the partial schedule's are not counted), and no incompatible
     * event sits, in the merged view, in a slot overlapping `s`.
     */
    ghost predicate PotentialValid(e: Event, s: Slot)
      reads this, instance`partialSchedule, instance.partialSchedule, e
    {
      Fits(e, s, |Own(s)|, Merged())
    }

    method IsPotentialAssignmentValid(e: Event, s: Slot) returns (b: bool)
      requires s in slotContents
      ensures b == PotentialValid(e, s)
    {
      if e.isGame != s.isGameSlot {
        return false;
      }
      if e.IsEvening() && !Slots.IsEvening(s) {
        return false;
      }
      if |slotContents[s]| >= GetMax(s) {
        return false;
      }
      var rest := e.incompatibleEvents;
      while rest != {}
        invariant rest <= e.incompatibleEvents
        invariant forall x :: x in e.incompatibleEvents - rest && x in Merged() ==> !Overlaps(Merged()[x], s)
        decreases rest
      {
        var x :| x in rest;
        var other := GetSlotFromEvent(x);
        if other.Some? && Overlaps(other.value, s) {
          return false;
        }
        rest := rest - {x};
      }
      return true;
    }

    /**
     * `assign(e, slot, requireValid)`. It fails, changing no assignment, when
     * the slot is null or not in the instance, when the event is not
     * registered, or when `requireValid` is set and the check fails; the
     * check runs after `e` has been taken out of its previous slot, so `e`
     * itself is not counted against the capacity. `slotContents` gains an
     * empty entry for an existing slot either way.
     */
    method Assign(e: Event, slot: Option<Slot>, requireValid: bool) returns (ok: bool)
      requires Valid()
      modifies this`schedule, this`slotContents
      ensures Valid()
      ensures ok <==>
        slot.Some? && slot.value in instance.slots.Values && e.id in instance.events
        && (requireValid ==> Fits(e, slot.value, |OwnIn(old(slotContents), slot.value) - {e.id}|, old(Merged())))
      ensures ok ==>
        schedule == old(schedule)[e.id := slot.value]
        && slotContents == Attach(old(schedule), old(slotContents), e.id, slot.value)
      ensures !ok ==> schedule == old(schedule)
      ensures !ok && slot.Some? && slot.value in instance.slots.Values && e.id in instance.events ==>
        slotContents == Reserve(old(slotContents), slot.value)
      ensures !(slot.Some? && slot.value in instance.slots.Values && e.id in instance.events) ==>
        slotContents == old(slotContents)
      ensures !ok && old(HardValid()) ==> HardValid()
      ensures ok && requireValid && instance.Registers(e) && old(HardValid()) ==> HardValid()
    {
      if slot.None? || slot.value !in instance.slots.Values {
        return false;
      }
      // Events are equal when their ids are, and the instance keys them by id,
      // so containing an equal value is containing the key.
      if e.id !in instance.events {
        return false;
      }
      ghost var sched0, sc0, merged0 := schedule, slotContents, Merged();
      ghost var valid0 := HardValidOf(instance.events, sched0, sc0);
      ok := Move(e, slot.value, requireValid);
      if !ok && valid0 {
        ReserveKeepsHardValid(instance.events, sched0, sc0, slot.value);
      }
      if ok && requireValid && instance.Registers(e) && valid0 {
        AssignKeepsHardValid(instance.events, sched0, sc0, merged0, e, slot.value);
      }
    }

    /** The part of `assign` after the slot and the event have been found in the instance. */
    method Move(e: Event, s: Slot, requireValid: bool) returns (ok: bool)
      requires Valid() && s in instance.slots.Values && e.id in instance.events
      modifies this`schedule, this`slotContents
      ensures Valid()
      ensures ok <==> (requireValid ==> Fits(e, s, |OwnIn(old(slotContents), s) - {e.id}|, old(Merged())))
      ensures ok ==>
        schedule == old(schedule)[e.id := s]
        && slotContents == Attach(old(schedule), old(slotContents), e.id, s)
      ensures !ok ==> schedule == old(schedule) && slotContents == Reserve(old(slotContents), s)
    {
      ghost var sched0, sc0, merged0 := schedule, slotContents, Merged();
      var prev := DetachFrom(e.id, s);
      assert Merged() == merged0;
      if requireValid {
        var fits := IsPotentialAssignmentValid(e, s);
        if !fits {
          if prev.Some? {
            slotContents := slotContents[prev.value := slotContents[prev.value] + {e.id}];
          }
          assert slotContents == Reserve(sc0, s) && IndexOk(schedule, slotContents) by {
            RestoreOwn(sched0, sc0, e.id, s);
          }
          return false;
        }
      }
      schedule := schedule[e.id := s];
      slotContents := slotContents[s := slotContents[s] + {e.id}];
      assert slotContents == Attach(sched0, sc0, e.id, s);
      assert IndexOk(schedule, slotContents) by {
        AttachOwn(sched0, sc0, e.id, s);
      }
      return true;
    }

    /**
     * The first steps of `assign`: make sure `s` has an entry and take `id`
     * out of the slot it occupies, which is returned. The index then
     * misses `id`, so the schedule is not `Valid()` in between.
     */
    method DetachFrom(id: string, s: Slot) returns (prev: Option<Slot>)
      requires IndexOk(schedule, slotContents)
      modifies this`slotContents
      ensures prev == (if id in schedule then Some(schedule[id]) else None)
      ensures slotContents == Detach(schedule, Reserve(old(slotContents), s), id)
      ensures prev.Some? ==> prev.value in slotContents
      ensures s in slotContents && OwnIn(slotContents, s) == OwnIn(old(slotContents), s) - {id}
    {
      if s !in slotContents {
        slotContents := slotContents[s := {}];
      }
      prev := if id in schedule then Some(schedule[id]) else None;
      if prev.Some? {
        slotContents := slotContents[prev.value := slotContents[prev.value] - {id}];
      }
      DetachOwn(schedule, old(slotContents), id, s);
    }

    /** `clearAssignment`: the event leaves its slot and the schedule. */
    method ClearAssignment(e: Event)
      requires Valid()
      modifies this`schedule, this`slotContents
      ensures Valid()
      ensures schedule == old(schedule) - {e.id}
      ensures slotContents == Detach(old(schedule), old(slotContents), e.id)
    {
      ClearOwn(schedule, slotContents, e.id);
      if e.id in schedule {
        var s := schedule[e.id];
        slotContents := slotContents[s := slotContents[s] - {e.id}];
      }
      schedule := schedule - {e.id};
    }

    /**
     * `valid()` over the schedule's own assignments: kinds match, evening
     * events sit in evening slots, no slot holds more than its effective
     * capacity, and no two incompatible events sit in overlapping slots.
     */
    ghost predicate HardValid()
      reads this, instance`events, instance.events.Values
    {
      HardValidOf(instance.events, schedule, slotContents)
    }

    method CheckValid() returns (b: bool)
      requires Valid()
      ensures b == HardValid()
    {
      var rest := schedule.Keys;
      while rest != {}
        invariant rest <= schedule.Keys
        invariant forall id :: id in schedule.Keys - rest && id in instance.events ==>
          EntryOk(instance.events, schedule, slotContents, id)
        decreases rest
      {
        var id :| id in rest;
        var e := instance.events[id];
        var s := schedule[id];
        if e.isGame != s.isGameSlot || (e.IsEvening() && !Slots.IsEvening(s)) || |slotContents[s]| > GetMax(s) {
          assert !EntryOk(instance.events, schedule, slotContents, id);
          return false;
        }
        var others := e.incompatibleEvents;
        while others != {}
          invariant others <= e.incompatibleEvents
          invariant forall x :: x in e.incompatibleEvents - others && x in schedule ==> !Overlaps(schedule[x], s)
          decreases others
        {
          var x :| x in others;
          if x in schedule && Overlaps(schedule[x], s) {
            assert !EntryOk(instance.events, schedule, slotContents, id);
            return false;
          }
          others := others - {x};
        }
        rest := rest - {id};
      }
      return true;
    }

    /** `complete()`: every event of the instance is placed here or fixed by the partial schedule. */
    ghost predicate IsComplete()
      reads this, instance`events, instance`partialSchedule, instance.partialSchedule
    {
      forall id :: id in instance.events ==> id in schedule || id in FixedIds()
    }

    method Complete() returns (b: bool)
      ensures b == IsComplete()
    {
      var rest := instance.events.Keys;
      while rest != {}
        invariant rest <= instance.events.Keys
        invariant forall id :: id in instance.events.Keys - rest ==> id in schedule || id in FixedIds()
        decreases rest
      {
        var id :| id in rest;
        if id !in schedule && id !in FixedIds() {
          return false;
        }
        rest := rest - {id};
      }
      return true;
    }

    /** `new Schedule(instance)`: an empty, non-partial schedule with an empty entry per slot. */
    static method NewSchedule(instance: Instance) returns (s: Schedule)
      requires instance.Valid()
      ensures fresh(s) && s.instance == instance && !s.isPartialAssignment && s.Valid()
      ensures s.schedule == map[] && s.slotContents.Keys == instance.slots.Values
      ensures forall t :: t in s.slotContents ==> s.slotContents[t] == {}
    {
      s := new Schedule(instance, false);
    }

    /** The slots `getCandidateSlots(e)` returns: of the event's kind, accepted by it, and passing the check. */
    ghost function CandidateSet(e: Event): set<Slot>
      reads this, instance`slots, instance`partialSchedule, instance.partialSchedule, e
    {
      set s | s in instance.slots.Values && s.isGameSlot == e.isGame && e.IsCompatible(s) && PotentialValid(e, s)
    }

    /**
     * `getCandidateSlots(e)`. The check reads the slot's own entry, which
     * the source dereferences without a test, so every slot of the instance
     * must have one.
     */
    method GetCandidateSlots(e: Event) returns (r: set<Slot>)
      requires instance.slots.Values <= slotContents.Keys
      ensures r == CandidateSet(e)
      ensures forall s :: s in r ==> s in instance.slots.Values && s.isGameSlot == e.isGame && e.IsCompatible(s)
    {
      var typeSlots := set s | s in instance.slots.Values && s.isGameSlot == e.isGame;
      r := {};
      var rest := typeSlots;
      while rest != {}
        invariant rest <= typeSlots
        invariant r == set s | s in typeSlots - rest && e.IsCompatible(s) && PotentialValid(e, s)
        decreases rest
      {
        var s :| s in rest;
        if e.IsCompatible(s) {
          var fits := IsPotentialAssignmentValid(e, s);
          if fits {
            r := r + {s};
          }
        }
        rest := rest - {s};
      }
    }

    /** `getRandomCandidateSlot(e)`: some candidate, chosen freely, or none when there is none. */
    method GetRandomCandidateSlot(e: Event) returns (r: Option<Slot>)
      requires instance.slots.Values <= slotContents.Keys
      ensures r.Some? ==> r.value in CandidateSet(e)
      ensures r.None? <==> CandidateSet(e) == {}
    {
      var candidates := GetCandidateSlots(e);
      if candidates == {} {
        return None;
      }
      var s :| s in candidates;
      return Some(s);
    }

    /**
     * `getUnassignedEvents()`: the instance's events that neither this
     * schedule nor the partial schedule assigns.
     */
    method GetUnassignedEvents() returns (r: set<Event>)
      requires Valid()
      ensures forall x :: x in r <==> x in instance.events.Values && x.id !in AssignedIds()
    {
      var all := Enumerate(instance.events.Values);
      var list := all;
      var size := |list|;
      var i := 0;
      // The source drops fixed events by index while stepping on, so the
      // event after a dropped one is skipped here; the final removal of
      // every assigned event catches those.
      while i < size
        invariant 0 <= i <= size + 1 && size == |list|
        invariant forall x :: x in list ==> x in all
        invariant forall x :: x in all && x.id !in FixedIds() ==> x in list
        decreases size - i
      {
        var ev := list[i];
        if ev.id in FixedIds() {
          list := list[..i] + list[i + 1..];
          size := size - 1;
        }
        i := i + 1;
      }
      assert FixedIds() <= AssignedIds();
      r := set x | x in list && x.id !in AssignedIds();
    }

    /**
     * `getSchedulingOrder()`: every unassigned event once, evening games
     * first, then evening practices, other games and other practices.
     */
    method GetSchedulingOrder() returns (r: seq<Event>)
      requires Valid()
      ensures Distinct(r)
      ensures forall x :: x in r <==> x in instance.events.Values && x.id !in AssignedIds()
      ensures forall i, j :: 0 <= i < j < |r| ==> OrderGroup(r[i]) <= OrderGroup(r[j])
    {
      var unassigned := GetUnassignedEvents();
      r := OrderEvents(unassigned);
    }

    /** The ordering part of `getSchedulingOrder`, on the set of unassigned events. */
    static method OrderEvents(unassigned: set<Event>) returns (r: seq<Event>)
      ensures Distinct(r)
      ensures forall x :: x in r <==> x in unassigned
      ensures forall i, j :: 0 <= i < j < |r| ==> OrderGroup(r[i]) <= OrderGroup(r[j])
    {
      var list := Enumerate(unassigned);
      var eveningGames, eveningPractices, remainingGames, remainingPractices := SplitGroups(list);
      var a := Enumerate(eveningGames);
      var b := Enumerate(eveningPractices);
      var c := Enumerate(remainingGames);
      var d := Enumerate(remainingPractices);
      r := a + b + c + d;
      GroupedConcat(a, b, c, d);
    }

    /** The loop of `getSchedulingOrder` that sorts the events into the four groups. */
    static method SplitGroups(list: seq<Event>) returns (eveningGames: set<Event>, eveningPractices: set<Event>,
                                                          remainingGames: set<Event>, remainingPractices: set<Event>)
      ensures forall x :: x in eveningGames <==> x in list && OrderGroup(x) == 0
      ensures forall x :: x in eveningPractices <==> x in list && OrderGroup(x) == 1
      ensures forall x :: x in remainingGames <==> x in list && OrderGroup(x) == 2
      ensures forall x :: x in remainingPractices <==> x in list && OrderGroup(x) == 3
    {
      eveningGames, eveningPractices, remainingGames, remainingPractices := {}, {}, {}, {};
      for i := 0 to |list|
        invariant forall x :: x in eveningGames <==> x in list[..i] && OrderGroup(x) == 0
        invariant forall x :: x in eveningPractices <==> x in list[..i] && OrderGroup(x) == 1
        invariant forall x :: x in remainingGames <==> x in list[..i] && OrderGroup(x) == 2
        invariant forall x :: x in remainingPractices <==> x in list[..i] && OrderGroup(x) == 3
      {
        var ev := list[i];
        assert list[..i + 1] == list[..i] + [ev];
        if ev.IsEvening() {
          if ev.isGame {
            eveningGames := eveningGames + {ev};
          } else {
            eveningPractices := eveningPractices + {ev};
          }
        } else {
          if ev.isGame {
            remainingGames := remainingGames + {ev};
          } else {
            remainingPractices := remainingPractices + {ev};
          }
        }
      }
      assert list[..|list|] == list;
    }

    /**
     * `getRandomMutableEvent()`: on a non-partial schedule, some event it
     * assigns itself that the partial schedule does not fix, chosen freely;
     * none if there is no such event.
     */
    method GetRandomMutableEvent() returns (r: Option<Event>)
      requires Valid()
      ensures r.Some? ==>
        !isPartialAssignment && r.value.id in schedule && r.value.id !in FixedIds()
        && r.value.id in instance.events && instance.events[r.value.id] == r.value
      ensures r.None? <==> isPartialAssignment || schedule.Keys <= FixedIds()
    {
      if isPartialAssignment {
        return None;
      }
      ghost var own := schedule.Keys;
      var fixed := FixedIds();
      assert AssignedIds() == fixed + own;
      var ids := Enumerate(AssignedIds());
      for i := 0 to |ids|
        invariant forall j :: 0 <= j < i ==> ids[j] in fixed
      {
        assert ids[i] in ids;
        if ids[i] !in fixed {
          assert ids[i] in own;
          return Some(instance.events[ids[i]]);
        }
      }
      assert forall id :: id in own ==> id in ids;
      return None;
    }

    // -----------------------------------------------------------------
    // Evaluation
    // -----------------------------------------------------------------

    /** The partial schedule's slot contents, when this schedule consults one. */
    function PartialContents(): map<Slot, set<string>>
      reads instance`partialSchedule, instance.partialSchedule
    {
      if Partial() == null then map[] else Partial().slotContents
    }

    /** How many events each slot of the instance holds in the merged view. */
    ghost function Occupancy(): map<Slot, int>
      reads this, instance`slots, instance`partialSchedule, instance.partialSchedule
    {
      OccupancyOf(instance.slots.Values, slotContents, PartialContents())
    }

    /** The preference weights of every event, by id. */
    function Preferences(): map<string, map<Slot, int>>
      reads instance`events, instance.events.Values`preferences
    {
      map id | id in instance.events :: instance.events[id].preferences
    }

    /** The division of every event, by id. */
    ghost function EventDivisions(): map<string, Division>
      reads instance`events
    {
      DivisionsOf(instance.events)
    }

    /** Every event of the instance is placed, here or by the consulted partial schedule. */
    ghost predicate AllPlaced()
      reads this, instance`events, instance`partialSchedule, instance.partialSchedule
    {
      instance.events.Keys <= AssignedIds()
    }

    /** `evalMinFilled()`: for every slot, its shortfall below the minimum times its kind's penalty. */
    method EvalMinFilled() returns (penalty: int)
      ensures penalty == MinFilled(Occupancy(), instance.penGameMin, instance.penPracticeMin)
    {
      penalty := MinFilledPenalty(instance.slots.Values, slotContents, PartialContents(), instance.penGameMin, instance.penPracticeMin);
    }

    /** `evalPref()`: for every event, the weight of each preferred slot it does not hold. */
    method EvalPref() returns (penalty: int)
      ensures penalty == Pref(Preferences(), Merged())
    {
      penalty := PrefPenalty(Preferences(), Merged());
    }

    /**
     * `evalPair()`: the penalty for every unordered pair of paired events
     * not placed in overlapping slots, each pair counted once through the
     * set of pairs already explored.
     */
    method EvalPair() returns (penalty: int)
      requires forall id :: id in instance.events && instance.events[id].pairs != {} ==> id in AssignedIds()
      ensures penalty == instance.penNotPaired * |Unpaired(instance.PairRel(), Merged())|
    {
      penalty := PairPenalty(instance.PairRel(), Merged(), instance.penNotPaired);
    }

    /** The instance's weights and penalties. */
    function InstanceWeights(): Weights {
      Weights(instance.wMinFilled, instance.wPref, instance.wPair, instance.wSecDiff,
              instance.penGameMin, instance.penPracticeMin, instance.penNotPaired, instance.penSection)
    }

    /** The evaluation of this schedule, from the instance's weights. */
    ghost function Value(): int
      reads this, instance`slots, instance`partialSchedule, instance.partialSchedule,
        instance`events, instance.events.Values`preferences, instance.events.Values`pairs
    {
      Evaluate(InstanceWeights(), Occupancy(), Preferences(), instance.PairRel(), EventDivisions(), Merged())
    }

    /** `eval()` on a schedule that places every event: the four components, weighted and summed. */
    method Eval() returns (value: int)
      requires instance.EventsKeyedById() && AllPlaced()
      ensures value == Value()
    {
      ghost var v := Value();
      var events, pairs, placed := instance.events, instance.PairRel(), Merged();
      assert events.Keys == pairs.Keys <= placed.Keys;
      value := Evaluation(InstanceWeights(), instance.slots.Values, slotContents, PartialContents(),
                          Preferences(), pairs, events, placed);
      assert Value() == v;
    }

    /**
     * `evalSecDiff()`: the penalty for every unordered pair of events of
     * one tier, not of the same division, placed in overlapping slots.
     */
    method EvalSecDiff() returns (penalty: int)
      requires instance.EventsKeyedById() && AllPlaced()
      ensures penalty == instance.penSection * |SectionClashes(EventDivisions(), Merged())|
    {
      penalty := SecDiffPenalty(instance.events, Merged(), instance.penSection);
    }

  }

  /** The group `getSchedulingOrder` puts an event in. */
  function OrderGroup(e: Event): int {
    if e.IsEvening() then (if e.isGame then 0 else 1) else (if e.isGame then 2 else 3)
  }

  /** Four distinct enumerations of the four groups, concatenated, are distinct and grouped. */
  lemma GroupedConcat(a: seq<Event>, b: seq<Event>, c: seq<Event>, d: seq<Event>)
    requires Distinct(a) && Distinct(b) && Distinct(c) && Distinct(d)
    requires forall x :: x in a ==> OrderGroup(x) == 0
    requires forall x :: x in b ==> OrderGroup(x) == 1
    requires forall x :: x in c ==> OrderGroup(x) == 2
    requires forall x :: x in d ==> OrderGroup(x) == 3
    ensures Distinct(a + b + c + d)
    ensures forall x :: x in a + b + c + d <==> x in a || x in b || x in c || x in d
    ensures forall i, j :: 0 <= i < j < |a + b + c + d| ==> OrderGroup((a + b + c + d)[i]) <= OrderGroup((a + b + c + d)[j])
  {
    var r := a + b + c + d;
    forall i | 0 <= i < |r|
      ensures OrderGroup(r[i]) == if i < |a| then 0 else if i < |a| + |b| then 1 else if i < |a| + |b| + |c| then 2 else 3
    {
      if i < |a| {
        assert r[i] == a[i];
      } else if i < |a| + |b| {
        assert r[i] == b[i - |a|];
      } else if i < |a| + |b| + |c| {
        assert r[i] == c[i - |a| - |b|];
      } else {
        assert r[i] == d[i - |a| - |b| - |c|];
      }
    }
  }

  /** The incompatibility relation of an event map, keyed by event id. */
  ghost function IncompatOf(evs: map<string, Event>): map<string, set<string>>
    reads evs.Values`incompatibleEvents
  {
    map k | k in evs :: evs[k].incompatibleEvents
  }

  /**
   * One assignment of `valid()`: the kinds match, an evening event sits in an
   * evening slot, the slot holds no more than its effective capacity, and no
   * incompatible event is placed in an overlapping slot.
   */
  ghost predicate EntryOk(evs: map<string, Event>, sched: map<string, Slot>, sc: map<Slot, set<string>>, id: string)
    reads evs.Values
    requires id in sched && id in evs
  {
    var e := evs[id];
    var s := sched[id];
    e.isGame == s.isGameSlot
    && (e.IsEvening() ==> Slots.IsEvening(s))
    && |OwnIn(sc, s)| <= GetMax(s)
    && (forall x :: x in e.incompatibleEvents && x in sched ==> !Overlaps(sched[x], s))
  }

  /** `valid()`: every assignment of a registered event is acceptable. */
  ghost predicate HardValidOf(evs: map<string, Event>, sched: map<string, Slot>, sc: map<Slot, set<string>>)
    reads evs.Values
  {
    forall id :: id in sched && id in evs ==> EntryOk(evs, sched, sc, id)
  }

  /** The index after `assign` moved `id` to `s`. */
  function Attach(sched: map<string, Slot>, sc: map<Slot, set<string>>, id: string, s: Slot): map<Slot, set<string>> {
    var d := Detach(sched, Reserve(sc, s), id);
    d[s := d[s] + {id}]
  }

  /**
   * An assignment that passed the `isPotentialAssignmentValid` check keeps a
   * valid schedule valid, given that incompatibility is symmetric and
   * irreflexive and that the merged view agrees with the schedule's own
   * entries. The check counts the occupants without the moved event, and
   * the event itself adds one.
   */
  lemma AssignKeepsHardValid(evs: map<string, Event>, sched: map<string, Slot>, sc: map<Slot, set<string>>,
                             placed: map<string, Slot>, e: Event, s: Slot)
    requires IndexOk(sched, sc) && HardValidOf(evs, sched, sc) && sched.Keys <= evs.Keys
    requires e.id in evs && evs[e.id] == e
    requires SymmetricRel(IncompatOf(evs)) && IrreflexiveRel(IncompatOf(evs))
    requires forall x :: x in sched ==> x in placed && placed[x] == sched[x]
    requires Fits(e, s, |OwnIn(sc, s) - {e.id}|, placed)
    ensures HardValidOf(evs, sched[e.id := s], Attach(sched, sc, e.id, s))
  {
    assert FitsAs(e.isGame, e.IsEvening(), e.incompatibleEvents, s, |OwnIn(sc, s) - {e.id}|, placed);
    var sched2 := sched[e.id := s];
    var r := Attach(sched, sc, e.id, s);
    AttachOwn(sched, sc, e.id, s);
    forall id | id in sched2 && id in evs ensures EntryOk(evs, sched2, r, id) {
      AttachedCount(sc, r, e.id, s, sched2[id]);
      if id == e.id {
        assert e.id !in IncompatOf(evs)[e.id];
      } else {
        assert EntryOk(evs, sched, sc, id);
        AttachedNeighbours(evs, sched, placed, e, s, id);
      }
    }
  }

  /** Taking `id` out of its slot gives the index of the assignment without `id`. */
  lemma ClearOwn(sched: map<string, Slot>, sc: map<Slot, set<string>>, id: string)
    requires IndexOk(sched, sc)
    ensures var r := Detach(sched, sc, id);
      r.Keys == sc.Keys && IndexOk(sched - {id}, r) && forall t :: OwnIn(r, t) == OwnIn(sc, t) - {id}
  {
    var r := Detach(sched, sc, id);
    forall t ensures OwnIn(r, t) == OwnIn(sc, t) - {id} {
      if id in sched && t != sched[id] {
        assert id !in OwnIn(sc, t);
      }
    }
    forall t, x | t in r && x in r[t] ensures x in sched - {id} && sched[x] == t {
      assert x in OwnIn(r, t);
    }
  }

  /** Re-assigning an event to the slot it occupies leaves both maps as they were. */
  lemma ReassignSameSlot(sched: map<string, Slot>, sc: map<Slot, set<string>>, id: string)
    requires IndexOk(sched, sc) && id in sched
    ensures sched[id := sched[id]] == sched
    ensures Attach(sched, sc, id, sched[id]) == sc
  {
    var s := sched[id];
    assert Reserve(sc, s) == sc;
    assert id in sc[s];
    assert sc[s] - {id} + {id} == sc[s];
  }

  /** After the move, a slot holds no more than before, or the checked count plus the moved event. */
  lemma AttachedCount(sc: map<Slot, set<string>>, r: map<Slot, set<string>>, id: string, s: Slot, t: Slot)
    requires OwnIn(r, t) == (OwnIn(sc, t) - {id}) + (if t == s then {id} else {})
    ensures t == s ==> |OwnIn(r, t)| <= |OwnIn(sc, s) - {id}| + 1
    ensures t != s ==> |OwnIn(r, t)| <= |OwnIn(sc, t)|
  {
    if t != s {
      CardinalityMonotone(OwnIn(r, t), OwnIn(sc, t));
    }
  }

  /** An event left in place still has no overlapping incompatible neighbour after `e` moved to `s`. */
  lemma AttachedNeighbours(evs: map<string, Event>, sched: map<string, Slot>, placed: map<string, Slot>,
                           e: Event, s: Slot, id: string)
    requires sched.Keys <= evs.Keys && e.id in evs && evs[e.id] == e
    requires id in sched && id in evs && id != e.id
    requires SymmetricRel(IncompatOf(evs))
    requires forall x :: x in sched ==> x in placed && placed[x] == sched[x]
    requires forall x :: x in e.incompatibleEvents && x in placed ==> !Overlaps(placed[x], s)
    requires forall x :: x in evs[id].incompatibleEvents && x in sched ==> !Overlaps(sched[x], sched[id])
    ensures forall x :: x in evs[id].incompatibleEvents && x in sched[e.id := s] ==>
      !Overlaps(sched[e.id := s][x], sched[id])
  {
    var t := sched[id];
    if e.id in evs[id].incompatibleEvents {
      assert id in IncompatOf(evs)[e.id] by {
        assert e.id in IncompatOf(evs)[id];
      }
      OverlapsSymmetric(t, s);
    }
  }

  /** Reserving an empty entry for a slot changes no occupancy, so validity is kept. */
  lemma ReserveKeepsHardValid(evs: map<string, Event>, sched: map<string, Slot>, sc: map<Slot, set<string>>, s: Slot)
    requires HardValidOf(evs, sched, sc)
    ensures HardValidOf(evs, sched, Reserve(sc, s))
  {
    forall t ensures OwnIn(Reserve(sc, s), t) == OwnIn(sc, t) {
    }
  }

  /** `clearAssignment` keeps a valid schedule valid: occupancies only shrink. */
  lemma ClearKeepsHardValid(evs: map<string, Event>, sched: map<string, Slot>, sc: map<Slot, set<string>>, id: string)
    requires IndexOk(sched, sc) && HardValidOf(evs, sched, sc)
    ensures HardValidOf(evs, sched - {id}, Detach(sched, sc, id))
  {
    var r := Detach(sched, sc, id);
    forall k | k in sched - {id} && k in evs ensures EntryOk(evs, sched - {id}, r, k) {
      assert EntryOk(evs, sched, sc, k);
      CardinalityMonotone(OwnIn(r, sched[k]), OwnIn(sc, sched[k]));
    }
  }

  /** `getEventType()`: the kind as slot identifiers spell it. */
  function KindName(isGame: bool): string {
    if isGame then "game" else "practice"
  }

  function NoEventError(id: string): string {
    "Failed to add partial assignment. Event " + id + " does not exist."
  }

  /** The message as the source builds it: there is no space after the first period. */
  function NoSlotError(kind: string, day: string, startTime: string): string {
    "Failed to add partial assignment." + "No " + kind + " slot on " + day + " at " + startTime + " found."
  }

  function AlreadyFixedError(id: string): string {
    "Failed to add partial assignment. Event " + id + " already has a partial assignment."
  }

  /** Every slot is stored under its own identifier. */
  ghost predicate SlotsKeyed(ss: map<string, Slot>) {
    forall k :: k in ss ==> ss[k].id == k
  }

  /**
   * The instance's relations only name registered events, are symmetric,
   * and no event is incompatible with itself.
   */
  ghost predicate RelationsOk(inc: map<string, set<string>>, pairs: map<string, set<string>>) {
    ClosedRel(inc) && ClosedRel(pairs) && IrreflexiveRel(inc) && SymmetricRel(inc) && SymmetricRel(pairs)
  }

  ghost predicate ClosedRel(m: map<string, set<string>>) {
    forall k :: k in m ==> m[k] <= m.Keys
  }

  ghost predicate IrreflexiveRel(m: map<string, set<string>>) {
    forall k :: k in m ==> k !in m[k]
  }

  ghost predicate SymmetricRel(m: map<string, set<string>>) {
    forall a, b :: a in m && b in m && b in m[a] ==> a in m[b]
  }

  /** Two events to link both ways, and in which of the two relations. */
  datatype Link = Link(id1: string, id2: string, incompat: bool, pair: bool)

  /** What linking `a` and `b` both ways adds to the related set of `k`. */
  function LinkSet(k: string, a: string, b: string): set<string> {
    (if k == a then {b} else {}) + (if k == b then {a} else {})
  }

  /** The relation `m` with `a` and `b` linked both ways, when `link` is set. */
  function LinkRel(m: map<string, set<string>>, a: string, b: string, link: bool): (r: map<string, set<string>>)
    ensures r.Keys == m.Keys
  {
    map k | k in m :: m[k] + (if link then LinkSet(k, a, b) else {})
  }

  /** The registered events, other than `e` itself, that registering `e` makes incompatible with it. */
  function ClashIds(e: Event, evs: map<string, Event>): set<string> {
    ClashIdsOf(e.id, e.isGame, e.division, evs)
  }

  /** `ClashIds` for a new event given by its identifier, kind and division. */
  function ClashIdsOf(id: string, isGame: bool, d: Division, evs: map<string, Event>): set<string> {
    set k | k in evs && k != id && ClashesAs(isGame, d, evs[k])
  }

  /** The relation `m` once the event `id` is registered over `evs` and linked to what it clashes with. */
  function Registered(m: map<string, set<string>>, id: string, isGame: bool, d: Division, evs: map<string, Event>): map<string, set<string>> {
    AddClashes(m[id := {}], id, ClashIdsOf(id, isGame, d, evs))
  }

  /** The ids among `dom` with which `e` clashes. */
  function ClashIdsIn(e: Event, evs: map<string, Event>, dom: set<string>): set<string> {
    set k | k in dom && k in evs && k != e.id && Clashes(e, evs[k])
  }

  /** Looking at one more id adds it to the clashing ids exactly when it clashes. */
  lemma ClashIdsInStep(e: Event, evs: map<string, Event>, dom: set<string>, k: string)
    ensures ClashIdsIn(e, evs, dom + {k}) ==
      ClashIdsIn(e, evs, dom) + (if k in evs && k != e.id && Clashes(e, evs[k]) then {k} else {})
  {
  }

  /** The relation `m` after `eid` was linked both ways to every id in `c`. */
  function AddClashes(m: map<string, set<string>>, eid: string, c: set<string>): (r: map<string, set<string>>)
    ensures r.Keys == m.Keys
  {
    map k | k in m :: if k == eid then m[k] + c else m[k] + (if k in c then {eid} else {})
  }

  /** Linking `eid` both ways to registered ids other than itself keeps a relation closed, symmetric and irreflexive. */
  lemma AddClashesKeepsRels(m: map<string, set<string>>, eid: string, c: set<string>)
    requires eid in m && c <= m.Keys && eid !in c
    requires ClosedRel(m) && SymmetricRel(m) && IrreflexiveRel(m)
    ensures ClosedRel(AddClashes(m, eid, c)) && SymmetricRel(AddClashes(m, eid, c)) && IrreflexiveRel(AddClashes(m, eid, c))
  {
    var r := AddClashes(m, eid, c);
    forall a, b | a in r && b in r && b in r[a] ensures a in r[b] {
      if a == eid {
        assert b in m[eid] || b in c;
      } else {
        assert b in m[a] || (b == eid && a in c);
      }
    }
  }

  /** Moving one element from the ids still to visit to the visited ones keeps their union. */
  lemma MoveOne(all: set<string>, done: set<string>, rest: set<string>, k: string)
    requires done + rest == all && k in rest
    ensures (done + {k}) + (rest - {k}) == all
  {
  }

  lemma UnionAssoc(x: set<string>, y: set<string>, z: set<string>)
    ensures x + (y + z) == (x + y) + z
  {
  }

  /** Every entry of `a` is still in `b`, under the same key. */
  predicate KeepsEntries(a: map<string, Event>, b: map<string, Event>) {
    forall k :: k in a ==> k in b && b[k] == a[k]
  }

  /**
   * Registering a game and then its special practice amounts to the
   * combined effect `AddedIds`, `AddedRel` and `AddedPairs` describe.
   */
  lemma SpecialPracticeAdded(e: Event, ev0: map<string, Event>, inc0: map<string, set<string>>, pr0: map<string, set<string>>,
                             ev1: map<string, Event>, inc1: map<string, set<string>>, pr1: map<string, set<string>>,
                             ev2: map<string, Event>, inc2: map<string, set<string>>, pr2: map<string, set<string>>)
    requires NeedsSpecialPractice(e) && e.id !in ev0
    requires ev1 == ev0[e.id := e] && inc1 == Registered(inc0, e.id, e.isGame, e.division, ev0) && pr1 == pr0[e.id := {}]
    requires KeepsEntries(ev1, ev2) && ev2.Keys == ev1.Keys + {SpecialPracticeId(e)}
    requires inc2 == if SpecialPracticeId(e) in ev1 then inc1 else Registered(inc1, SpecialPracticeId(e), false, SpecialDivision(e), ev1)
    requires pr2 == if SpecialPracticeId(e) in ev1 then pr1 else pr1[SpecialPracticeId(e) := {}]
    ensures ev2.Keys == AddedIds(e, ev0) && KeepsEntries(ev0, ev2) && ev2[e.id] == e
    ensures inc2 == AddedRel(inc0, e, ev0) && pr2 == AddedPairs(pr0, e, ev0)
  {
    KeepsEntriesTrans(ev0, ev1, ev2);
  }

  lemma KeepsEntriesTrans(a: map<string, Event>, b: map<string, Event>, c: map<string, Event>)
    requires KeepsEntries(a, b) && KeepsEntries(b, c)
    ensures KeepsEntries(a, c)
  {
  }

  /** Among the ids of `dom`, `b` relates exactly what `a` relates. */
  ghost predicate KeepsRelOn(a: map<string, set<string>>, b: map<string, set<string>>, dom: set<string>) {
    dom <= a.Keys && dom <= b.Keys && forall k, j :: k in dom && j in dom ==> (j in b[k] <==> j in a[k])
  }

  /**
   * The event `id` (of kind `isGame`, in division `d`) is linked in `m`,
   * both ways, to exactly the events of `o` it clashes with.
   */
  ghost predicate LinkedToClashes(m: map<string, set<string>>, id: string, isGame: bool, d: Division, o: map<string, Event>) {
    id in m && o.Keys <= m.Keys
    && forall k :: k in o ==>
      (k in m[id] <==> k != id && ClashesAs(isGame, d, o[k])) && (id in m[k] <==> k != id && ClashesAs(isGame, d, o[k]))
  }

  /** One old entry after registering `id`: linked back to `id` exactly on a clash, otherwise as before. */
  lemma RegisteredEntry(m: map<string, set<string>>, id: string, isGame: bool, d: Division, o: map<string, Event>, k: string)
    requires m.Keys == o.Keys && id !in o && ClosedRel(m) && k in o
    ensures var r := Registered(m, id, isGame, d, o);
      (k in r[id] <==> ClashesAs(isGame, d, o[k])) && (id in r[k] <==> ClashesAs(isGame, d, o[k]))
      && r[k] <= o.Keys + {id} && (forall j :: j in o ==> (j in r[k] <==> j in m[k]))
  {
    var r := Registered(m, id, isGame, d, o);
    var c := ClashIdsOf(id, isGame, d, o);
    assert r[k] == m[k] + (if k in c then {id} else {});
    assert id !in m[k];
  }

  /**
   * `addEvent`'s registration step, on the relation alone: registering `id`
   * into a closed relation over the keys of `o` links it, both ways, to
   * exactly its clashes, leaves every old link in place and keeps the
   * relation closed.
   */
  lemma RegisterLinks(m: map<string, set<string>>, id: string, isGame: bool, d: Division, o: map<string, Event>)
    requires m.Keys == o.Keys && id !in o && ClosedRel(m)
    ensures LinkedToClashes(Registered(m, id, isGame, d, o), id, isGame, d, o)
    ensures KeepsRelOn(m, Registered(m, id, isGame, d, o), o.Keys)
    ensures Registered(m, id, isGame, d, o).Keys == o.Keys + {id} && ClosedRel(Registered(m, id, isGame, d, o))
  {
    var r := Registered(m, id, isGame, d, o);
    assert r[id] == ClashIdsOf(id, isGame, d, o);
    forall k | k in o
      ensures (k in r[id] <==> k != id && ClashesAs(isGame, d, o[k])) && (id in r[k] <==> k != id && ClashesAs(isGame, d, o[k]))
      ensures r[k] <= r.Keys && forall j :: j in o ==> (j in r[k] <==> j in m[k])
    {
      RegisteredEntry(m, id, isGame, d, o, k);
    }
  }

  /** Links among the ids of `o` and `id` that stay put keep `id` linked to its clashes. */
  lemma LinkedKept(a: map<string, set<string>>, b: map<string, set<string>>, id: string, isGame: bool, d: Division, o: map<string, Event>)
    requires LinkedToClashes(a, id, isGame, d, o) && KeepsRelOn(a, b, o.Keys + {id})
    ensures LinkedToClashes(b, id, isGame, d, o)
  {
    forall k | k in o
      ensures (k in b[id] <==> k != id && ClashesAs(isGame, d, o[k])) && (id in b[k] <==> k != id && ClashesAs(isGame, d, o[k]))
    {
      assert k in b[id] <==> k in a[id];
      assert id in b[k] <==> id in a[k];
    }
  }

  lemma KeepsRelOnTrans(a: map<string, set<string>>, b: map<string, set<string>>, c: map<string, set<string>>,
                        dom: set<string>, dom2: set<string>)
    requires KeepsRelOn(a, b, dom) && KeepsRelOn(b, c, dom2) && dom <= dom2
    ensures KeepsRelOn(a, c, dom)
  {
  }

  /**
   * The whole effect of `addEvent` on the incompatibility relation: the new
   * event is linked, both ways, to exactly the known events it clashes with;
   * a special practice it brings is linked to exactly its own clashes; and
   * no link among the known events changes.
   */
  lemma {:induction false} AddedLinks(m: map<string, set<string>>, e: Event, evs: map<string, Event>)
    requires m.Keys == evs.Keys && e.id !in evs && ClosedRel(m)
    ensures LinkedToClashes(AddedRel(m, e, evs), e.id, e.isGame, e.division, evs)
    ensures SpecialAdded(e, evs) ==>
      LinkedToClashes(AddedRel(m, e, evs), SpecialPracticeId(e), false, SpecialDivision(e), evs[e.id := e])
    ensures KeepsRelOn(m, AddedRel(m, e, evs), evs.Keys)
  {
    var r1 := Registered(m, e.id, e.isGame, e.division, evs);
    RegisterLinks(m, e.id, e.isGame, e.division, evs);
    if SpecialAdded(e, evs) {
      var sp := SpecialPracticeId(e);
      var ev1 := evs[e.id := e];
      RegisterLinks(r1, sp, false, SpecialDivision(e), ev1);
      var r2 := Registered(r1, sp, false, SpecialDivision(e), ev1);
      assert ev1.Keys == evs.Keys + {e.id};
      LinkedKept(r1, r2, e.id, e.isGame, e.division, evs);
      KeepsRelOnTrans(m, r1, r2, evs.Keys, ev1.Keys);
    }
  }

  /** Linking to no id changes nothing. */
  lemma AddClashesNone(m: map<string, set<string>>, eid: string)
    ensures AddClashes(m, eid, {}) == m
  {
    assert forall k :: k in m ==> AddClashes(m, eid, {})[k] == m[k];
  }

  /** One pass of `addEvent`'s loop keeps the relation equal to `e` linked to the clashing ids seen so far. */
  lemma ClashStep(m0: map<string, set<string>>, e: Event, o: map<string, Event>, done: set<string>, k: string,
                  linked: bool, before: map<string, set<string>>, after: map<string, set<string>>)
    requires e.id in m0 && k in m0 && (k != e.id ==> k in o)
    requires linked == (k != e.id && Clashes(e, o[k]))
    requires before == AddClashes(m0, e.id, ClashIdsIn(e, o, done))
    requires after == if linked then LinkRel(before, e.id, k, true) else before
    ensures after == AddClashes(m0, e.id, ClashIdsIn(e, o, done + {k}))
  {
    ClashIdsInStep(e, o, done, k);
    if linked {
      AddClashesStep(m0, e.id, ClashIdsIn(e, o, done), k);
    } else {
      assert ClashIdsIn(e, o, done + {k}) == ClashIdsIn(e, o, done);
    }
  }

  /** Linking one more id to `eid` is one `LinkRel` step. */
  lemma AddClashesStep(m: map<string, set<string>>, eid: string, c: set<string>, k: string)
    requires eid in m && k in m && k != eid
    ensures AddClashes(m, eid, c + {k}) == LinkRel(AddClashes(m, eid, c), eid, k, true)
  {
    var a, b := AddClashes(m, eid, c + {k}), LinkRel(AddClashes(m, eid, c), eid, k, true);
    var before := AddClashes(m, eid, c);
    forall j | j in m ensures a[j] == b[j] {
      assert b[j] == before[j] + LinkSet(j, eid, k);
      if j == eid {
        assert a[j] == m[j] + (c + {k}) && before[j] == m[j] + c && LinkSet(j, eid, k) == {k};
        UnionAssoc(m[j], c, {k});
      } else if j == k {
        assert a[j] == m[j] + {eid} && LinkSet(j, eid, k) == {eid};
        assert before[j] + {eid} == m[j] + {eid};
      } else {
        assert (j in c + {k}) == (j in c);
        assert a[j] == before[j] && LinkSet(j, eid, k) == {};
      }
    }
  }

  /** A new key with no related ids keeps a relation closed, symmetric and irreflexive. */
  lemma ExtendPreserves(m: map<string, set<string>>, k: string)
    requires k !in m
    ensures ClosedRel(m) ==> ClosedRel(m[k := {}])
    ensures ClosedRel(m) && SymmetricRel(m) ==> SymmetricRel(m[k := {}])
    ensures IrreflexiveRel(m) ==> IrreflexiveRel(m[k := {}])
  {
    var m2 := m[k := {}];
    if ClosedRel(m) {
      forall j | j in m2 ensures m2[j] <= m2.Keys {
        if j != k {
          assert m[j] <= m.Keys;
        }
      }
    }
    if ClosedRel(m) && SymmetricRel(m) {
      forall x, y | x in m2 && y in m2 && y in m2[x] ensures x in m2[y] {
        assert x != k && m[x] <= m.Keys;
      }
    }
  }

  /** A map that agrees with `m` on its keys and maps one new key to the empty set. */
  lemma ExtendPointwise(m: map<string, set<string>>, m2: map<string, set<string>>, k: string)
    requires m2.Keys == m.Keys + {k} && m2[k] == {}
    requires forall j :: j in m && j != k ==> m2[j] == m[j]
    ensures m2 == m[k := {}]
  {
  }

  /** A relation that differs from `m` exactly by the link is `LinkRel(m, ...)`. */
  lemma LinkRelPointwise(m: map<string, set<string>>, m2: map<string, set<string>>, a: string, b: string, link: bool)
    requires m2.Keys == m.Keys
    requires forall k :: k in m ==> m2[k] == m[k] + (if link then LinkSet(k, a, b) else {})
    ensures m2 == LinkRel(m, a, b, link)
  {
  }

  /** Not linking changes nothing. */
  lemma LinkRelUnlinked(m: map<string, set<string>>, a: string, b: string)
    ensures LinkRel(m, a, b, false) == m
  {
    assert forall k :: k in m ==> LinkRel(m, a, b, false)[k] == m[k];
  }

  /** Linking two keys both ways keeps a relation closed and symmetric, and irreflexive when they differ. */
  lemma LinkPreserves(m: map<string, set<string>>, a: string, b: string, link: bool)
    requires a in m && b in m
    ensures ClosedRel(m) ==> ClosedRel(LinkRel(m, a, b, link))
    ensures SymmetricRel(m) ==> SymmetricRel(LinkRel(m, a, b, link))
    ensures (link ==> a != b) && IrreflexiveRel(m) ==> IrreflexiveRel(LinkRel(m, a, b, link))
  {
    var m2 := LinkRel(m, a, b, link);
    if ClosedRel(m) {
      LinkKeepsClosed(m, a, b, link);
    }
    if SymmetricRel(m) {
      LinkKeepsSymmetric(m, a, b, link);
    }
    if (link ==> a != b) && IrreflexiveRel(m) {
      forall k | k in m2 ensures k !in m2[k] {
        assert k !in m[k];
      }
    }
  }

  lemma LinkKeepsClosed(m: map<string, set<string>>, a: string, b: string, link: bool)
    requires a in m && b in m && ClosedRel(m)
    ensures ClosedRel(LinkRel(m, a, b, link))
  {
    var m2 := LinkRel(m, a, b, link);
    forall k | k in m2 ensures m2[k] <= m2.Keys {
      assert m[k] <= m.Keys;
    }
  }

  lemma LinkKeepsSymmetric(m: map<string, set<string>>, a: string, b: string, link: bool)
    requires SymmetricRel(m)
    ensures SymmetricRel(LinkRel(m, a, b, link))
  {
    var m2 := LinkRel(m, a, b, link);
    forall x, y | x in m2 && y in m2 && y in m2[x] ensures x in m2[y] {
      assert m2[y] == m[y] + (if link then LinkSet(y, a, b) else {});
      if y in m[x] {
        assert x in m[y];
      } else {
        assert link && y in LinkSet(x, a, b);
        assert x in LinkSet(y, a, b);
      }
    }
  }

  /**
   * The conditions an assignment of `e` to `s` must meet, with `count` the
   * number of occupants compared against the capacity and `placed` the
   * assignment incompatible events are looked up in.
   */
  ghost predicate Fits(e: Event, s: Slot, count: int, placed: map<string, Slot>)
    reads e
  {
    FitsAs(e.isGame, e.IsEvening(), e.incompatibleEvents, s, count, placed)
  }

  /** `Fits` for an event given by its kind, its evening flag and the identifiers it is incompatible with. */
  ghost predicate FitsAs(isGame: bool, evening: bool, incompat: set<string>, s: Slot, count: int, placed: map<string, Slot>) {
    isGame == s.isGameSlot
    && (evening ==> Slots.IsEvening(s))
    && count < GetMax(s)
    && (forall x :: x in incompat && x in placed ==> !Overlaps(placed[x], s))
  }

  /** `sc` is exactly the assignment `sched` read backwards. */
  ghost predicate IndexOk(sched: map<string, Slot>, sc: map<Slot, set<string>>) {
    (forall id :: id in sched ==> sched[id] in sc && id in sc[sched[id]])
    && (forall t, id :: t in sc && id in sc[t] ==> id in sched && sched[id] == t)
  }

  /** `slotContents.putIfAbsent(s, {})`. */
  function Reserve(sc: map<Slot, set<string>>, s: Slot): map<Slot, set<string>> {
    if s in sc then sc else sc[s := {}]
  }

  /** Taking `id` out of the slot it is assigned to. */
  function Detach(sched: map<string, Slot>, sc: map<Slot, set<string>>, id: string): map<Slot, set<string>> {
    if id in sched && sched[id] in sc then sc[sched[id] := sc[sched[id]] - {id}] else sc
  }

  /** After reserving `s` and detaching `id`, no slot holds `id` and the rest is as before. */
  lemma DetachOwn(sched: map<string, Slot>, sc: map<Slot, set<string>>, id: string, s: Slot)
    requires IndexOk(sched, sc)
    ensures Detach(sched, Reserve(sc, s), id).Keys == sc.Keys + {s}
    ensures forall t :: OwnIn(Detach(sched, Reserve(sc, s), id), t) == OwnIn(sc, t) - {id}
  {
    var d := Detach(sched, Reserve(sc, s), id);
    forall t ensures OwnIn(d, t) == OwnIn(sc, t) - {id} {
      if id in sched && t != sched[id] {
        assert id !in OwnIn(sc, t);
      }
    }
  }

  /** Putting `id` back where it was restores the index exactly, up to the reserved empty entry. */
  lemma RestoreOwn(sched: map<string, Slot>, sc: map<Slot, set<string>>, id: string, s: Slot)
    requires IndexOk(sched, sc)
    ensures var d := Detach(sched, Reserve(sc, s), id);
      (if id in sched then d[sched[id] := d[sched[id]] + {id}] else d) == Reserve(sc, s)
    ensures IndexOk(sched, Reserve(sc, s))
    ensures forall t :: OwnIn(Reserve(sc, s), t) == OwnIn(sc, t)
  {
    var d := Detach(sched, Reserve(sc, s), id);
    if id in sched {
      var k := sched[id];
      assert id in Reserve(sc, s)[k];
      assert Reserve(sc, s)[k] - {id} + {id} == Reserve(sc, s)[k];
    }
  }

  /** Placing `id` in `s` after detaching it gives the index of the updated assignment. */
  lemma AttachOwn(sched: map<string, Slot>, sc: map<Slot, set<string>>, id: string, s: Slot)
    requires IndexOk(sched, sc)
    ensures Attach(sched, sc, id, s).Keys == sc.Keys + {s}
    ensures IndexOk(sched[id := s], Attach(sched, sc, id, s))
    ensures forall t :: OwnIn(Attach(sched, sc, id, s), t) == (OwnIn(sc, t) - {id}) + (if t == s then {id} else {})
  {
    DetachOwn(sched, sc, id, s);
    var r := Attach(sched, sc, id, s);
    var sched2 := sched[id := s];
    forall t ensures OwnIn(r, t) == (OwnIn(sc, t) - {id}) + (if t == s then {id} else {}) {
    }
    forall x | x in sched2 ensures sched2[x] in r && x in r[sched2[x]] {
      if x != id {
        assert x in OwnIn(sc, sched[x]);
        assert x in OwnIn(r, sched[x]);
      }
    }
    forall t, x | t in r && x in r[t] ensures x in sched2 && sched2[x] == t {
      assert x in OwnIn(r, t);
      if x != id {
        assert x in OwnIn(sc, t);
      }
    }
  }

  lemma CardinalityMonotone<T>(a: set<T>, b: set<T>)
    requires a <= b
    ensures |a| <= |b|
  {
    assert b == a + (b - a);
  }
}

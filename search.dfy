/**
 * The two searches: the or-tree that builds one complete schedule by
 * depth-first backtracking, and the genetic algorithm that keeps a pool of
 * such schedules and improves on the best of them.
 */
module Search {
  import opened Common
  import opened Slots
  import opened Events
  import opened Instances
  import opened Pools

  /** No two events of the sequence share an id. */
  predicate DistinctIds(evs: seq<Event>) {
    forall i, j :: 0 <= i < j < |evs| ==> evs[i].id != evs[j].id
  }

  /** The ids of the events from position `i` on. */
  function IdsFrom(evs: seq<Event>, i: nat): set<string> {
    set j | i <= j < |evs| :: evs[j].id
  }

  /** None of the events from position `i` on is assigned in `sched`. */
  predicate NoneAssigned(evs: seq<Event>, i: nat, sched: map<string, Slot>) {
    forall j :: i <= j < |evs| ==> evs[j].id !in sched
  }

  /** `b` keeps every assignment of `a` and adds assignments for exactly `ids`. */
  predicate Extends(a: map<string, Slot>, b: map<string, Slot>, ids: set<string>) {
    b.Keys == a.Keys + ids && forall id :: id in a ==> b[id] == a[id]
  }

  /** Distinct events of an instance keyed by id have distinct ids. */
  lemma KeyedDistinct(evs: map<string, Event>, order: seq<Event>)
    requires EventsKeyed(evs) && Distinct(order)
    requires forall x :: x in order ==> x in evs.Values
    ensures DistinctIds(order)
  {
    forall i, j | 0 <= i < j < |order| ensures order[i].id != order[j].id {
      assert order[i] in order && order[j] in order;
      var k1 :| k1 in evs && evs[k1] == order[i];
      var k2 :| k2 in evs && evs[k2] == order[j];
      assert evs[k1].id == k1 && evs[k2].id == k2;
    }
  }

  /** The events from `i` on are the one at `i` and those after it. */
  lemma IdsFromStep(evs: seq<Event>, i: nat)
    requires i < |evs|
    ensures IdsFrom(evs, i) == {evs[i].id} + IdsFrom(evs, i + 1)
  {
    forall id | id in IdsFrom(evs, i) ensures id in {evs[i].id} + IdsFrom(evs, i + 1) {
      var j :| i <= j < |evs| && evs[j].id == id;
      if j > i {
        assert id in IdsFrom(evs, i + 1);
      }
    }
  }

  /** Assigning the event at `i` leaves the later ones unassigned. */
  lemma NoneAssignedStep(evs: seq<Event>, i: nat, sched: map<string, Slot>, s: Slot)
    requires DistinctIds(evs) && i < |evs| && NoneAssigned(evs, i, sched)
    ensures NoneAssigned(evs, i + 1, sched[evs[i].id := s])
  {
  }

  /** Assigning the event at `i`, then extending by the later ones, extends by the events from `i` on. */
  lemma ExtendsStep(evs: seq<Event>, i: nat, a: map<string, Slot>, s: Slot, b: map<string, Slot>)
    requires i < |evs| && evs[i].id !in a
    requires Extends(a[evs[i].id := s], b, IdsFrom(evs, i + 1))
    ensures Extends(a, b, IdsFrom(evs, i))
  {
    IdsFromStep(evs, i);
  }

  /** Clearing an assignment just made to an unassigned event restores the assignment. */
  lemma Unassigned(a: map<string, Slot>, id: string, s: Slot)
    requires id !in a
    ensures a[id := s] - {id} == a
  {
  }

  /** `assign` only adds slot entries: the index keeps every slot it had. */
  lemma AssignKeepsSlots(sched: map<string, Slot>, sc: map<Slot, set<string>>, id: string, s: Slot)
    ensures sc.Keys <= Attach(sched, sc, id, s).Keys
    ensures sc.Keys <= Reserve(sc, s).Keys
  {
  }

  /** `clearAssignment` keeps every slot entry. */
  lemma ClearKeepsSlots(sched: map<string, Slot>, sc: map<Slot, set<string>>, id: string)
    ensures Detach(sched, sc, id).Keys == sc.Keys
  {
  }

  /** The message `runSearch` throws when the backtracking search fails. */
  const NoScheduleFound := "No valid schedule found."

  /** The message `runSearch` throws when the search result breaks a hard constraint. */
  const InvalidCreated := "Invalid schedule created."

  /** The message `runSearch` throws when the search result leaves an event unplaced. */
  const IncompleteCreated := "Incomplete schedule created."

  /**
   * `ORTree`: a depth-first search that places the events of its
   * scheduling order one after another, trying the candidate slots of each
   * in a random order, the template's slot first.
   */
  class ORTree {
    const instance: Instance
    const template: Schedule?
    const schedule: Schedule
    const orderedEvents: seq<Event>
    var terminate: bool

    /** The schedule being built is a fresh, non-partial schedule of the instance with an entry per slot. */
    ghost predicate Valid()
      reads schedule, instance`events, instance`partialSchedule, instance`slots, instance.events.Values
    {
      schedule.instance == instance && !schedule.isPartialAssignment && schedule.Valid()
      && instance.slots.Values <= schedule.slotContents.Keys
      && template != schedule
      && DistinctIds(orderedEvents)
      && Sound()
    }

    /** Every event of the order is the one its instance registers under its id, and incompatibility is symmetric and irreflexive. */
    ghost predicate Sound()
      reads instance`events, instance.events.Values
    {
      forall x :: x in orderedEvents ==> instance.Registers(x)
    }

    /**
     * `new ORTree(instance, template)`: an empty schedule and its
     * scheduling order; the template's assignments are not copied.
     */
    constructor (instance: Instance, template: Schedule?)
      requires instance.Valid()
      ensures Valid() && this.instance == instance && this.template == template && !terminate
      ensures fresh(schedule) && schedule.schedule == map[]
      ensures forall x :: x in orderedEvents <==> x in instance.events.Values && x.id !in schedule.AssignedIds()
    {
      this.instance := instance;
      this.template := template;
      var s := Schedule.NewSchedule(instance);
      var order := s.GetSchedulingOrder();
      KeyedDistinct(instance.events, order);
      schedule := s;
      orderedEvents := order;
      terminate := false;
      forall x | x in order ensures instance.Registers(x) {
        var k :| k in instance.events && instance.events[k] == x;
        assert instance.events[k].id == k;
      }
    }

    /**
     * `runSearch()`: the template itself when it is complete and valid;
     * otherwise the search's schedule, once it is found and checked, or the
     * exception the source throws.
     */
    method RunSearch(fuel: nat) returns (r: Result<Schedule, string>)
      requires Valid() && NoneAssigned(orderedEvents, 0, schedule.schedule)
      requires template != null ==> template.Valid()
      modifies schedule`schedule, schedule`slotContents, this`terminate
      ensures Valid()
      ensures r.Success? ==> (r.value == template || r.value == schedule)
      ensures r.Success? ==> r.value.HardValid() && r.value.IsComplete()
      ensures template != null && old(template.HardValid() && template.IsComplete()) ==> r.Success? && r.value == template
      ensures r.Success? && r.value == schedule ==> Extends(old(schedule.schedule), schedule.schedule, IdsFrom(orderedEvents, 0))
      ensures r.Failure? ==> r.error in {NoScheduleFound, InvalidCreated, IncompleteCreated}
    {
      if template != null {
        var ready := TemplateReady();
        if ready {
          return Success(template);
        }
      }
      var found := RecSearch(0, fuel);
      if !found {
        return Failure(NoScheduleFound);
      }
      r := Checked();
    }

    /** The template is complete and valid: the check `runSearch` makes before searching. */
    method TemplateReady() returns (b: bool)
      requires template != null && template.Valid()
      ensures b == (template.HardValid() && template.IsComplete())
    {
      var complete := template.Complete();
      if !complete {
        return false;
      }
      b := template.CheckValid();
    }

    /** The checks `runSearch` makes on the schedule the search found. */
    method Checked() returns (r: Result<Schedule, string>)
      requires Valid()
      ensures r.Success? ==> r.value == schedule && schedule.HardValid() && schedule.IsComplete()
      ensures r.Failure? ==> r.error == (if schedule.HardValid() then IncompleteCreated else InvalidCreated)
    {
      var valid := schedule.CheckValid();
      if !valid {
        return Failure(InvalidCreated);
      }
      var complete := schedule.Complete();
      if !complete {
        return Failure(IncompleteCreated);
      }
      return Success(schedule);
    }

    /**
     * `recSearch(i)`: places the events from position `i` on. The
     * candidates of the event at `i` are tried in a random order, the
     * template's slot for it first; each goes through the validating
     * `assign`, and a placement the deeper search cannot complete is
     * undone. A random draw below 5 of 100 raises the abandon flag, which
     * unwinds the search to the first event, where it is lowered and the
     * same slot tried again; `fuel` bounds those retries.
     */
    method RecSearch(i: nat, fuel: nat) returns (found: bool)
      requires Valid() && NoneAssigned(orderedEvents, i, schedule.schedule)
      modifies schedule`schedule, schedule`slotContents, this`terminate
      ensures Valid()
      ensures found ==> Extends(old(schedule.schedule), schedule.schedule, IdsFrom(orderedEvents, i))
      ensures !found ==> schedule.schedule == old(schedule.schedule)
      ensures old(schedule.HardValid()) ==> schedule.HardValid()
      decreases |orderedEvents| - i, 1
    {
      if i >= |orderedEvents| {
        return true;
      }
      var event := orderedEvents[i];
      var candidates := schedule.GetCandidateSlots(event);
      var shuffled := Enumerate(candidates);
      var stack := seq(|shuffled|, k requires 0 <= k < |shuffled| => Some(shuffled[k]));
      if template != null {
        stack := stack + [template.GetSlotFromEvent(event.id)];
      }
      ghost var entry := schedule.schedule;
      ghost var valid0 := schedule.HardValid();
      var retries := fuel;
      while stack != []
        invariant Valid() && schedule.schedule == entry
        invariant valid0 ==> schedule.HardValid()
        decreases retries, |stack|
      {
        var slot := stack[|stack| - 1];
        stack := stack[..|stack| - 1];
        var ok := Place(event, slot);
        if ok {
          var sub, unwind, retry := Deeper(i, fuel, entry, slot.value, i == 0 && retries > 0);
          if sub {
            return true;
          }
          if unwind {
            return false;
          }
          if retry {
            stack := stack + [slot];
            retries := retries - 1;
          }
        }
      }
      return false;
    }

    /**
     * The part of `recSearch` after the event at `i` was placed in `s` on
     * top of `entry`: the search for the later events, and `Retreat` when
     * it fails.
     */
    method Deeper(i: nat, fuel: nat, ghost entry: map<string, Slot>, ghost s: Slot, first: bool)
      returns (found: bool, unwind: bool, retry: bool)
      requires Valid() && i < |orderedEvents| && NoneAssigned(orderedEvents, i, entry)
      requires schedule.schedule == entry[orderedEvents[i].id := s]
      modifies schedule`schedule, schedule`slotContents, this`terminate
      ensures Valid()
      ensures found ==> Extends(entry, schedule.schedule, IdsFrom(orderedEvents, i))
      ensures !found ==> schedule.schedule == entry && (retry ==> first)
      ensures old(schedule.HardValid()) ==> schedule.HardValid()
      decreases |orderedEvents| - i, 0
    {
      NoneAssignedStep(orderedEvents, i, entry, s);
      found := RecSearch(i + 1, fuel);
      if found {
        ExtendsStep(orderedEvents, i, entry, s, schedule.schedule);
        return found, false, false;
      }
      unwind, retry := Retreat(orderedEvents[i], entry, s, first);
    }

    /**
     * What `recSearch` does once the deeper search has failed after `event`
     * was placed on top of `entry`. With the abandon flag raised it unwinds,
     * clearing the event, unless this is the first event (`first`), where it
     * lowers the flag and asks for the same slot to be tried again. Then a
     * random draw below 5 of 100 raises the flag and the event is cleared.
     */
    method Retreat(event: Event, ghost entry: map<string, Slot>, ghost s: Slot, first: bool) returns (unwind: bool, retry: bool)
      requires Valid() && event.id !in entry && schedule.schedule == entry[event.id := s]
      modifies schedule`schedule, schedule`slotContents, this`terminate
      ensures Valid() && schedule.schedule == entry
      ensures old(schedule.HardValid()) ==> schedule.HardValid()
      ensures unwind <==> old(terminate) && !first
      ensures retry <==> old(terminate) && first
      ensures unwind ==> terminate
    {
      unwind, retry := false, false;
      if terminate {
        if !first {
          Clear(event, entry, s);
          return true, false;
        }
        terminate := false;
        retry := true;
      }
      var chance :| 0 <= chance < 100;
      if chance < 5 {
        terminate := true;
      }
      Clear(event, entry, s);
    }

    /** `schedule.assign(event, slot, true)`, which keeps every slot entry and a valid schedule valid. */
    method Place(event: Event, slot: Option<Slot>) returns (ok: bool)
      requires Valid() && event in orderedEvents
      modifies schedule`schedule, schedule`slotContents
      ensures Valid()
      ensures ok ==> slot.Some? && schedule.schedule == old(schedule.schedule)[event.id := slot.value]
      ensures !ok ==> schedule.schedule == old(schedule.schedule)
      ensures old(schedule.HardValid()) ==> schedule.HardValid()
    {
      ghost var sched0, sc0 := schedule.schedule, schedule.slotContents;
      assert instance.Registers(event);
      ok := schedule.Assign(event, slot, true);
      if slot.Some? {
        AssignKeepsSlots(sched0, sc0, event.id, slot.value);
      }
    }

    /**
     * `schedule.clearAssignment(event)`, which keeps every slot entry and a
     * valid schedule valid; clearing the event just placed on top of `entry`
     * gives `entry` back.
     */
    method Clear(event: Event, ghost entry: map<string, Slot>, ghost s: Slot)
      requires Valid() && event.id !in entry && schedule.schedule == entry[event.id := s]
      modifies schedule`schedule, schedule`slotContents
      ensures Valid()
      ensures schedule.schedule == old(schedule.schedule) - {event.id} == entry
      ensures old(schedule.HardValid()) ==> schedule.HardValid()
    {
      ClearKeepsSlots(schedule.schedule, schedule.slotContents, event.id);
      if schedule.HardValid() {
        ClearKeepsHardValid(instance.events, schedule.schedule, schedule.slotContents, event.id);
      }
      schedule.ClearAssignment(event);
      Unassigned(entry, event.id, s);
    }
  }
}

/**
 * The genetic algorithm: a pool of complete schedules kept between a
 * minimum and a maximum size. A pool below the minimum is filled by fresh
 * or-tree searches; a pool above the maximum loses its worst schedules; in
 * between, the best schedule is mutated or crossed with the second best
 * and the result completed by an or-tree search that starts from it.
 */
module Genetic {
  import opened Common
  import opened Slots
  import opened Events
  import opened Instances
  import opened Pools
  import opened Search

  /** The pool size below which fresh schedules are searched for. */
  const MinSchedules := 100

  /** The pool size above which the worst schedules are dropped. */
  const MaxSchedules := 1000

  /** How many schedules an overflowing pool loses at once. */
  const DeleteSchedules := 900

  /** The overflow rounds after which a full pool counts as settled. */
  const PlateauRuns := 5

  /** The weight, out of 100, of crossover over mutation. */
  const CrossoverBias := 70

  /** The names `fSelect` returns. */
  const CrossoverName := "Crossover"
  const MutationName := "Mutation"

  /** How a run of the search ends. */
  datatype Outcome =
    | Finished(best: Option<Schedule>)
    | Failed(message: string)
    | OutOfFuel

  /** `b` differs from `a` only in the assignments of `moved`. */
  ghost predicate SameOutside(a: map<string, Slot>, b: map<string, Slot>, moved: set<string>) {
    a.Keys == b.Keys && forall id :: id in a && id !in moved ==> a[id] == b[id]
  }

  class GeneticAlgorithm {
    const instance: Instance
    var pool: Tree<Schedule>
    var caseOverflow: bool
    var caseIncomplete: bool
    var terminate: bool
    var runCounter: int
    /** The schedules in the pool, kept as a set so that the proof can see they are allocated. */
    ghost var members: set<Schedule>

    /** The schedules the pool holds. */
    ghost function Pooled(): set<Schedule>
      reads this`pool
    {
      ItemSet(Items(pool))
    }

    /** A non-partial schedule of this instance, consistent, with an entry for every slot. */
    ghost predicate Usable(s: Schedule)
      reads s, instance`events, instance`partialSchedule, instance`slots
    {
      s.instance == instance && !s.isPartialAssignment && s.Valid()
      && instance.slots.Values <= s.slotContents.Keys
    }

    /** The pool is an ordered tree of usable schedules of a consistent instance. */
    ghost predicate Valid()
      reads this`pool, this`members, members, instance`events, instance`slots, instance`partialSchedule,
        instance.events.Values`incompatibleEvents, instance.events.Values`pairs, instance.partialSchedule
    {
      pool.Node? && Pools.Valid(pool) && members == Pooled() && instance.Valid()
      && forall s :: s in members ==> Usable(s)
    }

    /** `new GeneticAlgorithm(instance)`: an empty pool. */
    constructor (instance: Instance)
      requires instance.Valid()
      ensures Valid() && this.instance == instance
      ensures Items(pool) == [] && pool.size == 0
      ensures !terminate && runCounter == 0
    {
      this.instance := instance;
      pool := Empty();
      members := {};
      terminate := false;
      runCounter := 0;
    }

    /**
     * `runSearch()`: until a settled pool ends the search, an overflowing
     * pool loses its worst schedules, an incomplete one gains a fresh
     * schedule, and any other gains a crossover (70 of 100 draws) or a
     * mutation of its best schedule; then the pool's best schedule. An
     * or-tree search that throws ends the run with its message; `fuel`
     * bounds the rounds.
     */
    method RunSearch(fuel: nat) returns (outcome: Outcome)
      requires Valid()
      modifies this, members
      ensures Valid()
      ensures outcome.Finished? ==> terminate && outcome.best == GetBest(pool)
      ensures outcome.Finished? && !old(terminate) ==> PoolPlateau() && outcome.best.Some?
      ensures outcome.Finished? && Items(pool) != [] ==>
        var s := Items(pool);
        outcome.best == Some(s[|s| - 1].item) && forall y :: y in s ==> s[|s| - 1].eval <= y.eval
      ensures outcome.Failed? ==> outcome.message in {NoScheduleFound, InvalidCreated, IncompleteCreated}
    {
      var rounds := fuel;
      while !terminate
        invariant Valid()
        invariant terminate ==> old(terminate) || PoolPlateau()
        invariant forall s :: s in members ==> s in old(members) || fresh(s)
        decreases rounds
      {
        if rounds == 0 {
          return OutOfFuel;
        }
        rounds := rounds - 1;
        var failure := Step(fuel);
        if failure.Some? {
          return Failed(failure.value);
        }
      }
      SizeIsEntries(pool);
      if Items(pool) != [] {
        BestIsLowest(pool);
      }
      outcome := Finished(GetBest(pool));
    }

    /** One round of the loop of `runSearch`, with the message of a search that throws. */
    method Step(fuel: nat) returns (failure: Option<string>)
      requires Valid() && !terminate
      modifies this, members
      ensures Valid()
      ensures terminate ==> PoolPlateau()
      ensures forall s :: s in members ==> s in old(members) || fresh(s)
      ensures failure.Some? ==> failure.value in {NoScheduleFound, InvalidCreated, IncompleteCreated}
    {
      FWert();
      if caseOverflow {
        Overflow();
        return None;
      }
      failure := Extend(fuel);
    }

    /** A round on a pool that is not overflowing: `pool.add` of the schedule `Breed` returns. */
    method Extend(fuel: nat) returns (failure: Option<string>)
      requires Valid() && !caseOverflow
      requires caseIncomplete <==> pool.size < MinSchedules
      modifies this`pool, this`members, members
      ensures Valid()
      ensures forall s :: s in members ==> s in old(members) || fresh(s)
      ensures failure.Some? ==> failure.value in {NoScheduleFound, InvalidCreated, IncompleteCreated}
      ensures failure.Some? ==> pool == old(pool)
      ensures failure.None? ==> pool.size == old(pool.size) + 1
      ensures failure.None? ==>
        (exists s :: s in members && Items(pool) == Insert(old(Items(pool)), Ranked(s, s.Value())))
    {
      var next := Breed(fuel);
      if next.Failure? {
        return Some(next.error);
      }
      assert next.value.AllPlaced();
      AddToPool(next.value);
      return None;
    }

    /**
     * The schedule a round adds to a pool that is not overflowing: a fresh
     * one when the pool is incomplete, otherwise a crossover or a mutation
     * of its best schedule.
     */
    method Breed(fuel: nat) returns (next: Result<Schedule, string>)
      requires Valid() && !caseOverflow
      requires caseIncomplete <==> pool.size < MinSchedules
      modifies members
      ensures Valid() && members == old(members)
      ensures next.Success? ==> (next.value in members || fresh(next.value)) && Usable(next.value)
      ensures next.Success? ==> next.value.HardValid() && next.value.IsComplete()
      ensures next.Failure? ==> next.error in {NoScheduleFound, InvalidCreated, IncompleteCreated}
    {
      if caseIncomplete {
        next := Rand(fuel);
      } else {
        var transition := FSelect(CrossoverBias);
        if transition == CrossoverName {
          next := Crossover(fuel);
        } else {
          next := Mutation(fuel);
        }
      }
    }

    /** `fWert()`: the pool is overflowing above the maximum and incomplete below the minimum. */
    method FWert()
      requires Valid()
      modifies this`caseOverflow, this`caseIncomplete
      ensures Valid()
      ensures caseOverflow <==> pool.size > MaxSchedules
      ensures caseIncomplete <==> pool.size < MinSchedules
      ensures !(caseOverflow && caseIncomplete)
    {
      caseOverflow := pool.size > MaxSchedules;
      caseIncomplete := pool.size < MinSchedules;
    }

    /** `fSelect(r)`: crossover when a draw out of 100 falls below `r`, mutation otherwise. */
    method FSelect(r: int) returns (transition: string)
      ensures transition == CrossoverName || transition == MutationName
      ensures r >= 100 ==> transition == CrossoverName
      ensures r <= 0 ==> transition == MutationName
    {
      var chance :| 0 <= chance < 100;
      transition := if chance < r then CrossoverName else MutationName;
    }

    /**
     * `poolPlateau()`: the pool is full enough and has overflowed often
     * enough. The fitness figures it computes along the way decide nothing.
     */
    predicate PoolPlateau()
      reads this
    {
      pool.Node? && pool.size >= MinSchedules && runCounter >= PlateauRuns
    }

    /** The pool has settled once it holds at least 100 schedules and has overflowed at least 5 times. */
    lemma PoolPlateauMeans()
      ensures PoolPlateau() <==> pool.Node? && pool.size >= 100 && runCounter >= 5
    {
    }

    /** A settled valid pool has a best and a worst schedule. */
    lemma PlateauHasBest()
      requires Pools.Valid(pool) && PoolPlateau()
      ensures GetBest(pool).Some? && GetWorst(pool).Some?
      ensures |Items(pool)| >= MinSchedules
    {
      SizeIsEntries(pool);
    }

    /** `pool.add(s)`: `s` joins the pool under its evaluation. */
    method AddToPool(s: Schedule)
      requires Valid() && Usable(s) && s.AllPlaced()
      modifies this`pool, this`members
      ensures Valid()
      ensures Items(pool) == Insert(old(Items(pool)), Ranked(s, old(s.Value())))
      ensures pool.size == old(pool.size) + 1
      ensures members == old(members) + {s}
      ensures s.Value() == old(s.Value())
    {
      var v := s.Eval();
      ValidKept();
      assert instance.partialSchedule != null;
      ValueKept(s);
      GrowPool(s, v);
    }

    /** The insertion `pool.add` makes once the schedule is evaluated. */
    method GrowPool(s: Schedule, v: int)
      requires Valid() && Usable(s)
      modifies this`pool, this`members
      ensures Valid()
      ensures Items(pool) == Insert(old(Items(pool)), Ranked(s, v))
      ensures pool.size == old(pool.size) + 1
      ensures members == old(members) + {s}
      ensures s.Value() == old(s.Value())
    {
      InsertItems(Items(pool), Ranked(s, v));
      pool := Add(pool, s, v);
      members := members + {s};
      ValueKept(s);
    }

    /** A call that changes nothing keeps the pool valid. */
    twostate lemma ValidKept()
      requires old(Valid())
      requires unchanged(this) && unchanged(members) && unchanged(instance)
      requires unchanged(instance.events.Values) && unchanged(instance.partialSchedule)
      ensures Valid()
    {
    }

    /** A call that changes one pooled schedule, and leaves it usable, keeps the pool valid. */
    twostate lemma ValidKeptBut(changed: Schedule)
      requires old(Valid()) && changed in members && Usable(changed)
      requires unchanged(this) && unchanged(members - {changed}) && unchanged(instance)
      requires unchanged(instance.events.Values) && unchanged(instance.partialSchedule)
      ensures Valid()
    {
      forall x | x in members ensures Usable(x) {
        if x != changed {
          assert old(Usable(x));
        }
      }
    }

    /** A call that changes nothing keeps a schedule's evaluation. */
    twostate lemma ValueKept(s: Schedule)
      requires s.instance == instance && instance.partialSchedule != null
      requires unchanged(s) && unchanged(instance) && unchanged(instance.events.Values) && unchanged(instance.partialSchedule)
      ensures s.Value() == old(s.Value())
    {
    }

    /**
     * The overflow case of `runSearch`: the worst schedules are dropped,
     * the round is counted, and a settled pool ends the search.
     */
    method Overflow()
      requires Valid()
      modifies this`pool, this`members, this`runCounter, this`terminate
      ensures Valid()
      ensures Items(pool) == DropWorst(old(Items(pool)), DeleteSchedules)
      ensures runCounter == old(runCounter) + 1
      ensures terminate <==> old(terminate) || PoolPlateau()
      ensures members <= old(members)
    {
      DropItems(Items(pool), DeleteSchedules);
      pool := Remove(pool, DeleteSchedules);
      members := Pooled();
      runCounter := runCounter + 1;
      if PoolPlateau() {
        terminate := true;
      }
    }

    /** `Rand()`: a fresh or-tree search without a template. */
    method Rand(fuel: nat) returns (r: Result<Schedule, string>)
      requires Valid()
      ensures r.Success? ==> fresh(r.value) && Usable(r.value)
      ensures r.Success? ==> r.value.HardValid() && r.value.IsComplete()
      ensures r.Failure? ==> r.error in {NoScheduleFound, InvalidCreated, IncompleteCreated}
    {
      var ortree := new ORTree(instance, null);
      r := ortree.RunSearch(fuel);
    }

    /** The schedule the pool ranks best. */
    ghost function Best(): Schedule
      requires pool.Node? && Pools.Valid(pool) && pool.size >= 1
      reads this`pool
    {
      SizeIsEntries(pool);
      GetBest(pool).value
    }

    /**
     * `Mutation()`: the pool's best schedule is changed in place, at most
     * twice moving one of its own unfixed events to a random candidate
     * slot through the validating `assign`, and then completed by an
     * or-tree search with it as the template.
     */
    method Mutation(fuel: nat) returns (r: Result<Schedule, string>)
      requires Valid() && pool.size >= 1
      modifies Best()`schedule, Best()`slotContents
      ensures Valid()
      ensures exists moved: set<string> ::
                (|moved| <= 2 && moved !! Best().FixedIds() && SameOutside(old(Best().schedule), Best().schedule, moved))
      ensures r.Success? ==> (r.value == Best() || fresh(r.value)) && Usable(r.value)
      ensures r.Success? ==> r.value.HardValid() && r.value.IsComplete()
      ensures r.Failure? ==> r.error in {NoScheduleFound, InvalidCreated, IncompleteCreated}
    {
      var template := BestSchedule();
      Rework(template, null);
      r := Complete(template, fuel);
    }

    /**
     * `Crossover()`: like `Mutation`, but each moved event takes the slot
     * the pool's second best schedule gives it, when it gives one.
     */
    method Crossover(fuel: nat) returns (r: Result<Schedule, string>)
      requires Valid() && pool.size >= 2
      modifies Best()`schedule, Best()`slotContents
      ensures Valid()
      ensures exists moved: set<string> ::
                (|moved| <= 2 && moved !! Best().FixedIds() && SameOutside(old(Best().schedule), Best().schedule, moved))
      ensures r.Success? ==> (r.value == Best() || fresh(r.value)) && Usable(r.value)
      ensures r.Success? ==> r.value.HardValid() && r.value.IsComplete()
      ensures r.Failure? ==> r.error in {NoScheduleFound, InvalidCreated, IncompleteCreated}
    {
      var template := BestSchedule();
      SizeIsEntries(pool);
      var template2 := Get2Best(pool).value;
      Rework(template, template2);
      r := Complete(template, fuel);
    }

    /**
     * The loop `Mutation` and `Crossover` share: at most two rounds of
     * `MutateOnce`, ending early when the template has no unfixed event.
     */
    method Rework(template: Schedule, partner: Schedule?)
      requires Valid() && template in members
      modifies template`schedule, template`slotContents
      ensures Valid()
      ensures exists moved: set<string> ::
                (|moved| <= 2 && moved !! template.FixedIds() && SameOutside(old(template.schedule), template.schedule, moved))
    {
      ghost var moved: set<string> := {};
      var k := 2;
      while k > 0
        invariant 0 <= k <= 2 && |moved| <= 2 - k
        invariant Valid() && template in members
        invariant moved !! template.FixedIds()
        invariant SameOutside(old(template.schedule), template.schedule, moved)
      {
        var stop, id, slot := MutateOnce(template, partner);
        if stop {
          break;
        }
        moved := moved + {id};
        k := k - 1;
      }
    }

    /** `pool.getBest()` on a non-empty pool. */
    method BestSchedule() returns (template: Schedule)
      requires Valid() && pool.size >= 1
      ensures template == Best() && template in members
    {
      SizeIsEntries(pool);
      template := GetBest(pool).value;
    }

    /**
     * One round of the loop of `Mutation` (no partner) or `Crossover`
     * (`partner` is the second best schedule): a random unfixed event `id`
     * of the template goes through the validating `assign` to the slot
     * `PickSlot` chooses, and either lands there or stays put; `stop` when
     * the template has no such event.
     */
    method MutateOnce(template: Schedule, partner: Schedule?) returns (stop: bool, ghost id: string, ghost slot: Option<Slot>)
      requires Valid() && template in members
      modifies template`schedule, template`slotContents
      ensures Valid() && template.FixedIds() == old(template.FixedIds())
      ensures stop <==> old(template.schedule.Keys <= template.FixedIds())
      ensures stop ==> template.schedule == old(template.schedule)
      ensures !stop ==> id in old(template.schedule) && id !in template.FixedIds() && SameOutside(old(template.schedule), template.schedule, {id})
      ensures !stop ==> template.schedule[id] == old(template.schedule[id]) || slot == Some(template.schedule[id])
    {
      var e := PickEvent(template);
      if e.None? {
        return true, "", None;
      }
      var t := PickSlot(template, e.value, partner);
      Reassign(template, e.value, t);
      return false, e.value.id, t;
    }

    /** `template.getRandomMutableEvent()`: some event the template places itself and the partial schedule does not fix. */
    method PickEvent(template: Schedule) returns (e: Option<Event>)
      requires Valid() && template in members
      ensures Valid()
      ensures e.Some? ==> e.value.id in template.schedule && e.value.id !in template.FixedIds()
      ensures e.Some? ==> e.value.id in instance.events && instance.events[e.value.id] == e.value
      ensures e.None? <==> template.schedule.Keys <= template.FixedIds()
    {
      e := template.GetRandomMutableEvent();
      ValidKept();
    }

    /**
     * The slot a round tries for `e`: a random candidate slot of the
     * template in `Mutation`, the partner's slot for `e` in `Crossover`.
     */
    method PickSlot(template: Schedule, e: Event, partner: Schedule?) returns (t: Option<Slot>)
      requires Valid() && template in members
      ensures Valid()
      ensures partner == null && t.Some? ==> t.value in template.CandidateSet(e)
      ensures partner == null && t.None? ==> template.CandidateSet(e) == {}
      ensures partner != null ==> t == partner.GetSlotFromEvent(e.id)
    {
      if partner == null {
        t := template.GetRandomCandidateSlot(e);
        ValidKept();
      } else {
        t := partner.GetSlotFromEvent(e.id);
      }
    }

    /** `new ORTree(instance, template).runSearch()`. */
    method Complete(template: Schedule, fuel: nat) returns (r: Result<Schedule, string>)
      requires Valid() && template in members
      ensures Valid()
      ensures r.Success? ==> (r.value == template || fresh(r.value)) && Usable(r.value)
      ensures r.Success? ==> r.value.HardValid() && r.value.IsComplete()
      ensures r.Failure? ==> r.error in {NoScheduleFound, InvalidCreated, IncompleteCreated}
    {
      var ortree := new ORTree(instance, template);
      r := ortree.RunSearch(fuel);
      ValidKept();
    }

    /** `template.assign(e, t)` on a pooled schedule, for an event it already places. */
    method Reassign(template: Schedule, e: Event, t: Option<Slot>)
      requires Valid() && template in members && e.id in template.schedule
      modifies template`schedule, template`slotContents
      ensures Valid() && template.FixedIds() == old(template.FixedIds())
      ensures SameOutside(old(template.schedule), template.schedule, {e.id})
      ensures template.schedule[e.id] == old(template.schedule[e.id]) || t == Some(template.schedule[e.id])
    {
      ghost var sched0, sc0 := template.schedule, template.slotContents;
      var ok := template.Assign(e, t, true);
      if t.Some? {
        AssignKeepsSlots(sched0, sc0, e.id, t.value);
      }
      assert Usable(template);
      ValidKeptBut(template);
    }
  }
}

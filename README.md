# Soccer scheduler, modelled in Dafny

The scheduler places the games and practices of a soccer league into the
time slots of a weekly timetable. Some constraints are hard: slot capacities,
game or practice kind, evening divisions, incompatible events, the Tuesday
11:00 meeting, the CMSA special practices and the U15 to U19 rule. Others are
soft and weighted: minimum filling, preferences, pairs and sections of a tier
at the same time. A complete schedule that keeps the hard constraints is found
by an or-tree, a randomised depth-first search with backtracking. A genetic
algorithm then keeps a pool of such schedules, ranked by their soft penalty in
a binary search tree, and breeds new ones from the best by mutation and
crossover.

The project has these modules:

- `Common` (common.dfy): `Option`, `Result` and an enumeration of a set in an
  order left open.
- `Slots` (slots.dfy): `Slot` as a datatype, with parsing of "HH:MM", the
  durations, the effective capacity and the overlap test.
- `Divisions` (divisions.dfy): `Division` and its "same players" relation.
- `Events` (events.dfy): the reading of event identifiers and the `Event`
  class, whose relation sets are updated in place.
- `Instances` (instances.dfy): the `Instance` class, which registers slots,
  events and their relations, and the `Schedule` class. A schedule is an
  event-to-slot map with its slot-to-events index. It covers assignment with
  the hard checks, candidates, the scheduling order and the evaluation.
- `Penalties` (penalties.dfy): the soft penalties as pure functions over the
  maps of a schedule, with lemmas about them.
- `SoftConstraints` (soft.dfy): the loops that compute those penalties,
  proved equal to the functions.
- `Pools` (pool.dfy): the binary search tree of ranked schedules as a value.
  It covers add, remove of the worst, and the best, second best and worst.
- `Search` (search.dfy): the `ORTree` class.
- `Genetic` (genetic.dfy): the `GeneticAlgorithm` class.

Randomness becomes nondeterminism. A random draw is `:|` over its range, and
a shuffle or the iteration of a hash set is `Enumerate`. Every contract
therefore holds for every outcome of the draws.

## Model

| member | source | states |
|---|---|---|
| Common.Enumerate | src/main/java/com/scheduler/search/ORTree.java:134 | lists each element of the set exactly once, in some order: it stands for a shuffle or a hash-set iteration |
| Slots.Int32 | src/main/java/com/scheduler/model/Slot.java:145 | `int` arithmetic: the result lies in the 32-bit range, and a value already inside it is kept |
| Slots.ParseInt | src/main/java/com/scheduler/model/Slot.java:142-143 | `Integer.parseInt` accepts only values in the 32-bit range, and every failure is a `NumberFormatException` whose message is `For input string: "s"` |
| Slots.ParseIntOfDigits | src/main/java/com/scheduler/model/Slot.java:142-143 | an unsigned numeral of up to nine ASCII digits parses to its decimal value |
| Slots.SplitOfTwo | src/main/java/com/scheduler/model/Slot.java:140 | splitting "h:m" on the colon gives exactly the two pieces |
| Slots.TimeToMinOfClock | src/main/java/com/scheduler/model/Slot.java:138-147 | `timeToMin` reads "h:m", two unsigned numerals of up to nine digits, as hours times sixty plus minutes computed in 32-bit `int` arithmetic |
| Slots.TimeOfReadParts | src/main/java/com/scheduler/model/Slot.java:142-145 | two pieces that both parse give hours times sixty plus minutes, in `int` arithmetic |
| Slots.TimeToMinNoWrap | src/main/java/com/scheduler/model/Slot.java:145 | with hours of at most seven digits nothing wraps, and the time is exactly hours times sixty plus minutes |
| Slots.TimeToMinWraps | src/main/java/com/scheduler/model/Slot.java:145 | when hours times sixty plus minutes passes the 32-bit maximum by at most 2^32, the time is that value minus 2^32 |
| Slots.TimeReadsHoursFirst | src/main/java/com/scheduler/model/Slot.java:140-143 | a time without a colon fails on its hours with the `parseInt` message when they are no number, and otherwise on the missing second piece |
| Slots.ClockValue | src/main/java/com/scheduler/model/Slot.java:138-147 | `timeToMin` of a two-digit "hh:mm" is its value in minutes |
| Slots.MeetingTimeValue | src/main/java/com/scheduler/model/Slot.java:155 | "11:00" is minute 660 |
| Slots.EveningStartValue | src/main/java/com/scheduler/model/Slot.java:214-216 | "18:00", where the evening starts, is minute 1080 |
| Slots.NewSlot | src/main/java/com/scheduler/model/Slot.java:50-68 | the constructor succeeds exactly when the start time parses, and otherwise fails with `timeToMin`'s exception; the id joins day, time text and kind; day, kind, min and start minute are kept; the stored maximum is 0 for a Tuesday game slot written "11:00" and the given maximum otherwise |
| Slots.Duration | src/main/java/com/scheduler/model/Slot.java:122-133 | a slot always lasts a positive number of minutes |
| Slots.Lengths | src/main/java/com/scheduler/model/Slot.java:115-133 | `EndTime` and `Duration`: a slot ends 90 minutes after its start exactly for a Tuesday game slot, 120 exactly for a Friday practice slot, and 60 otherwise |
| Slots.OverlapsMeansIntersecting | src/main/java/com/scheduler/model/Slot.java:177-209 | `Overlaps`: two slots overlap exactly when their days overlap and their half-open time intervals intersect |
| Slots.OverlapsSymmetric | src/main/java/com/scheduler/model/Slot.java:177-209 | overlapping is symmetric |
| Slots.OverlapsReflexive | src/main/java/com/scheduler/model/Slot.java:183-186 | every slot overlaps itself |
| Slots.DifferentDaysApart | src/main/java/com/scheduler/model/Slot.java:193-199 | slots on different days never overlap, except a Monday practice with a Friday slot |
| Slots.MeetingSlotHasNoRoom | src/main/java/com/scheduler/model/Slot.java:60-65 | a Tuesday game slot built from "11:00" is created and holds no game, whatever its declared maximum |
| Slots.MeetingTimeHasNoRoom | src/main/java/com/scheduler/model/Slot.java:152-160 | every Tuesday game slot at minute 660 has effective capacity 0 |
| Slots.GetMaxMeans | src/main/java/com/scheduler/model/Slot.java:152-160 | `GetMax` (`getMax`) is 0 for a Tuesday game slot that starts at the minute "11:00" reads as, and the stored maximum for every other slot |
| Slots.GetMaxOfNewSlot | src/main/java/com/scheduler/model/Slot.java:152-160 | the effective capacity of a new slot is 0 for a Tuesday game slot whose time reads as minute 660, however it is written, and the declared maximum otherwise |
| Slots.EveningMeans | src/main/java/com/scheduler/model/Slot.java:214-216 | `IsEvening` (`isEvening`) holds exactly when the slot starts at or after the minute "18:00" reads as |
| Slots.SpecialPracticeSlotMeans | src/main/java/com/scheduler/model/Slot.java:221-223 | `IsSpecialPracticeSlot` holds exactly for a Tuesday practice slot starting at the minute "11:00" reads as |
| Slots.OverlapsOptMeans | src/main/java/com/scheduler/model/Slot.java:177-209 | `OverlapsOpt` (`overlaps` with a possibly null argument): null overlaps nothing, and a slot overlaps exactly when the days overlap and the intervals intersect |
| Divisions.SameReflexive | src/main/java/com/scheduler/model/Division.java:70-99 | every division is the same as itself |
| Divisions.SameSymmetric | src/main/java/com/scheduler/model/Division.java:70-99 | `same` is symmetric |
| Divisions.DifferentLeaguesDiffer | src/main/java/com/scheduler/model/Division.java:83-85 | divisions of different leagues are never the same |
| Divisions.SameOutsideSpecialPairs | src/main/java/com/scheduler/model/Division.java:83-97 | `Same` (`same`): outside the CMSA special pairs, same means equal league and tier with equal numbers or a wildcard on either side |
| Divisions.SpecialPracticeMatchesBaseTier | src/main/java/com/scheduler/model/Division.java:73-80 | the U12T1S and U13T1S special practices are the same as every division of their base tier, in both directions |
| Divisions.DifferentTiersDiffer | src/main/java/com/scheduler/model/Division.java:87-89 | outside the special pairs, different tiers are never the same |
| Divisions.SameSharesTier | src/main/java/com/scheduler/model/Division.java:70-104 | `TierSame` (`tierSame`, which the source defines but never calls; the section penalty's grouping by tier, used here through `SectionClash`, compares tiers the same way): divisions that are the same share a tier unless they are the CMSA special partners, which never do; sharing a tier is symmetric |
| Divisions.EveningMeansLeadingNine | src/main/java/com/scheduler/model/Division.java:63-65 | `IsEvening`: a division is an evening one exactly when its number begins with 9 |
| Divisions.U15toU19MeansPrefix | src/main/java/com/scheduler/model/Division.java:109-111 | `IsU15toU19`: a tier is one of U15 to U19 exactly when it begins with "U1" and a digit from 5 to 9 |
| Events.WordsOfJoin | src/main/java/com/scheduler/model/Event.java:67 | the whitespace-separated words of tokens joined by spaces are those tokens |
| Events.SplitWsOfJoin | src/main/java/com/scheduler/model/Event.java:67 | `split("\\s+")` of tokens joined by single spaces gives the tokens back |
| Events.ParseEventId | src/main/java/com/scheduler/model/Event.java:64-117 | a read identifier has at least two words, the league first and the tier second; a game reads exactly when it has four words with "DIV" third; a practice reads exactly when it has six words with "DIV" third, four words without it, or is "CMSA U12T1S" or "CMSA U13T1S"; the division is the fourth word when "DIV" is third, and every division otherwise |
| Events.GameIdRoundTrip | src/main/java/com/scheduler/model/Event.java:80-87 | "L T DIV n" reads as a game of league L, tier T, division n, and never as a practice |
| Events.DivisionPracticeIdRoundTrip | src/main/java/com/scheduler/model/Event.java:92-96 | "L T DIV n PRC m" reads as a practice of division n, and never as a game |
| Events.TierPracticeIdRoundTrip | src/main/java/com/scheduler/model/Event.java:98-102 | "L T PRC m" reads as a practice of every division, and never as a game |
| Events.SpecialPracticeIdParses | src/main/java/com/scheduler/model/Event.java:104-108 | "CMSA U12T1S" and "CMSA U13T1S" read as practices of every division, and never as games |
| Events.OneWordRejected | src/main/java/com/scheduler/model/Event.java:69-71 | a one-word identifier is always an exception |
| Events.Event.constructor | src/main/java/com/scheduler/model/Event.java:64-121 | the event gets the division its identifier reads as, and empty relations |
| Events.Event.Create | src/main/java/com/scheduler/model/Event.java:64-121 | the constructor throws exactly when the identifier does not read, with the reader's message |
| Events.Event.SetIncompatible | src/main/java/com/scheduler/model/Event.java:163-172 | both events record each other as incompatible; nothing changes for the same identifier |
| Events.Event.SetUnwanted | src/main/java/com/scheduler/model/Event.java:206-208 | the slot joins the unwanted set |
| Events.Event.SetPreference | src/main/java/com/scheduler/model/Event.java:242-244 | the slot's weight is set, replacing any earlier one |
| Events.Event.SetPair | src/main/java/com/scheduler/model/Event.java:267-273 | both events record each other as paired |
| Events.Event.CompatibleMeans | src/main/java/com/scheduler/model/Event.java:324-360 | `IsCompatible`: a slot is compatible exactly when it is not unwanted, has the event's kind, is at or after minute 1080 for an evening event, and is the Tuesday practice slot at minute 660 for a special practice |
| Events.Event.SpecialGameFitsNowhere | src/main/java/com/scheduler/model/Event.java:316-356 | `IsSpecialPractice` looks at league and tier only, so a game of a special practice's tier is compatible with no slot |
| Instances.SpecialPracticeIdReads | src/main/java/com/scheduler/model/Instance.java:278 | the identifier "CMSA <tier>S" of a special practice is one the `Event` constructor accepts, as a practice of every division |
| Instances.Instance.constructor | src/main/java/com/scheduler/model/Instance.java:56-76 | the weights and penalties are stored, the tables are empty, and the partial schedule is a fresh empty schedule of this instance |
| Instances.Instance.GetSlot | src/main/java/com/scheduler/model/Instance.java:138-147 | the slot stored under "day time type", or none when no slot has that identifier |
| Instances.Instance.SlotOfKind | src/main/java/com/scheduler/model/Instance.java:347-352 | the slot of the event's kind with that day and time, or none when no slot of that kind has that identifier |
| Instances.Instance.AddSlot | src/main/java/com/scheduler/model/Instance.java:224-226 | the slot is stored under its identifier, replacing any earlier one, and the instance stays valid |
| Instances.Instance.LinkedSets | src/main/java/com/scheduler/model/Event.java:163-172 | after both events gained each other, the relations read through the event map are the old ones with that link added |
| Instances.Instance.LinkKeepsValid | src/main/java/com/scheduler/model/Instance.java:313-323 | linking two registered events both ways keeps the relations closed, symmetric and irreflexive |
| Instances.Instance.AddIncompatible | src/main/java/com/scheduler/model/Instance.java:313-323 | with both ids known, the two become incompatible both ways, unless the ids are equal; otherwise nothing changes; pairs, unwanted slots and preferences stay |
| Instances.Instance.AddPair | src/main/java/com/scheduler/model/Instance.java:410-420 | with both ids known, the two are paired both ways and a self-pair is allowed; otherwise nothing changes; the instance stays valid |
| Instances.Instance.RegisteredSets | src/main/java/com/scheduler/model/Instance.java:245 | putting a fresh event with no relations under a new key gives it empty relations and changes no other entry |
| Instances.Instance.RegisterEvent | src/main/java/com/scheduler/model/Instance.java:245-268 | the event is stored and linked as incompatible to exactly the registered events it clashes with; pairs gain an empty entry |
| Instances.Instance.LinkClashes | src/main/java/com/scheduler/model/Instance.java:248-268 | the loop over all events links the new one to exactly those it clashes with |
| Instances.Instance.LinkStep | src/main/java/com/scheduler/model/Instance.java:248-268 | one pass of the loop adds the link exactly when the event looked at clashes |
| Instances.Instance.LinkIfClashing | src/main/java/com/scheduler/model/Instance.java:250-267 | reports and adds the link exactly for a different event that clashes: a game on either side with the same division, two U15 to U19 games, or two practices where the new one is for all divisions and the same |
| Instances.Instance.AddEvent | src/main/java/com/scheduler/model/Instance.java:233-305 | a known id leaves everything unchanged; otherwise the event, and for a CMSA U12T1/U13T1 game its special practice, are registered with their clashes; the practice is fixed to Tuesday 18:00 in the partial assignment; the partial schedule takes that slot for the practice exactly when the id is new, the game needs the practice, the slot exists and the practice fits there (right kind, evening rule, room left, no incompatible event in an overlapping slot), and is unchanged otherwise |
| Instances.Instance.AddNewEvent | src/main/java/com/scheduler/model/Instance.java:244-303 | registration of an id not yet known, with the same effect on events, relations and fixed assignments; the partial schedule takes the Tuesday 18:00 slot for the special practice exactly when the game needs it and the practice fits there, and is unchanged otherwise |
| Instances.Instance.AddSpecialPractice | src/main/java/com/scheduler/model/Instance.java:272-299 | the special practice is registered, unless its id is known, then fixed to the Tuesday 18:00 practice slot, missing or not; the partial schedule takes that slot exactly when it exists and the practice, with the incompatibilities it got on registration, fits there, and is unchanged otherwise |
| Instances.Instance.RegisterSpecialPractice | src/main/java/com/scheduler/model/Instance.java:278-279 | `addEvent(specialPractice)`: a practice "CMSA <tier>S" of the game's tier is registered under its id, unless that id is known, with exactly the incompatibilities its clashes give; no fixed assignment changes |
| Instances.Instance.FixSpecialPractice | src/main/java/com/scheduler/model/Instance.java:281-289 | the partial assignment records the Tuesday 18:00 slot, possibly none; the result is true exactly when that slot exists, the practice is registered and it fits there, and the partial schedule then takes the slot and otherwise stays as it was |
| Instances.Instance.FixAssignment | src/main/java/com/scheduler/model/Instance.java:454-456 | the partial assignment records the slot; the partial schedule takes it exactly when the slot and event exist and the hard checks pass |
| Instances.Instance.SetFixed | src/main/java/com/scheduler/model/Instance.java:454 | the partial assignment maps the event to the slot and nothing else changes |
| Instances.Instance.AssignFixed | src/main/java/com/scheduler/model/Instance.java:456 | the partial schedule takes the slot exactly when the validating `assign` succeeds, and the registry is unchanged |
| Instances.Instance.AddPartialAssignment | src/main/java/com/scheduler/model/Instance.java:436-461 | an unknown event, a missing slot of its kind and an event already fixed are each an exception that changes nothing; otherwise the fixed slot is recorded and the partial schedule takes it exactly when the hard checks pass |
| Instances.Instance.NewSpecialPractice | src/main/java/com/scheduler/model/Instance.java:278 | a fresh practice "CMSA <tier>S" of every division of that tier, with no relations |
| Instances.Instance.AddUnwanted | src/main/java/com/scheduler/model/Instance.java:339-359 | a known event gains the slot of its kind at that day and time as unwanted when that slot exists; nothing else changes |
| Instances.Instance.AddPreference | src/main/java/com/scheduler/model/Instance.java:376-394 | a known event gets the weight for the slot of its kind at that day and time when that slot exists; nothing else changes |
| Instances.Instance.GetCompatibleSlots | src/main/java/com/scheduler/model/Instance.java:476-487 | exactly the instance's slots the event accepts |
| Instances.Schedule.constructor | src/main/java/com/scheduler/model/Schedule.java:50-65 | no assignment, and an empty entry for every slot of the instance |
| Instances.Schedule.NewSchedule | src/main/java/com/scheduler/model/Schedule.java:70-72 | a fresh valid non-partial schedule with an empty entry per slot |
| Instances.Schedule.GetEventsFromSlot | src/main/java/com/scheduler/model/Schedule.java:225-246 | the schedule's own occupants of the slot and the partial schedule's |
| Instances.Schedule.GetSlotFromEvent | src/main/java/com/scheduler/model/Schedule.java:254-267 | the schedule's own slot first, else the partial schedule's, and none exactly when neither assigns the event |
| Instances.Schedule.AvailableHasOwnRoom | src/main/java/com/scheduler/model/Schedule.java:366-388 | a slot that `slotAvailable` accepts still has room in the schedule's own count |
| Instances.Schedule.IsPotentialAssignmentValid | src/main/java/com/scheduler/model/Schedule.java:536-591 | true exactly when the kinds match, an evening event gets an evening slot, the own occupants are fewer than the effective capacity, and no incompatible event sits in an overlapping slot in the merged view |
| Instances.Schedule.Assign | src/main/java/com/scheduler/model/Schedule.java:462-500 | fails, with no assignment changed, for a missing slot, an unknown event or a failed check; the check does not count the event itself; on success the event moves to the slot and the index stays the exact inverse; a valid schedule stays valid after a failure, and after a checked success when the event is the registered one and incompatibility is symmetric and irreflexive |
| Instances.Schedule.Move | src/main/java/com/scheduler/model/Schedule.java:476-499 | moves the event, or on a failed check restores its previous slot |
| Instances.Schedule.DetachFrom | src/main/java/com/scheduler/model/Schedule.java:476-482 | the slot gets an entry and the event is taken out of its previous slot, which is returned |
| Instances.Schedule.ClearAssignment | src/main/java/com/scheduler/model/Schedule.java:519-531 | the event leaves the schedule and its slot, and the index stays the exact inverse |
| Instances.Schedule.CheckValid | src/main/java/com/scheduler/model/Schedule.java:596-650 | true exactly when every assignment has the right kind, evening slot, capacity and no overlapping incompatible event |
| Instances.Schedule.Complete | src/main/java/com/scheduler/model/Schedule.java:655-668 | true exactly when every event is placed by the schedule or fixed by the partial schedule |
| Instances.Schedule.GetCandidateSlots | src/main/java/com/scheduler/model/Schedule.java:396-423 | exactly the slots of the event's kind that it accepts and that pass the check |
| Instances.Schedule.GetRandomCandidateSlot | src/main/java/com/scheduler/model/Schedule.java:431-451 | some candidate slot, or none exactly when there is none |
| Instances.Schedule.GetUnassignedEvents | src/main/java/com/scheduler/model/Schedule.java:113-137 | exactly the events that neither the schedule nor the partial schedule assigns |
| Instances.Schedule.GetSchedulingOrder | src/main/java/com/scheduler/model/Schedule.java:142-184 | every unassigned event exactly once, evening games first, then evening practices, other games and other practices |
| Instances.Schedule.OrderEvents | src/main/java/com/scheduler/model/Schedule.java:150-183 | a permutation of the given events, grouped in the four groups in order |
| Instances.Schedule.SplitGroups | src/main/java/com/scheduler/model/Schedule.java:155-176 | sorts the events into exactly the four groups |
| Instances.Schedule.GetRandomMutableEvent | src/main/java/com/scheduler/model/Schedule.java:189-217 | on a non-partial schedule, some event it places that the partial schedule does not fix; none exactly when there is none or the schedule is the partial one |
| Instances.Schedule.EvalMinFilled | src/main/java/com/scheduler/model/Schedule.java:697-720 | the sum over slots of the shortfall below the minimum, in the merged count, times the kind's penalty |
| Instances.Schedule.EvalPref | src/main/java/com/scheduler/model/Schedule.java:729-748 | the sum of the weights of the preferred slots each event does not hold |
| Instances.Schedule.EvalPair | src/main/java/com/scheduler/model/Schedule.java:756-787 | the penalty times the number of unordered paired couples not in overlapping slots |
| Instances.Schedule.Eval | src/main/java/com/scheduler/model/Schedule.java:673-687 | the weighted sum of the four penalties of the current state |
| Instances.Schedule.EvalSecDiff | src/main/java/com/scheduler/model/Schedule.java:796-827 | the penalty times the number of unordered pairs of one tier, different divisions, in overlapping slots |
| Instances.GroupedConcat | src/main/java/com/scheduler/model/Schedule.java:178-183 | the four groups concatenated are a permutation of their union, in group order |
| Instances.AssignKeepsHardValid | src/main/java/com/scheduler/model/Schedule.java:536-591 | an assignment that passes the check keeps a valid schedule valid |
| Instances.ClearKeepsHardValid | src/main/java/com/scheduler/model/Schedule.java:519-531 | clearing an assignment keeps a valid schedule valid |
| Instances.ReassignSameSlot | src/main/java/com/scheduler/model/Schedule.java:479-499 | re-assigning an event to the slot it holds leaves both maps as they were |
| Instances.ClearOwn | src/main/java/com/scheduler/model/Schedule.java:519-531 | clearing `id` gives the index of the assignment without it |
| Instances.AttachOwn | src/main/java/com/scheduler/model/Schedule.java:497-498 | placing the event gives the index of the updated assignment |
| Instances.RestoreOwn | src/main/java/com/scheduler/model/Schedule.java:488-490 | restoring the previous slot after a failed check gives back the old index |
| Instances.AttachedCount | src/main/java/com/scheduler/model/Schedule.java:555-566 | after a move a slot holds no more than before, or the checked count plus the moved event |
| Instances.AttachedNeighbours | src/main/java/com/scheduler/model/Schedule.java:569-587 | an event left in place still has no overlapping incompatible neighbour after another event moved |
| Instances.ClashIdsInStep | src/main/java/com/scheduler/model/Instance.java:248-268 | looking at one more event adds it to the clashing ids exactly when it clashes |
| Instances.AddClashesKeepsRels | src/main/java/com/scheduler/model/Instance.java:248-268 | linking the new event both ways to other registered ones keeps the relation closed, symmetric and irreflexive |
| Instances.SpecialPracticeAdded | src/main/java/com/scheduler/model/Instance.java:272-303 | registering the game and then its special practice has the combined effect on ids and relations that `addEvent` promises |
| Instances.RegisteredEntry | src/main/java/com/scheduler/model/Instance.java:248-268 | after registration, an old event is linked back to the new one exactly on a clash, and is otherwise as before |
| Instances.RegisterLinks | src/main/java/com/scheduler/model/Instance.java:245-268 | registration links the new event, both ways, to exactly its clashes, leaves every old link, and keeps the relation closed |
| Instances.LinkedKept | src/main/java/com/scheduler/model/Instance.java:272-299 | later links that leave the new event's entries alone keep it linked to exactly its clashes |
| Instances.AddedLinks | src/main/java/com/scheduler/model/Instance.java:233-305 | the whole effect of `addEvent` on incompatibility: the new event, and a special practice it brings, are linked to exactly their clashes, and no link among known events changes |
| Instances.ClashStep | src/main/java/com/scheduler/model/Instance.java:248-268 | one pass of the loop keeps the relation equal to the new event linked to the clashes seen so far |
| Instances.AddClashesStep | src/main/java/com/scheduler/model/Instance.java:255-266 | linking one more id is one both-ways link |
| Instances.ExtendPreserves | src/main/java/com/scheduler/model/Instance.java:245 | a new key with no related ids keeps a relation closed, symmetric and irreflexive |
| Instances.LinkPreserves | src/main/java/com/scheduler/model/Event.java:163-172 | linking two keys both ways keeps a relation closed and symmetric, and irreflexive when they differ |
| Instances.LinkKeepsClosed | src/main/java/com/scheduler/model/Event.java:163-172 | linking two registered keys keeps the relation closed |
| Instances.LinkKeepsSymmetric | src/main/java/com/scheduler/model/Event.java:163-172 | linking both ways keeps the relation symmetric |
| Instances.DetachOwn | src/main/java/com/scheduler/model/Schedule.java:476-482 | after reserving the slot and detaching the event, no slot holds the event and the rest is as before |
| Penalties.SumZero | src/main/java/com/scheduler/model/Schedule.java:701-717 | a sum of non-negative terms is non-negative, and zero exactly when every term is |
| Penalties.MinFillStep | src/main/java/com/scheduler/model/Schedule.java:703-716 | one pass over a slot adds its shortfall below the minimum times its kind's penalty |
| Penalties.UnderMinSign | src/main/java/com/scheduler/model/Schedule.java:705-716 | with positive penalties a slot's charge is non-negative, and zero exactly when it holds its minimum |
| Penalties.MinFilledZero | src/main/java/com/scheduler/model/Schedule.java:697-720 | `MinFilled`: with positive penalties the minimum-fill component is non-negative, and zero exactly when every slot holds its minimum |
| Penalties.MissedZero | src/main/java/com/scheduler/model/Schedule.java:735-744 | with positive weights an event misses nothing exactly when every slot it prefers is the one it holds |
| Penalties.PrefZero | src/main/java/com/scheduler/model/Schedule.java:729-748 | `Pref`: with positive weights the preference component is non-negative, and zero exactly when every event holds every slot it prefers |
| Penalties.TogetherSymmetric | src/main/java/com/scheduler/model/Schedule.java:778 | two events placed in overlapping slots, in either order |
| Penalties.PairTogetherOf | src/main/java/com/scheduler/model/Schedule.java:766-769 | the unordered pair {a, b} is together exactly when a and b are |
| Penalties.UnpairedMeans | src/main/java/com/scheduler/model/Schedule.java:756-787 | a couple named by one of its members is charged exactly when its members are not in overlapping slots |
| Penalties.UnpairedAmongAdd | src/main/java/com/scheduler/model/Schedule.java:772-782 | exploring one more pair charges it exactly when it is new and its members are apart |
| Penalties.ExploreStep | src/main/java/com/scheduler/model/Schedule.java:764-783 | one pass of the inner loop keeps the penalty equal to the penalty times the number of unpaired pairs explored |
| Penalties.PairsOfStep | src/main/java/com/scheduler/model/Schedule.java:762-785 | one more event adds its pairs with each of its partners |
| Penalties.UnpairedNone | src/main/java/com/scheduler/model/Schedule.java:756-787 | `Unpaired`: the pairing component is zero exactly when every pair of paired events shares a time |
| Penalties.SectionClashSymmetric | src/main/java/com/scheduler/model/Schedule.java:816-817 | a section clash is symmetric in the two events |
| Penalties.ClashesUpToStep | src/main/java/com/scheduler/model/Schedule.java:815-822 | the pair at positions i < j of a list without repeats is new to the earlier pairs |
| Penalties.ClashesUpToNext | src/main/java/com/scheduler/model/Schedule.java:814-823 | the end of the inner loop is the start of the next outer pass |
| Penalties.ClashesUpToTier | src/main/java/com/scheduler/model/Schedule.java:813-824 | once a tier's list is walked, its charged pairs are the section clashes of that tier |
| Penalties.TierStep | src/main/java/com/scheduler/model/Schedule.java:815-822 | one pass of the inner loop charges the pair exactly when it clashes |
| Penalties.SectionClashesInStep | src/main/java/com/scheduler/model/Schedule.java:813-824 | walking one more tier adds its clashes, none of which an earlier tier held |
| Penalties.SectionClashesAll | src/main/java/com/scheduler/model/Schedule.java:813-824 | once every tier is walked, the clashes are all of them |
| Penalties.SectionClashesNone | src/main/java/com/scheduler/model/Schedule.java:796-827 | `SectionClashes`: the section component is zero exactly when no two events of one tier and different divisions overlap |
| Penalties.EvaluateOf | src/main/java/com/scheduler/model/Schedule.java:677-680 | the weighted sum of the four components is the evaluation |
| Penalties.EvaluateZero | src/main/java/com/scheduler/model/Schedule.java:673-687 | `Evaluate`: with positive weights, penalties and preference weights, a schedule evaluates to a non-negative value, and to zero exactly when every slot holds its minimum, every preference is met, every pair shares a time and no two divisions of a tier overlap |
| SoftConstraints.MinFilledPenalty | src/main/java/com/scheduler/model/Schedule.java:697-720 | the loop computes the minimum-fill component over the merged counts |
| SoftConstraints.PrefPenalty | src/main/java/com/scheduler/model/Schedule.java:729-748 | the loops compute the preference component |
| SoftConstraints.MissedWeight | src/main/java/com/scheduler/model/Schedule.java:735-744 | the inner loop sums the weights of the preferred slots the event does not hold |
| SoftConstraints.PairPenalty | src/main/java/com/scheduler/model/Schedule.java:756-787 | the loops charge each unordered pair of paired events that are apart exactly once |
| SoftConstraints.Evaluation | src/main/java/com/scheduler/model/Schedule.java:677-680 | the four loops and the weighted sum compute the evaluation |
| SoftConstraints.GroupByTier | src/main/java/com/scheduler/model/Schedule.java:801-810 | the events grouped into one list per tier, each event once, in its own tier |
| SoftConstraints.TierPenalty | src/main/java/com/scheduler/model/Schedule.java:814-823 | the loops over one tier's list charge exactly its section clashes |
| SoftConstraints.TierPairsFrom | src/main/java/com/scheduler/model/Schedule.java:815-822 | the inner loop charges the clashes of position i with every later position |
| SoftConstraints.SecDiffPenalty | src/main/java/com/scheduler/model/Schedule.java:796-827 | the penalty times the number of section clashes, each unordered pair once |
| SoftConstraints.TierClashTest | src/main/java/com/scheduler/model/Schedule.java:816-817 | the test applied to two positions of a tier's list is a section clash |
| SoftConstraints.TierPairStep | src/main/java/com/scheduler/model/Schedule.java:815-822 | one step of the inner loop adds the penalty exactly for a section clash |
| Pools.Insert | src/main/java/com/scheduler/search/BSTree.java:34-68 | the pool's entries after `add`: one more, the same multiset plus the new entry |
| Pools.InsertWorstFirst | src/main/java/com/scheduler/search/BSTree.java:34-68 | inserting keeps the entries ordered worst first |
| Pools.InsertBefore | src/main/java/com/scheduler/search/BSTree.java:38-47 | an entry that does not beat the node stops before it, on the node's left |
| Pools.InsertAfter | src/main/java/com/scheduler/search/BSTree.java:49-58 | an entry that beats every entry of a run goes past that run |
| Pools.InsertPastNode | src/main/java/com/scheduler/search/BSTree.java:49-58 | an entry that beats the node goes into the right part |
| Pools.InsertEvalSum | src/main/java/com/scheduler/search/BSTree.java:67 | `add` adds the entry's evaluation to the sum |
| Pools.DropWorst | src/main/java/com/scheduler/search/BSTree.java:95-141 | `remove(amount)` leaves nothing when the tree holds no more than amount, everything for a non-positive amount, and otherwise the size minus amount best entries |
| Pools.DropWorstWithin | src/main/java/com/scheduler/search/BSTree.java:95-141 | what is left after removing was there before |
| Pools.DropLeft | src/main/java/com/scheduler/search/BSTree.java:106-121 | removing from the left subtree first leaves the node and the right subtree whole |
| Pools.DropPastNode | src/main/java/com/scheduler/search/BSTree.java:123-137 | removing more than the left subtree and the node holds removes the rest from the right subtree |
| Pools.DropWorstKeeps | src/main/java/com/scheduler/search/BSTree.java:95-141 | removing keeps the order and keeps only entries no worse than those removed |
| Pools.SizeCounts | src/main/java/com/scheduler/search/BSTree.java:15 | a subtree's size is the number of its entries |
| Pools.ItemsInRange | src/main/java/com/scheduler/search/BSTree.java:38-58 | every entry of a subtree lies within the bounds its ancestors set |
| Pools.LeftValid | src/main/java/com/scheduler/search/BSTree.java:13 | the left subtree of a valid node is a valid tree |
| Pools.RightValid | src/main/java/com/scheduler/search/BSTree.java:14 | the right subtree of a valid node is a valid tree |
| Pools.Empty | src/main/java/com/scheduler/search/BSTree.java:17-23 | `new BSTree()` is a valid empty pool of size 0 and sum 0 |
| Pools.Leaf | src/main/java/com/scheduler/search/BSTree.java:25-31 | `new BSTree(s)` holds exactly s, with size 1 and sum its evaluation |
| Pools.ItemsWorstFirst | src/main/java/com/scheduler/search/BSTree.java:38-58 | the entries of a valid tree, read in order, go from worst to best |
| Pools.JoinWorstFirst | src/main/java/com/scheduler/search/BSTree.java:38-58 | an entry with no better entries on its left and only better ones on its right joins two ordered runs |
| Pools.Add | src/main/java/com/scheduler/search/BSTree.java:34-68 | `add` keeps the tree valid, puts the entry in its place in the order, and grows size by one and the sum by its evaluation |
| Pools.AddLeft | src/main/java/com/scheduler/search/BSTree.java:38-47 | `add` of an entry that does not beat the node, into the left subtree or as a new left leaf |
| Pools.AddRight | src/main/java/com/scheduler/search/BSTree.java:49-58 | `add` of an entry that beats the node, into the right subtree or as a new right leaf |
| Pools.GrowLeft | src/main/java/com/scheduler/search/BSTree.java:38-47 | the node over a left subtree that took the entry is valid and holds the entries plus the new one |
| Pools.GrowRight | src/main/java/com/scheduler/search/BSTree.java:49-58 | the node over a right subtree that took the entry is valid and holds the entries plus the new one |
| Pools.AddedInRange | src/main/java/com/scheduler/search/BSTree.java:38-58 | the entries stay within their bounds when the new one is |
| Pools.AddSummed | src/main/java/com/scheduler/search/BSTree.java:25-67 | `add` keeps every node's sum equal to the evaluations of its subtree |
| Pools.SummedStep | src/main/java/com/scheduler/search/BSTree.java:67 | a node whose sum grew by the new entry's evaluation stays summed |
| Pools.Kill | src/main/java/com/scheduler/search/BSTree.java:71-92 | a non-empty tree drops every entry and its size and sum become 0; an empty tree is left as it is |
| Pools.Remove | src/main/java/com/scheduler/search/BSTree.java:95-141 | `remove(amount)` keeps the tree valid and drops exactly the amount worst entries, or every entry when there are no more than that, and then the size is 0 and the sum is 0, or is left as it was on a tree that was already empty |
| Pools.RightTakesOver | src/main/java/com/scheduler/search/BSTree.java:123-137 | when the left subtree holds too few, the node has a right subtree, and removing from the whole tree is removing the rest from that subtree |
| Pools.LeftTrimmed | src/main/java/com/scheduler/search/BSTree.java:106-121 | removing no more than the left subtree holds leaves a valid node over the rest |
| Pools.GetWorst | src/main/java/com/scheduler/search/BSTree.java:144-153 | the first entry in order, and none exactly for an empty tree |
| Pools.GetBest | src/main/java/com/scheduler/search/BSTree.java:158-167 | the last entry in order, and none exactly for an empty tree |
| Pools.Get2Best | src/main/java/com/scheduler/search/BSTree.java:171-182 | the next-to-last entry in order, and none exactly for fewer than two |
| Pools.BestIsLowest | src/main/java/com/scheduler/search/BSTree.java:158-167 | `getBest` returns an entry of lowest evaluation |
| Pools.WorstIsHighest | src/main/java/com/scheduler/search/BSTree.java:144-153 | `getWorst` returns an entry of highest evaluation |
| Pools.SecondBestIsNext | src/main/java/com/scheduler/search/BSTree.java:171-182 | no entry but the best beats the one `get2Best` returns |
| Pools.RemoveKeepsBest | src/main/java/com/scheduler/search/BSTree.java:95-141 | everything `remove` keeps is no worse than anything it dropped |
| Pools.InsertItems | src/main/java/com/scheduler/search/BSTree.java:34-68 | `add` adds exactly the new schedule to the schedules held |
| Pools.DropItems | src/main/java/com/scheduler/search/BSTree.java:95-141 | `remove` only drops schedules |
| Pools.SizeIsEntries | src/main/java/com/scheduler/search/BSTree.java:15 | the size a valid tree reports is its number of entries |
| Search.KeyedDistinct | src/main/java/com/scheduler/search/ORTree.java:52 | the scheduling order, drawn from the instance's events keyed by id, has no id twice |
| Search.IdsFromStep | src/main/java/com/scheduler/search/ORTree.java:114-179 | the events from position i on are the one at i and those after it |
| Search.NoneAssignedStep | src/main/java/com/scheduler/search/ORTree.java:148-150 | placing the event at i leaves the later events unplaced for the deeper search |
| Search.ExtendsStep | src/main/java/com/scheduler/search/ORTree.java:148-151 | placing the event at i and then the later ones extends the schedule by exactly the events from i on |
| Search.Unassigned | src/main/java/com/scheduler/search/ORTree.java:173-178 | clearing the event just placed restores the schedule the step began with |
| Search.AssignKeepsSlots | src/main/java/com/scheduler/search/ORTree.java:148 | `assign` keeps every slot entry of the slot index |
| Search.ClearKeepsSlots | src/main/java/com/scheduler/search/ORTree.java:173 | `clearAssignment` keeps every slot entry of the slot index |
| Search.ORTree.constructor | src/main/java/com/scheduler/search/ORTree.java:49-62 | an empty schedule of the instance and a scheduling order made of exactly its unplaced events; the abandon flag is down |
| Search.ORTree.RunSearch | src/main/java/com/scheduler/search/ORTree.java:71-97 | a complete and valid template is returned as it is; otherwise the search's schedule, complete, valid and extending the empty schedule by every event of the order, or the exception's message when the search fails or its result is invalid or incomplete |
| Search.ORTree.TemplateReady | src/main/java/com/scheduler/search/ORTree.java:73-81 | true exactly when the template is valid and complete |
| Search.ORTree.Checked | src/main/java/com/scheduler/search/ORTree.java:88-96 | the schedule is returned exactly when it is valid and complete; otherwise the invalid message comes first, then the incomplete one |
| Search.ORTree.RecSearch | src/main/java/com/scheduler/search/ORTree.java:114-179 | success places exactly the events from position i on, keeping the earlier placements; failure leaves the schedule as it found it; a valid schedule stays valid either way |
| Search.ORTree.Place | src/main/java/com/scheduler/search/ORTree.java:147 | the validating `assign` places the event in the slot or changes no assignment, and a valid schedule stays valid |
| Search.ORTree.Deeper | src/main/java/com/scheduler/search/ORTree.java:149-171 | after the event at i is placed: success extends the schedule by exactly the events from i on; failure gives back the schedule before the placement, and asks for a retry only at the first event; a valid schedule stays valid |
| Search.ORTree.Retreat | src/main/java/com/scheduler/search/ORTree.java:151-171 | with the abandon flag raised it unwinds, except at the first event, where it asks for the same slot again; the event is cleared either way and a valid schedule stays valid; after unwinding the flag is still raised |
| Search.ORTree.Clear | src/main/java/com/scheduler/search/ORTree.java:173-178 | the event's assignment is removed and nothing else, which gives back the schedule before it was placed, and a valid schedule stays valid |
| Genetic.GeneticAlgorithm.constructor | src/main/java/com/scheduler/search/GeneticAlgorithm.java:83-86 | an empty pool of size 0; the search has not ended and no overflow round is counted |
| Genetic.GeneticAlgorithm.RunSearch | src/main/java/com/scheduler/search/GeneticAlgorithm.java:103-165 | a search that ends returns the pool's best schedule, one of lowest evaluation, and ends only on a settled pool, or ends with the message of the or-tree search that threw |
| Genetic.GeneticAlgorithm.Step | src/main/java/com/scheduler/search/GeneticAlgorithm.java:111-160 | one round keeps the pool valid, its new schedules fresh, and raises the end flag only on a settled pool |
| Genetic.GeneticAlgorithm.Extend | src/main/java/com/scheduler/search/GeneticAlgorithm.java:130-159 | when breeding succeeds the pool grows by one: its entries are the old ones with one bred schedule inserted, ranked by its evaluation; when breeding fails the pool is unchanged and the round ends with the search's message |
| Genetic.GeneticAlgorithm.Breed | src/main/java/com/scheduler/search/GeneticAlgorithm.java:130-159 | an incomplete pool gets a fresh schedule; otherwise a crossover or a mutation of the best; every schedule it returns is complete and valid |
| Genetic.GeneticAlgorithm.FWert | src/main/java/com/scheduler/search/GeneticAlgorithm.java:173-178 | overflow exactly above 1000 schedules and incomplete exactly below 100, never both |
| Genetic.GeneticAlgorithm.FSelect | src/main/java/com/scheduler/search/GeneticAlgorithm.java:187-193 | one of the two names; always crossover for a weight of 100 or more and always mutation for one of 0 or less |
| Genetic.GeneticAlgorithm.PoolPlateauMeans | src/main/java/com/scheduler/search/GeneticAlgorithm.java:219-243 | `PoolPlateau`: the pool has settled exactly when it holds at least 100 schedules and has overflowed at least 5 times |
| Genetic.GeneticAlgorithm.PlateauHasBest | src/main/java/com/scheduler/search/GeneticAlgorithm.java:219-243 | a settled pool holds at least 100 schedules, so it has a best and a worst one |
| Genetic.GeneticAlgorithm.AddToPool | src/main/java/com/scheduler/search/GeneticAlgorithm.java:134-157 | the schedule joins the pool ranked by its evaluation, and the size grows by one |
| Genetic.GeneticAlgorithm.GrowPool | src/main/java/com/scheduler/search/GeneticAlgorithm.java:137 | the pool is the old one with the ranked entry inserted |
| Genetic.GeneticAlgorithm.Overflow | src/main/java/com/scheduler/search/GeneticAlgorithm.java:119-128 | the 900 worst schedules go, the round is counted, and the search ends exactly when the pool is settled |
| Genetic.GeneticAlgorithm.Rand | src/main/java/com/scheduler/search/GeneticAlgorithm.java:247-254 | a fresh complete and valid schedule, or the search's message |
| Genetic.GeneticAlgorithm.Mutation | src/main/java/com/scheduler/search/GeneticAlgorithm.java:256-288 | the best schedule changes in at most two unfixed events, and the result of its completion is complete and valid, or the search's message |
| Genetic.GeneticAlgorithm.Crossover | src/main/java/com/scheduler/search/GeneticAlgorithm.java:290-321 | the same as Mutation, with the moved events' slots taken from the second best schedule |
| Genetic.GeneticAlgorithm.Rework | src/main/java/com/scheduler/search/GeneticAlgorithm.java:265-284 | at most two events move, none of them fixed, and every other placement is kept; the loop of `Crossover` (lines 300-317) is the same |
| Genetic.GeneticAlgorithm.BestSchedule | src/main/java/com/scheduler/search/GeneticAlgorithm.java:258 | the schedule the pool ranks best |
| Genetic.GeneticAlgorithm.MutateOnce | src/main/java/com/scheduler/search/GeneticAlgorithm.java:269-283 | a round stops exactly when every placed event is fixed; otherwise one unfixed event either keeps its slot or takes the chosen one; the same holds for a round of `Crossover` (lines 302-316) |
| Genetic.GeneticAlgorithm.PickEvent | src/main/java/com/scheduler/search/GeneticAlgorithm.java:269 | an event the template places and does not fix, none exactly when there is none; line 302 draws the same way in `Crossover` |
| Genetic.GeneticAlgorithm.PickSlot | src/main/java/com/scheduler/search/GeneticAlgorithm.java:275 | a candidate slot of the event in a mutation, none only when there is none; the partner's slot for it in a crossover; the partner's slot is line 308 of `Crossover` |
| Genetic.GeneticAlgorithm.Complete | src/main/java/com/scheduler/search/GeneticAlgorithm.java:286-287 | the or-tree search from the template gives a complete and valid schedule or its message; lines 319-320 do the same in `Crossover` |
| Genetic.GeneticAlgorithm.Reassign | src/main/java/com/scheduler/search/GeneticAlgorithm.java:277-281 | only the event's placement can change, to the slot tried |
| Genetic.GeneticAlgorithm.ValidKept | src/main/java/com/scheduler/search/GeneticAlgorithm.java:76 | a call that changes nothing keeps the pool valid |
| Genetic.GeneticAlgorithm.ValidKeptBut | src/main/java/com/scheduler/search/GeneticAlgorithm.java:279 | changing one pooled schedule, which stays usable, keeps the pool valid |
| Genetic.GeneticAlgorithm.ValueKept | src/main/java/com/scheduler/search/GeneticAlgorithm.java:137 | a schedule left unchanged keeps its evaluation |

## Left out

- `Parser` and `Main` are not part of this model. They read the input file, handle the command line and print the outcome; the `Instance` operations they call are modelled directly.
- Every `Debug.msg*` call, the `System.err` messages, the `print*` helpers and the `toString` methods are left out: they only format output.
- Randomness (`Math.random`, `Collections.shuffle`, `new Random()`) is nondeterminism rather than a generator, so nothing is said about the distribution of the draws, for example the 70 to 30 bias of `fSelect`.
- Java `HashMap`/`HashSet` iteration order is not modelled. A loop over a set runs in an order `Enumerate` leaves open, and every contract holds for any order.
- Events are equal when their identifiers are (`Event.equals` and `hashCode`), so relation sets and schedule maps hold identifiers. Slots have no `equals` of their own; the model compares them by value, which agrees with identity because the instance keeps one slot per day, time and kind.
- Exceptions are results: a `Failure` names the exception by its message and not by its class. The messages are those of `Integer.parseInt` ("For input string: ..."), of an array index past the end as Java 11 and later word it, and of the `Event` constructor. The genetic algorithm's `Failed` outcome carries the message of the or-tree search that threw.
- Search.ORTree.RecSearch: the retry at the first event after the abandon flag is raised is bounded by `fuel`. When the fuel runs out the search gives up there instead of retrying, so termination of the unbounded retry is not modelled.
- Genetic.GeneticAlgorithm.RunSearch: the main loop is bounded by `fuel` rounds and ends with `OutOfFuel` when they run out. The same fuel also bounds the or-tree retries of each round. Termination of the source's loop is not claimed.
- Pools is a value: `BSTree` becomes the datatype `Tree`, and `add`, `kill` and `remove` return the new tree instead of updating nodes in place. Node identity, aliasing of subtrees and the temporary `new BSTree()` of `remove` (BSTree.java:125) are not modelled. Every operation and every property of the pool is stated on the in-order sequence `Items` of the tree, and no other part of the program keeps a reference into a pool's nodes, so the value states what the searches observe.
- Pools.Kill: the clearing of the children's fields (BSTree.java:74-84) is not modelled. The children become unreachable, and only the emptied node is returned.
- Pools.Remove: states `fitSum` only for a removal of every entry. Line 112 subtracts the whole left subtree's sum and never adds back what the left subtree keeps, so the sum after a partial removal is not the sum of the remaining evaluations. The model keeps that arithmetic, and the sum is read only for debug output in `poolPlateau`.
- The evaluation cache of `Schedule` (`evalValue`, Schedule.java:43, 675-682) is not modelled. `Schedule.Value()` is the evaluation of the current state. A pool entry keeps the evaluation taken when it was added, as the cache makes the source do for a pooled schedule that is later mutated in place. A mutated schedule that is added again is ranked by its new evaluation, where the source would reuse the stale cached one.
- Instances.Schedule.Eval, EvalSecDiff: require every event to be placed, and EvalPair requires every event with a pair to be placed. The source dereferences the null slot of an unplaced event there (`getSlotFromEvent(e).overlaps(...)`), and every schedule evaluated by the searches is complete.
- Penalties are unbounded integers. The 32-bit overflow of Java's `int` in `eval` and its weighted sums is not modelled.
- Genetic.GeneticAlgorithm.Mutation, Crossover: require one and two schedules in the pool respectively. The source calls them only when the pool holds at least 100, which is what `Breed` passes on.
- Genetic.GeneticAlgorithm.PoolPlateau: the average, worst and difference it computes (GeneticAlgorithm.java:224-231) are only printed and are left out.
- `plateau()`, `fitnessHistory` and its two constants (GeneticAlgorithm.java:56-71, 201-211) are never used by the search and are left out.
- The `size() < 0` test in `getRandomMutableEvent` (Schedule.java:193) can never hold and is left out.
- The ghost field `members` of `GeneticAlgorithm` is not part of the source. It records the pooled schedules so that the proof can see they are allocated.
- The getters that only return a field or filter a map by kind (`getGameSlots`, `getAvailableGameSlots`, `getAllAvailableSlots`, `getGames`, `getPractices` and the like) have no members of their own. Where an operation uses one, its filter is written out in that operation's definition.
- Slots.ParseInt: reads only the ASCII digits '0' to '9'. `Integer.parseInt` also accepts the other Unicode decimal digits that `Character.digit` knows (Arabic-Indic, Devanagari and the like); such a string is a failure in the model.
- Slots.TimeToMinOfClock: stated for unsigned ASCII numerals of up to nine digits. Signed pieces ("-1:30") and longer numerals are read by `ParseInt` and `TimeOfParts` as the source reads them, with the same 32-bit wrap, but no lemma states their value.
- Slots.EndTime: adds the duration to the start in unbounded integers. A start above 2^31 - 121 minutes, which only a wrapped or absurd time gives, would wrap in the source's `getEndTime`.
- Slots.Duration: its contract states only that a slot lasts a positive time. The three cases are its definition, and `Slots.Lengths` states them.

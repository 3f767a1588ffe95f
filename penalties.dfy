/**
 * The soft constraints a complete schedule is evaluated by: slots left
 * below their minimum, unmet slot preferences, pairs of events that were
 * asked to share a time but do not, and overlapping events of different
 * divisions within one tier. Each component is stated here over plain
 * values; the evaluating methods of `Schedule` are proved against them.
 */
module Penalties {
  import opened Common
  import opened Slots
  import opened Divisions

  // ---------------------------------------------------------------------
  // Sums over finite sets
  // ---------------------------------------------------------------------

  ghost function Pick<T>(xs: set<T>): T
    requires xs != {}
  {
    var x :| x in xs; x
  }

  /** The sum of `f` over the elements of `xs`. */
  ghost function Sum<T>(xs: set<T>, f: T -> int): int
    decreases xs
  {
    if xs == {} then 0 else var x := Pick(xs); f(x) + Sum(xs - {x}, f)
  }

  /** Any element may be taken out of a sum first. */
  lemma {:induction false} SumPick<T>(xs: set<T>, f: T -> int, y: T)
    requires y in xs
    ensures Sum(xs, f) == f(y) + Sum(xs - {y}, f)
    decreases xs
  {
    var x := Pick(xs);
    if x != y {
      SumPick(xs - {x}, f, y);
      SumPick(xs - {y}, f, x);
      assert xs - {x} - {y} == xs - {y} - {x};
    }
  }

  lemma SumAdd<T>(xs: set<T>, f: T -> int, y: T)
    requires y !in xs
    ensures Sum(xs + {y}, f) == Sum(xs, f) + f(y)
  {
    SumPick(xs + {y}, f, y);
    assert xs + {y} - {y} == xs;
  }

  /** One step of a loop that sums `f` over `all` while shrinking the set `rest` still to visit. */
  lemma SumStep<T>(all: set<T>, rest: set<T>, f: T -> int, x: T, before: int, after: int)
    requires x in rest && rest <= all
    requires before == Sum(all - rest, f) && after == before + f(x)
    ensures after == Sum(all - (rest - {x}), f)
  {
    SumAdd(all - rest, f, x);
    assert all - rest + {x} == all - (rest - {x});
  }

  /** A sum of non-negative terms is non-negative, and zero exactly when every term is. */
  lemma {:induction false} SumZero<T>(xs: set<T>, f: T -> int)
    requires forall x :: x in xs ==> f(x) >= 0
    ensures Sum(xs, f) >= 0
    ensures Sum(xs, f) == 0 <==> forall x :: x in xs ==> f(x) == 0
    decreases xs
  {
    if xs != {} {
      var x := Pick(xs);
      SumZero(xs - {x}, f);
    }
  }

  // ---------------------------------------------------------------------
  // Slots below their minimum
  // ---------------------------------------------------------------------

  /** The events a slot-contents index places in `t`. */
  function OwnIn(sc: map<Slot, set<string>>, t: Slot): set<string> {
    if t in sc then sc[t] else {}
  }

  /** For each of `slots`, how many events its own and its fixed contents hold together. */
  function OccupancyOf(slots: set<Slot>, own: map<Slot, set<string>>, fixed: map<Slot, set<string>>): map<Slot, int> {
    map s | s in slots :: |OwnIn(own, s) + OwnIn(fixed, s)|
  }

  /** What a slot holding `n` events accrues: the shortfall below its minimum times the penalty for its kind. */
  function UnderMin(s: Slot, n: int, penGameMin: int, penPracticeMin: int): int {
    if n < s.min then (s.min - n) * (if s.isGameSlot then penGameMin else penPracticeMin) else 0
  }

  function MinFillFn(occupancy: map<Slot, int>, penGameMin: int, penPracticeMin: int): Slot -> int {
    s => if s in occupancy then UnderMin(s, occupancy[s], penGameMin, penPracticeMin) else 0
  }

  /** The minimum-fill penalty of every slot, given how many events each holds. */
  ghost function MinFilled(occupancy: map<Slot, int>, penGameMin: int, penPracticeMin: int): int {
    Sum(occupancy.Keys, MinFillFn(occupancy, penGameMin, penPracticeMin))
  }

  /** One step of the loop over the slots: the shortfall penalty of a slot holding `n` events joins the sum. */
  lemma MinFillStep(occupancy: map<Slot, int>, penGameMin: int, penPracticeMin: int,
                    rest: set<Slot>, s: Slot, n: int, before: int, after: int)
    requires s in rest && rest <= occupancy.Keys && occupancy[s] == n
    requires before == Sum(occupancy.Keys - rest, MinFillFn(occupancy, penGameMin, penPracticeMin))
    requires after == before + (if n < s.min then (if s.isGameSlot then (s.min - n) * penGameMin else (s.min - n) * penPracticeMin) else 0)
    ensures after == Sum(occupancy.Keys - (rest - {s}), MinFillFn(occupancy, penGameMin, penPracticeMin))
  {
    SumStep(occupancy.Keys, rest, MinFillFn(occupancy, penGameMin, penPracticeMin), s, before, after);
  }

  lemma UnderMinSign(s: Slot, n: int, penGameMin: int, penPracticeMin: int)
    requires penGameMin > 0 && penPracticeMin > 0
    ensures UnderMin(s, n, penGameMin, penPracticeMin) >= 0
    ensures UnderMin(s, n, penGameMin, penPracticeMin) == 0 <==> n >= s.min
  {
    if n < s.min {
      var p := if s.isGameSlot then penGameMin else penPracticeMin;
      assert (s.min - n) * p >= p by {
        assert (s.min - n) * p == (s.min - n - 1) * p + p;
        assert (s.min - n - 1) * p >= 0;
      }
    }
  }

  /**
   * With positive penalties, the minimum-fill component is never
   * negative, and it is zero exactly when every slot holds at least its
   * minimum.
   */
  lemma MinFilledZero(occupancy: map<Slot, int>, penGameMin: int, penPracticeMin: int)
    requires penGameMin > 0 && penPracticeMin > 0
    ensures MinFilled(occupancy, penGameMin, penPracticeMin) >= 0
    ensures MinFilled(occupancy, penGameMin, penPracticeMin) == 0 <==>
      forall s :: s in occupancy ==> occupancy[s] >= s.min
  {
    var f := MinFillFn(occupancy, penGameMin, penPracticeMin);
    forall s | s in occupancy
      ensures f(s) >= 0 && (f(s) == 0 <==> occupancy[s] >= s.min)
    {
      UnderMinSign(s, occupancy[s], penGameMin, penPracticeMin);
    }
    SumZero(occupancy.Keys, f);
  }

  // ---------------------------------------------------------------------
  // Preferences
  // ---------------------------------------------------------------------

  /** The slot an event is placed in, if any. */
  function PlacedAt(placed: map<string, Slot>, id: string): Option<Slot> {
    if id in placed then Some(placed[id]) else None
  }

  function MissFn(prefs: map<Slot, int>, at: Option<Slot>): Slot -> int {
    s => if s in prefs && Some(s) != at then prefs[s] else 0
  }

  /** The weight of every preferred slot other than the one the event holds. */
  ghost function Missed(prefs: map<Slot, int>, at: Option<Slot>): int {
    Sum(prefs.Keys, MissFn(prefs, at))
  }

  ghost function PrefFn(prefs: map<string, map<Slot, int>>, placed: map<string, Slot>): string -> int {
    id => if id in prefs then Missed(prefs[id], PlacedAt(placed, id)) else 0
  }

  /** The preference penalty: the missed preference weights of every event. */
  ghost function Pref(prefs: map<string, map<Slot, int>>, placed: map<string, Slot>): int {
    Sum(prefs.Keys, PrefFn(prefs, placed))
  }

  /** With positive weights, one event misses nothing exactly when its every preferred slot is the one it holds. */
  lemma MissedZero(prefs: map<Slot, int>, at: Option<Slot>)
    requires forall s :: s in prefs ==> prefs[s] > 0
    ensures Missed(prefs, at) >= 0
    ensures Missed(prefs, at) == 0 <==> forall s :: s in prefs ==> at == Some(s)
  {
    SumZero(prefs.Keys, MissFn(prefs, at));
  }

  /**
   * With positive weights, the preference component is never negative,
   * and it is zero exactly when every event sits in every slot it has a
   * preference for (so in particular has at most one).
   */
  lemma PrefZero(prefs: map<string, map<Slot, int>>, placed: map<string, Slot>)
    requires forall id, s :: id in prefs && s in prefs[id] ==> prefs[id][s] > 0
    ensures Pref(prefs, placed) >= 0
    ensures Pref(prefs, placed) == 0 <==>
      forall id, s :: id in prefs && s in prefs[id] ==> PlacedAt(placed, id) == Some(s)
  {
    var f := PrefFn(prefs, placed);
    forall id | id in prefs
      ensures f(id) >= 0
      ensures f(id) == 0 <==> forall s :: s in prefs[id] ==> PlacedAt(placed, id) == Some(s)
    {
      MissedZero(prefs[id], PlacedAt(placed, id));
    }
    SumZero(prefs.Keys, f);
  }

  // ---------------------------------------------------------------------
  // Pairs of events asked to share a time
  // ---------------------------------------------------------------------

  /** Both events are placed, in overlapping slots. */
  predicate Together(placed: map<string, Slot>, a: string, b: string) {
    a in placed && b in placed && Overlaps(placed[a], placed[b])
  }

  lemma TogetherSymmetric(placed: map<string, Slot>, a: string, b: string)
    ensures Together(placed, a, b) == Together(placed, b, a)
  {
    if a in placed && b in placed {
      OverlapsSymmetric(placed[a], placed[b]);
    }
  }

  /** Every member of the unordered pair `q` is placed together with every other. */
  ghost predicate PairTogether(placed: map<string, Slot>, q: set<string>) {
    forall x, y :: x in q && y in q ==> Together(placed, x, y)
  }

  lemma PairTogetherOf(placed: map<string, Slot>, a: string, b: string)
    ensures PairTogether(placed, {a, b}) <==> Together(placed, a, b)
  {
    TogetherSymmetric(placed, a, b);
  }

  /** The unordered pairs `{a, b}` with `b` among the pairings of `a`. */
  ghost function PairsOf(pairs: map<string, set<string>>, from: set<string>): set<set<string>> {
    set a, b | a in from && a in pairs && b in pairs[a] :: {a, b}
  }

  /** The pairs among `explored` whose members are not placed together. */
  ghost function UnpairedAmong(explored: set<set<string>>, placed: map<string, Slot>): set<set<string>> {
    set q | q in explored && !PairTogether(placed, q)
  }

  /** Every unordered pair of paired events that do not share a time, each pair once. */
  ghost function Unpaired(pairs: map<string, set<string>>, placed: map<string, Slot>): set<set<string>> {
    UnpairedAmong(PairsOf(pairs, pairs.Keys), placed)
  }

  /** A pair is unpaired exactly when one of its members names the other and they are not placed together. */
  lemma UnpairedMeans(pairs: map<string, set<string>>, placed: map<string, Slot>, a: string, b: string)
    requires a in pairs && b in pairs[a]
    ensures {a, b} in Unpaired(pairs, placed) <==> !Together(placed, a, b)
  {
    PairTogetherOf(placed, a, b);
  }

  /** Exploring one more pair adds it to the unpaired ones exactly when its members are apart. */
  lemma UnpairedAmongAdd(explored: set<set<string>>, placed: map<string, Slot>, a: string, b: string)
    requires {a, b} !in explored
    ensures UnpairedAmong(explored + {{a, b}}, placed) ==
      UnpairedAmong(explored, placed) + (if Together(placed, a, b) then {} else {{a, b}})
    ensures |UnpairedAmong(explored + {{a, b}}, placed)| ==
      |UnpairedAmong(explored, placed)| + (if Together(placed, a, b) then 0 else 1)
  {
    PairTogetherOf(placed, a, b);
    var u := UnpairedAmong(explored, placed);
    assert UnpairedAmong(explored + {{a, b}}, placed) == u + (if Together(placed, a, b) then {} else {{a, b}});
  }

  lemma ScaledStep(p: int, k: int)
    ensures p * (k + 1) == p * k + p
  {
  }

  lemma PartnersStep(a: string, all: set<string>, rest: set<string>, b: string)
    requires b in rest && rest <= all
    ensures (set x | x in all - (rest - {b}) :: {a, x}) == (set x | x in all - rest :: {a, x}) + {{a, b}}
  {
    assert all - (rest - {b}) == (all - rest) + {b};
  }

  /**
   * One step of the inner loop of the pairing penalty: the pair of `a`
   * and its partner `b` is explored, and charged when it is new and its
   * members are apart.
   */
  lemma ExploreStep(pairs: map<string, set<string>>, placed: map<string, Slot>, done: set<string>,
                    a: string, partners: set<string>, b: string, pen: int,
                    explored0: set<set<string>>, explored1: set<set<string>>, before: int, after: int)
    requires a in pairs && a in placed && b in partners && partners <= pairs[a]
    requires explored0 == PairsOf(pairs, done) + set x | x in pairs[a] - partners :: {a, x}
    requires before == pen * |UnpairedAmong(explored0, placed)|
    requires explored1 == explored0 + {{a, b}}
    requires after == before + (if {a, b} !in explored0 && !OverlapsOpt(placed[a], PlacedAt(placed, b)) then pen else 0)
    ensures explored1 == PairsOf(pairs, done) + set x | x in pairs[a] - (partners - {b}) :: {a, x}
    ensures after == pen * |UnpairedAmong(explored1, placed)|
  {
    PartnersStep(a, pairs[a], partners, b);
    if {a, b} !in explored0 {
      UnpairedAmongAdd(explored0, placed, a, b);
      ScaledStep(pen, |UnpairedAmong(explored0, placed)|);
    } else {
      assert explored1 == explored0;
    }
  }

  lemma PairsOfStep(pairs: map<string, set<string>>, from: set<string>, a: string)
    requires a in pairs
    ensures PairsOf(pairs, from + {a}) == PairsOf(pairs, from) + set b | b in pairs[a] :: {a, b}
  {
  }

  /** With a positive penalty, the pairing component is zero exactly when all paired events share a time. */
  lemma UnpairedNone(pairs: map<string, set<string>>, placed: map<string, Slot>)
    ensures Unpaired(pairs, placed) == {} <==>
      forall a, b :: a in pairs && b in pairs[a] ==> Together(placed, a, b)
  {
    if Unpaired(pairs, placed) == {} {
      forall a, b | a in pairs && b in pairs[a]
        ensures Together(placed, a, b)
      {
        UnpairedMeans(pairs, placed, a, b);
      }
    }
  }

  // ---------------------------------------------------------------------
  // Sections of one tier
  // ---------------------------------------------------------------------

  /** Two distinct placed events of one tier sit in overlapping slots but are not the same division. */
  predicate SectionClash(divs: map<string, Division>, placed: map<string, Slot>, a: string, b: string) {
    a in divs && b in divs && a != b && TierSame(divs[a], divs[b])
    && Together(placed, a, b) && !Same(divs[a], divs[b])
  }

  lemma SectionClashSymmetric(divs: map<string, Division>, placed: map<string, Slot>, a: string, b: string)
    ensures SectionClash(divs, placed, a, b) == SectionClash(divs, placed, b, a)
  {
    TogetherSymmetric(placed, a, b);
    if a in divs && b in divs {
      SameSymmetric(divs[a], divs[b]);
    }
  }

  /** The clashing unordered pairs of events whose tier is one of `tiers`. */
  ghost function SectionClashesIn(divs: map<string, Division>, placed: map<string, Slot>, tiers: set<string>): set<set<string>> {
    set a, b | a in divs && b in divs && divs[a].tier in tiers && SectionClash(divs, placed, a, b) :: {a, b}
  }

  /** Every clashing unordered pair of events within a tier, each pair once. */
  ghost function SectionClashes(divs: map<string, Division>, placed: map<string, Slot>): set<set<string>> {
    set a, b | a in divs && b in divs && SectionClash(divs, placed, a, b) :: {a, b}
  }

  /**
   * The clashing pairs among the positions of a tier's list: those whose
   * first position lies below `i`, or is `i` with the second below `j`.
   */
  ghost function ClashesUpTo(ids: seq<string>, divs: map<string, Division>, placed: map<string, Slot>, i: int, j: int): set<set<string>> {
    set x, y | 0 <= x < y < |ids| && (x < i || (x == i && y < j)) && SectionClash(divs, placed, ids[x], ids[y]) :: {ids[x], ids[y]}
  }

  /** The pair at positions `i < j` is new to the list's earlier pairs when the list has no repeats. */
  lemma ClashesUpToStep(ids: seq<string>, divs: map<string, Division>, placed: map<string, Slot>, i: int, j: int)
    requires Distinct(ids) && 0 <= i < j < |ids|
    ensures {ids[i], ids[j]} !in ClashesUpTo(ids, divs, placed, i, j)
    ensures ClashesUpTo(ids, divs, placed, i, j + 1) == ClashesUpTo(ids, divs, placed, i, j) +
      (if SectionClash(divs, placed, ids[i], ids[j]) then {{ids[i], ids[j]}} else {})
  {
    var p := {ids[i], ids[j]};
    forall x, y | 0 <= x < y < |ids| && (x < i || (x == i && y < j))
      ensures {ids[x], ids[y]} != p
    {
      if x == i || y == i {
        assert ids[j] in p && ids[j] != ids[x] && ids[j] != ids[y];
      } else {
        assert ids[i] in p && ids[i] != ids[x] && ids[i] != ids[y];
      }
    }
  }

  lemma ClashesUpToNext(ids: seq<string>, divs: map<string, Division>, placed: map<string, Slot>, i: int)
    requires 0 <= i
    ensures ClashesUpTo(ids, divs, placed, i, |ids|) == ClashesUpTo(ids, divs, placed, i + 1, i + 2)
  {
  }

  /** Once the list is walked, its clashing pairs are those of its tier. */
  lemma ClashesUpToTier(ids: seq<string>, divs: map<string, Division>, placed: map<string, Slot>, t: string, i: int)
    requires Distinct(ids) && i >= |ids| - 1 && i >= 0
    requires forall a :: a in ids <==> a in divs && divs[a].tier == t
    ensures ClashesUpTo(ids, divs, placed, i, i + 1) ==
      SectionClashesIn(divs, placed, {t})
  {
    var lhs := ClashesUpTo(ids, divs, placed, i, i + 1);
    var rhs := SectionClashesIn(divs, placed, {t});
    forall q | q in rhs
      ensures q in lhs
    {
      var a, b :| a in divs && b in divs && divs[a].tier in {t} && SectionClash(divs, placed, a, b) && q == {a, b};
      assert a in ids && b in ids;
      var x :| 0 <= x < |ids| && ids[x] == a;
      var y :| 0 <= y < |ids| && ids[y] == b;
      if x < y {
        assert q == {ids[x], ids[y]};
      } else {
        SectionClashSymmetric(divs, placed, a, b);
        assert q == {ids[y], ids[x]};
      }
    }
    forall q | q in lhs
      ensures q in rhs
    {
      var x, y :| 0 <= x < y < |ids| && SectionClash(divs, placed, ids[x], ids[y]) && q == {ids[x], ids[y]};
      assert ids[x] in ids;
    }
  }

  /** One step of the inner loop over a tier's list: the pair at positions `i < j` is charged when it clashes. */
  lemma TierStep(ids: seq<string>, divs: map<string, Division>, placed: map<string, Slot>, i: int, j: int,
                 pen: int, penalty0: int, before: int, after: int)
    requires Distinct(ids) && 0 <= i < j < |ids|
    requires before == penalty0 + pen * |ClashesUpTo(ids, divs, placed, i, j)|
    requires after == before + (if SectionClash(divs, placed, ids[i], ids[j]) then pen else 0)
    ensures after == penalty0 + pen * |ClashesUpTo(ids, divs, placed, i, j + 1)|
  {
    ClashesUpToStep(ids, divs, placed, i, j);
    var c0 := ClashesUpTo(ids, divs, placed, i, j);
    var c1 := ClashesUpTo(ids, divs, placed, i, j + 1);
    if SectionClash(divs, placed, ids[i], ids[j]) {
      assert |c1| == |c0| + 1;
      ScaledStep(pen, |c0|);
    } else {
      assert c1 == c0;
    }
  }

  /** Walking one more tier adds its clashing pairs, none of which an earlier tier held. */
  lemma SectionClashesInStep(divs: map<string, Division>, placed: map<string, Slot>, tiers: set<string>, t: string)
    requires t !in tiers
    ensures SectionClashesIn(divs, placed, tiers + {t}) ==
      SectionClashesIn(divs, placed, tiers) + SectionClashesIn(divs, placed, {t})
    ensures SectionClashesIn(divs, placed, tiers) * SectionClashesIn(divs, placed, {t}) == {}
  {
    var old_ := SectionClashesIn(divs, placed, tiers);
    var new_ := SectionClashesIn(divs, placed, {t});
    forall q | q in old_
      ensures q !in new_
    {
      var a, b :| a in divs && b in divs && divs[a].tier in tiers && SectionClash(divs, placed, a, b) && q == {a, b};
      forall c, d | c in divs && d in divs && divs[c].tier == t && SectionClash(divs, placed, c, d)
        ensures {c, d} != q
      {
        assert a in q && a != c && a != d;
      }
    }
  }

  /** Once every tier is walked, the clashes are all of them. */
  lemma SectionClashesAll(divs: map<string, Division>, placed: map<string, Slot>, tiers: set<string>)
    requires forall a :: a in divs ==> divs[a].tier in tiers
    ensures SectionClashesIn(divs, placed, tiers) == SectionClashes(divs, placed)
  {
  }

  /** With a positive penalty, the section component is zero exactly when no two such events overlap. */
  lemma SectionClashesNone(divs: map<string, Division>, placed: map<string, Slot>)
    ensures SectionClashes(divs, placed) == {} <==>
      forall a, b :: a in divs && b in divs ==> !SectionClash(divs, placed, a, b)
  {
    forall a, b | a in divs && b in divs && SectionClash(divs, placed, a, b)
      ensures {a, b} in SectionClashes(divs, placed)
    {
    }
  }

  // ---------------------------------------------------------------------
  // The weighted sum
  // ---------------------------------------------------------------------

  /** The instance's weights for the four components and the penalties inside them. */
  datatype Weights = Weights(wMinFilled: int, wPref: int, wPair: int, wSecDiff: int,
                             penGameMin: int, penPracticeMin: int, penNotPaired: int, penSection: int)

  /** Every weight and every penalty is positive. */
  predicate Positive(w: Weights) {
    w.wMinFilled > 0 && w.wPref > 0 && w.wPair > 0 && w.wSecDiff > 0
    && w.penGameMin > 0 && w.penPracticeMin > 0 && w.penNotPaired > 0 && w.penSection > 0
  }

  /** The evaluation of a complete schedule: each component times its weight, summed. */
  ghost function Evaluate(w: Weights, occupancy: map<Slot, int>, prefs: map<string, map<Slot, int>>,
                          pairs: map<string, set<string>>, divs: map<string, Division>, placed: map<string, Slot>): int
  {
    Weighted(w, MinFilled(occupancy, w.penGameMin, w.penPracticeMin), Pref(prefs, placed),
             w.penNotPaired * |Unpaired(pairs, placed)|, w.penSection * |SectionClashes(divs, placed)|)
  }

  /** The four component values, each times its weight, summed. */
  function Weighted(w: Weights, minFilled: int, pref: int, pair: int, secDiff: int): int {
    minFilled * w.wMinFilled + pref * w.wPref + pair * w.wPair + secDiff * w.wSecDiff
  }

  /** The weighted sum of the four component values is the evaluation. */
  lemma EvaluateOf(w: Weights, occupancy: map<Slot, int>, prefs: map<string, map<Slot, int>>,
                   pairs: map<string, set<string>>, divs: map<string, Division>, placed: map<string, Slot>,
                   minFilled: int, pref: int, pair: int, secDiff: int)
    requires minFilled == MinFilled(occupancy, w.penGameMin, w.penPracticeMin)
    requires pref == Pref(prefs, placed)
    requires pair == w.penNotPaired * |Unpaired(pairs, placed)|
    requires secDiff == w.penSection * |SectionClashes(divs, placed)|
    ensures Weighted(w, minFilled, pref, pair, secDiff) == Evaluate(w, occupancy, prefs, pairs, divs, placed)
  {
  }

  lemma ProductSign(a: int, b: int)
    requires a >= 0 && b > 0
    ensures a * b >= 0 && (a * b == 0 <==> a == 0)
  {
    if a > 0 {
      assert a * b >= b by {
        assert a * b == (a - 1) * b + b;
        assert (a - 1) * b >= 0;
      }
    }
  }

  /**
   * With positive weights, penalties and preference weights, a schedule
   * evaluates to a non-negative value, and to zero exactly when every
   * slot holds its minimum, every preference is met, every pair shares a
   * time and no two divisions of a tier overlap.
   */
  lemma EvaluateZero(w: Weights, occupancy: map<Slot, int>, prefs: map<string, map<Slot, int>>,
                     pairs: map<string, set<string>>, divs: map<string, Division>, placed: map<string, Slot>)
    requires Positive(w)
    requires forall id, s :: id in prefs && s in prefs[id] ==> prefs[id][s] > 0
    ensures Evaluate(w, occupancy, prefs, pairs, divs, placed) >= 0
    ensures Evaluate(w, occupancy, prefs, pairs, divs, placed) == 0 <==>
      (forall s :: s in occupancy ==> occupancy[s] >= s.min)
      && (forall id, s :: id in prefs && s in prefs[id] ==> PlacedAt(placed, id) == Some(s))
      && (forall a, b :: a in pairs && b in pairs[a] ==> Together(placed, a, b))
      && (forall a, b :: a in divs && b in divs ==> !SectionClash(divs, placed, a, b))
  {
    var m := MinFilled(occupancy, w.penGameMin, w.penPracticeMin);
    var p := Pref(prefs, placed);
    var u := |Unpaired(pairs, placed)|;
    var c := |SectionClashes(divs, placed)|;
    MinFilledZero(occupancy, w.penGameMin, w.penPracticeMin);
    PrefZero(prefs, placed);
    UnpairedNone(pairs, placed);
    SectionClashesNone(divs, placed);
    ProductSign(m, w.wMinFilled);
    ProductSign(p, w.wPref);
    ProductSign(u, w.penNotPaired);
    ProductSign(w.penNotPaired * u, w.wPair);
    ProductSign(c, w.penSection);
    ProductSign(w.penSection * c, w.wSecDiff);
    assert w.penNotPaired * u == u * w.penNotPaired;
    assert w.penSection * c == c * w.penSection;
  }
}

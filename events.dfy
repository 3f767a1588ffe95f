/**
 * Events: the games and practices to be placed into slots, with the
 * relations between them (incompatible events, paired events) and their
 * attitudes towards slots (unwanted slots, weighted preferences).
 */
module Events {
  import opened Common
  import opened Slots
  import opened Divisions

  // ---------------------------------------------------------------------
  // Splitting an identifier on runs of whitespace ("\\s+")
  // ---------------------------------------------------------------------

  /** The characters of the regular-expression class `\s`. */
  predicate IsWs(c: char) {
    c == ' ' || c == '\t' || c == '\n' || c == '\r' || c == 11 as char || c == 12 as char
  }

  function SkipWs(s: string): (r: string)
    ensures |r| <= |s| && r == s[|s| - |r|..]
    ensures |r| > 0 ==> !IsWs(r[0])
  {
    if |s| > 0 && IsWs(s[0]) then SkipWs(s[1..]) else s
  }

  function TakeWord(s: string): (r: string)
    ensures |r| <= |s| && r == s[..|r|]
    ensures forall i :: 0 <= i < |r| ==> !IsWs(r[i])
    ensures |r| < |s| ==> IsWs(s[|r|])
  {
    if |s| > 0 && !IsWs(s[0]) then [s[0]] + TakeWord(s[1..]) else ""
  }

  /** The maximal runs of non-whitespace characters of `s`, in order. */
  function Words(s: string): (r: seq<string>)
    decreases |s|
  {
    var t := SkipWs(s);
    if |t| == 0 then []
    else
      var w := TakeWord(t);
      [w] + Words(t[|w|..])
  }

  /**
   * `s.split("\\s+")`: the input itself when nothing matches; a leading
   * empty piece when the input starts with whitespace; trailing empty
   * pieces removed.
   */
  function SplitWs(s: string): seq<string> {
    if s == "" then [""]
    else (if IsWs(s[0]) && |Words(s)| > 0 then [""] else []) + Words(s)
  }

  /** A token that the split keeps whole. */
  predicate IsToken(w: string) {
    |w| > 0 && forall i :: 0 <= i < |w| ==> !IsWs(w[i])
  }

  /** Tokens joined by single spaces. */
  function Join(ws: seq<string>): string {
    if |ws| == 0 then ""
    else if |ws| == 1 then ws[0]
    else ws[0] + " " + Join(ws[1..])
  }

  lemma {:induction false} TakeWordOfToken(w: string, rest: string)
    requires IsToken(w)
    requires |rest| == 0 || IsWs(rest[0])
    ensures TakeWord(w + rest) == w
  {
    if |w| == 1 {
      assert (w + rest)[1..] == rest;
    } else {
      assert (w + rest)[1..] == w[1..] + rest;
      assert IsToken(w[1..]) by {
        forall i | 0 <= i < |w[1..]| ensures !IsWs(w[1..][i]) { assert w[1..][i] == w[i + 1]; }
      }
      TakeWordOfToken(w[1..], rest);
    }
  }

  lemma SkipWsAtWord(s: string)
    requires |s| > 0 && !IsWs(s[0])
    ensures SkipWs(s) == s
  {
  }

  /** A token followed by whitespace or nothing is read as the first word. */
  lemma WordsCons(w: string, rest: string)
    requires IsToken(w)
    requires |rest| == 0 || IsWs(rest[0])
    ensures Words(w + rest) == [w] + Words(rest)
  {
    var s := w + rest;
    SkipWsAtWord(s);
    TakeWordOfToken(w, rest);
    assert s[|w|..] == rest;
  }

  lemma {:induction false} WordsOfJoin(ws: seq<string>)
    requires forall i :: 0 <= i < |ws| ==> IsToken(ws[i])
    ensures Words(Join(ws)) == ws
    decreases |ws|
  {
    if |ws| == 0 {
    } else if |ws| == 1 {
      WordsCons(ws[0], "");
      assert ws[0] + "" == ws[0];
    } else {
      var w, rest := ws[0], ws[1..];
      assert ws == [w] + rest;
      assert IsToken(w);
      assert forall i :: 0 <= i < |rest| ==> IsToken(rest[i]) by {
        forall i | 0 <= i < |rest| ensures IsToken(rest[i]) { assert rest[i] == ws[i + 1]; }
      }
      var tail := Join(rest);
      assert Join(ws) == w + (" " + tail);
      WordsCons(w, " " + tail);
      WordsSkipsSpace(tail);
      WordsOfJoin(rest);
    }
  }

  lemma WordsSkipsSpace(s: string)
    ensures Words(" " + s) == Words(s)
  {
    assert (" " + s)[1..] == s;
    assert SkipWs(" " + s) == SkipWs(s);
  }

  lemma {:induction false} JoinStart(ws: seq<string>)
    requires |ws| > 0 && |ws[0]| > 0
    ensures |Join(ws)| > 0 && Join(ws)[0] == ws[0][0]
  {
    if |ws| > 1 {
      assert Join(ws) == ws[0] + (" " + Join(ws[1..]));
    }
  }

  lemma SplitWsAtWord(s: string)
    requires |s| > 0 && !IsWs(s[0])
    ensures SplitWs(s) == Words(s)
  {
  }

  /** Splitting tokens joined by single spaces gives the tokens back. */
  lemma SplitWsOfJoin(ws: seq<string>)
    requires |ws| > 0
    requires forall i :: 0 <= i < |ws| ==> IsToken(ws[i])
    ensures SplitWs(Join(ws)) == ws
  {
    assert IsToken(ws[0]);
    JoinStart(ws);
    SplitWsAtWord(Join(ws));
    WordsOfJoin(ws);
  }

  // ---------------------------------------------------------------------
  // Parsing an event identifier
  // ---------------------------------------------------------------------

  /**
   * The `Event` constructor's reading of an identifier into a division:
   * games are "LEAGUE TIER DIV n"; practices are "LEAGUE TIER DIV n PRC m",
   * "LEAGUE TIER PRC m" (every division) or the bare special practices
   * "CMSA U12T1S" and "CMSA U13T1S". Anything else is an exception.
   */
  function ParseEventId(id: string, isGame: bool): (r: Result<Division, string>)
    ensures r.Success? ==>
      |SplitWs(id)| >= 2 && r.value.league == SplitWs(id)[0] && r.value.tier == SplitWs(id)[1]
    ensures isGame ==> (r.Success? <==> |SplitWs(id)| == 4 && SplitWs(id)[2] == "DIV")
    ensures !isGame ==> (r.Success? <==>
      var p := SplitWs(id);
      (|p| == 6 && p[2] == "DIV") || (|p| == 4 && p[2] != "DIV") ||
      (|p| == 2 && p[0] == "CMSA" && (p[1] == "U12T1S" || p[1] == "U13T1S")))
    ensures r.Success? ==>
      r.value.div == (if |SplitWs(id)| >= 4 && SplitWs(id)[2] == "DIV" then SplitWs(id)[3] else AllDivs)
  {
    var parts := SplitWs(id);
    if |parts| < 2 then Failure("Invalid event identifier: " + id)
    else
      var league, tier := parts[0], parts[1];
      if isGame then
        if |parts| == 4 && parts[2] == "DIV" then Success(Division(league, tier, parts[3]))
        else Failure("Invalid game identifier: " + id)
      else if |parts| == 6 && parts[2] == "DIV" then Success(Division(league, tier, parts[3]))
      else if |parts| == 4 && parts[2] != "DIV" then Success(Division(league, tier, AllDivs))
      else if |parts| == 2 && league == "CMSA" && (tier == "U12T1S" || tier == "U13T1S") then
        Success(Division(league, tier, AllDivs))
      else Failure("Invalid practice identifier: " + id)
  }

  /** A well-formed game identifier names its league, tier and division number. */
  lemma GameIdRoundTrip(league: string, tier: string, div: string)
    requires IsToken(league) && IsToken(tier) && IsToken(div)
    ensures ParseEventId(Join([league, tier, "DIV", div]), true) == Success(Division(league, tier, div))
    ensures ParseEventId(Join([league, tier, "DIV", div]), false).Failure?
  {
    SplitWsOfJoin([league, tier, "DIV", div]);
  }

  /** A practice of one division, "LEAGUE TIER DIV n PRC m", keeps its division number. */
  lemma DivisionPracticeIdRoundTrip(league: string, tier: string, div: string, kind: string, num: string)
    requires IsToken(league) && IsToken(tier) && IsToken(div) && IsToken(kind) && IsToken(num)
    ensures ParseEventId(Join([league, tier, "DIV", div, kind, num]), false) == Success(Division(league, tier, div))
    ensures ParseEventId(Join([league, tier, "DIV", div, kind, num]), true).Failure?
  {
    SplitWsOfJoin([league, tier, "DIV", div, kind, num]);
  }

  /** A tier-wide practice "LEAGUE TIER PRC m" covers every division of the tier. */
  lemma TierPracticeIdRoundTrip(league: string, tier: string, kind: string, num: string)
    requires IsToken(league) && IsToken(tier) && IsToken(kind) && IsToken(num) && kind != "DIV"
    ensures ParseEventId(Join([league, tier, kind, num]), false) == Success(Division(league, tier, AllDivs))
    ensures ParseEventId(Join([league, tier, kind, num]), true).Failure?
  {
    SplitWsOfJoin([league, tier, kind, num]);
  }

  /** The special practices are accepted in their two-word form only, as practices. */
  lemma SpecialPracticeIdParses(tier: string)
    requires tier == "U12T1S" || tier == "U13T1S"
    ensures ParseEventId(Join(["CMSA", tier]), false) == Success(Division("CMSA", tier, AllDivs))
    ensures ParseEventId(Join(["CMSA", tier]), true).Failure?
  {
    assert IsToken("CMSA");
    assert IsToken(tier);
    SplitWsOfJoin(["CMSA", tier]);
  }

  /** A single word is never an event identifier. */
  lemma OneWordRejected(w: string, isGame: bool)
    requires IsToken(w)
    ensures ParseEventId(w, isGame).Failure?
  {
    SplitWsOfJoin([w]);
  }

  // ---------------------------------------------------------------------
  // The event object
  // ---------------------------------------------------------------------

  /**
   * An event. Equality of events is equality of identifiers, so the
   * relation sets hold identifiers of the related events.
   */
  class Event {
    const id: string
    const division: Division
    const isGame: bool
    var incompatibleEvents: set<string>
    var unwantedSlots: set<Slot>
    var preferences: map<Slot, int>
    var pairs: set<string>

    constructor (id: string, isGame: bool)
      requires ParseEventId(id, isGame).Success?
      ensures this.id == id && this.isGame == isGame && division == ParseEventId(id, isGame).value
      ensures WellFormed()
      ensures incompatibleEvents == {} && unwantedSlots == {} && preferences == map[] && pairs == {}
    {
      this.id := id;
      this.isGame := isGame;
      this.division := ParseEventId(id, isGame).value;
      incompatibleEvents := {};
      unwantedSlots := {};
      preferences := map[];
      pairs := {};
    }

    /** The `Event` constructor, throwing on an identifier it cannot read. */
    static method Create(id: string, isGame: bool) returns (r: Result<Event, string>)
      ensures r.Success? <==> ParseEventId(id, isGame).Success?
      ensures r.Failure? ==> r.error == ParseEventId(id, isGame).error
      ensures r.Success? ==>
        fresh(r.value) && r.value.id == id && r.value.isGame == isGame
        && r.value.division == ParseEventId(id, isGame).value
        && r.value.incompatibleEvents == {} && r.value.unwantedSlots == {}
        && r.value.preferences == map[] && r.value.pairs == {}
    {
      match ParseEventId(id, isGame)
      case Failure(e) => r := Failure(e);
      case Success(_) =>
        var e := new Event(id, isGame);
        r := Success(e);
    }

    /** The event's division is the one its identifier reads as. */
    predicate WellFormed() { ParseEventId(id, isGame) == Success(division) }

    predicate IsEvening() { Divisions.IsEvening(division) }

    predicate IsU15toU19() { Divisions.IsU15toU19(division) }

    predicate SameDivision(other: Event) { Same(division, other.division) }

    /** The CMSA special practices, recognised by league and tier alone. */
    predicate IsSpecialPractice() {
      division.league == "CMSA" && (division.tier == "U12T1S" || division.tier == "U13T1S")
    }

    /**
     * `Event.isCompatible`: the slot is not unwanted, has the event's kind,
     * is in the evening for an evening event, and is the special Tuesday
     * slot for a special practice.
     */
    predicate IsCompatible(slot: Slot)
      reads this
    {
      if slot in unwantedSlots then false
      else if isGame != slot.isGameSlot then false
      else if IsEvening() && !Slots.IsEvening(slot) then false
      else if IsSpecialPractice() && !IsSpecialPracticeSlot(slot) then false
      else true
    }

    /**
     * The four conditions of compatibility, each on its own: the special
     * practices need the Tuesday practice slot at minute 660 (11:00).
     */
    lemma CompatibleMeans(slot: Slot)
      ensures IsCompatible(slot) <==>
        slot !in unwantedSlots && isGame == slot.isGameSlot
        && (IsEvening() ==> slot.startTime >= 1080)
        && (IsSpecialPractice() ==> slot.day == "TU" && !slot.isGameSlot && slot.startTime == 660)
    {
    }

    /**
     * A game whose tier is that of a special practice ("CMSA U12T1S DIV 1")
     * needs the Tuesday practice slot on one hand and a game slot on the
     * other, so no slot is compatible with it.
     */
    lemma SpecialGameFitsNowhere(slot: Slot)
      requires isGame && IsSpecialPractice()
      ensures !IsCompatible(slot)
    {
    }

    /**
     * Records that the two events may not overlap, on both sides; nothing
     * happens when the identifiers are equal.
     */
    method SetIncompatible(other: Event)
      modifies this`incompatibleEvents, other`incompatibleEvents
      ensures incompatibleEvents == old(incompatibleEvents) + (if other.id != id then {other.id} else {})
      ensures other.incompatibleEvents == old(other.incompatibleEvents) + (if other.id != id then {id} else {})
      decreases if id in other.incompatibleEvents then 0 else 1
    {
      if other.id != id {
        incompatibleEvents := incompatibleEvents + {other.id};
        if id !in other.incompatibleEvents {
          other.SetIncompatible(this);
        }
      }
    }

    method SetUnwanted(slot: Slot)
      modifies this`unwantedSlots
      ensures unwantedSlots == old(unwantedSlots) + {slot}
    {
      unwantedSlots := unwantedSlots + {slot};
    }

    method SetPreference(slot: Slot, weight: int)
      modifies this`preferences
      ensures preferences == old(preferences)[slot := weight]
    {
      preferences := preferences[slot := weight];
    }

    /** Records that the two events should be played together, on both sides (an event may pair with itself). */
    method SetPair(other: Event)
      modifies this`pairs, other`pairs
      ensures pairs == old(pairs) + {other.id}
      ensures other.pairs == old(other.pairs) + {id}
      decreases if id in other.pairs then 0 else 1
    {
      pairs := pairs + {other.id};
      if id !in other.pairs {
        other.SetPair(this);
      }
    }
  }

  /** Every event is stored under its own identifier. */
  ghost predicate EventsKeyed(evs: map<string, Event>) {
    forall k :: k in evs ==> evs[k].id == k
  }
}

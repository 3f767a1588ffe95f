/**
 * Divisions of players: a league, an age tier and a division number. Two
 * events clash when their divisions are "the same" players.
 */
module Divisions {

  datatype Division = Division(league: string, tier: string, div: string)

  /** The wildcard division number used by practices open to a whole tier. */
  const AllDivs: string := "all"

  /** Evening divisions are those whose number starts with '9'. */
  predicate IsEvening(d: Division) { "9" <= d.div }

  /** The CMSA tiers whose special practice ("...S") is tied to the tier itself. */
  predicate SpecialPartners(a: Division, b: Division) {
    a.league == "CMSA" && b.league == "CMSA" &&
    ((a.tier == "U12T1" && b.tier == "U12T1S") || (a.tier == "U12T1S" && b.tier == "U12T1") ||
     (a.tier == "U13T1" && b.tier == "U13T1S") || (a.tier == "U13T1S" && b.tier == "U13T1"))
  }

  /** `Division.same`. */
  predicate Same(a: Division, b: Division) {
    if SpecialPartners(a, b) then true
    else if a.league != b.league then false
    else if a.tier != b.tier then false
    else if a.div != b.div && a.div != AllDivs && b.div != AllDivs then false
    else true
  }

  /** `Division.tierSame`: the two divisions name one age tier. */
  predicate TierSame(a: Division, b: Division) { a.tier == b.tier }

  /** Divisions that are the same players share a tier, unless they are the CMSA special partners. */
  lemma SameSharesTier(a: Division, b: Division)
    ensures Same(a, b) && !SpecialPartners(a, b) ==> TierSame(a, b)
    ensures SpecialPartners(a, b) ==> !TierSame(a, b)
    ensures TierSame(a, b) == TierSame(b, a)
  {
  }

  /** Tiers U15 to U19, whose games may never overlap one another. */
  predicate IsU15toU19(d: Division) {
    "U15" <= d.tier || "U16" <= d.tier || "U17" <= d.tier || "U18" <= d.tier || "U19" <= d.tier
  }

  /** Evening divisions are exactly those whose number begins with the digit 9. */
  lemma EveningMeansLeadingNine(d: Division)
    ensures IsEvening(d) <==> |d.div| > 0 && d.div[0] == '9'
  {
    if |d.div| > 0 && d.div[0] == '9' {
      assert d.div[..1] == "9";
    }
  }

  /** The tiers U15 to U19 are exactly those beginning with "U1" and a digit from 5 to 9. */
  lemma U15toU19MeansPrefix(d: Division)
    ensures IsU15toU19(d) <==> |d.tier| >= 3 && d.tier[0] == 'U' && d.tier[1] == '1' && '5' <= d.tier[2] <= '9'
  {
    if |d.tier| >= 3 && d.tier[0] == 'U' && d.tier[1] == '1' && '5' <= d.tier[2] <= '9' {
      var p := d.tier[..3];
      assert p == ['U', '1', d.tier[2]];
      if d.tier[2] == '5' {
        assert p == "U15";
      } else if d.tier[2] == '6' {
        assert p == "U16";
      } else if d.tier[2] == '7' {
        assert p == "U17";
      } else if d.tier[2] == '8' {
        assert p == "U18";
      } else {
        assert p == "U19";
      }
    }
  }

  lemma SameReflexive(a: Division)
    ensures Same(a, a)
  {
  }

  lemma SameSymmetric(a: Division, b: Division)
    ensures Same(a, b) == Same(b, a)
  {
  }

  /** Divisions of different leagues are never the same, save the CMSA special pairs (also one league). */
  lemma DifferentLeaguesDiffer(a: Division, b: Division)
    requires a.league != b.league
    ensures !Same(a, b)
  {
  }

  /**
   * Outside the special pairs, `Same` holds exactly for equal league and tier
   * with equal division numbers or a wildcard on either side.
   */
  lemma SameOutsideSpecialPairs(a: Division, b: Division)
    requires !SpecialPartners(a, b)
    ensures Same(a, b) <==>
      a.league == b.league && a.tier == b.tier && (a.div == b.div || a.div == AllDivs || b.div == AllDivs)
  {
  }

  /** The special practice "CMSA U12T1S" / "CMSA U13T1S" is the same as every division of its base tier. */
  lemma SpecialPracticeMatchesBaseTier(baseTier: string, d: string, d2: string)
    requires baseTier == "U12T1" || baseTier == "U13T1"
    ensures Same(Division("CMSA", baseTier, d), Division("CMSA", baseTier + "S", d2))
    ensures Same(Division("CMSA", baseTier + "S", d2), Division("CMSA", baseTier, d))
  {
    assert baseTier == "U12T1" ==> baseTier + "S" == "U12T1S";
    assert baseTier == "U13T1" ==> baseTier + "S" == "U13T1S";
  }

  /** Same also needs equal tiers otherwise: different tiers of one league are apart. */
  lemma DifferentTiersDiffer(a: Division, b: Division)
    requires a.tier != b.tier && !SpecialPartners(a, b)
    ensures !Same(a, b)
  {
  }
}

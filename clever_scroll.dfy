/** The load-more loop of CleverSpider.parse_category
    (egrocery_scraper/spiders/clever_spider.py): click or scroll, count the
    product cards, and stop once the count has stayed the same for two
    rounds in a row or after sixty rounds. The browser is abstracted to the
    card count it reports at each round. */
module CleverScroll {

  const MaxRounds := 60

  /** The count compared at round r: the card count read in that round,
      and 0 for round 0, the initial prev_count. */
  function Reading(count: nat -> nat, r: nat): nat {
    if r == 0 then 0 else count(r)
  }

  /** The readings at rounds r - 2, r - 1 and r agree: the second unchanged
      count in a row. */
  predicate Settled(count: nat -> nat, r: nat) {
    r >= 2 && Reading(count, r) == Reading(count, r - 1) == Reading(count, r - 2)
  }

  /** How many rounds in a row, ending at r, read the same count as the
      round before. */
  function Streak(count: nat -> nat, r: nat): nat {
    if r == 0 then 0
    else if Reading(count, r) == Reading(count, r - 1) then Streak(count, r - 1) + 1
    else 0
  }

  /** The first round from r on at which the count has settled, or sixty. */
  function FirstSettled(count: nat -> nat, r: nat): (s: nat)
    requires 2 <= r <= MaxRounds
    ensures r <= s <= MaxRounds
    ensures s < MaxRounds ==> Settled(count, s)
    ensures forall k :: r <= k < s ==> !Settled(count, k)
    decreases MaxRounds - r
  {
    if r == MaxRounds || Settled(count, r) then r else FirstSettled(count, r + 1)
  }

  /** The round after which the loop stops. */
  function StopRound(count: nat -> nat): (s: nat)
    ensures 2 <= s <= MaxRounds
  {
    FirstSettled(count, 2)
  }

  /** A streak of two or more is exactly a settled round. */
  lemma StreakSettled(count: nat -> nat, r: nat)
    ensures Streak(count, r) >= 2 <==> Settled(count, r)
  {
    if r >= 1 && Reading(count, r) == Reading(count, r - 1) && r - 1 >= 1 {
      assert Streak(count, r - 1) >= 1 <==> Reading(count, r - 1) == Reading(count, r - 2);
    }
  }

  /** The loop: rounds, the streak of unchanged counts, and the count last
      seen to change. */
  method ScrollUntilStable(count: nat -> nat) returns (rounds: nat, stableRounds: nat, prevCount: nat)
    ensures rounds == StopRound(count)
    ensures prevCount == Reading(count, rounds)
    ensures stableRounds == 2 || rounds == MaxRounds
    ensures stableRounds == 2 <==> Settled(count, rounds)
  {
    prevCount := 0;
    stableRounds := 0;
    var maxRounds := MaxRounds;
    rounds := 0;
    while stableRounds < 2 && rounds < maxRounds
      invariant rounds <= MaxRounds
      invariant prevCount == Reading(count, rounds)
      invariant stableRounds == Streak(count, rounds) && stableRounds <= 2
      invariant forall k :: 2 <= k < rounds ==> !Settled(count, k)
      decreases MaxRounds - rounds
    {
      StreakSettled(count, rounds);
      rounds := rounds + 1;
      var curCount := count(rounds);
      if curCount == prevCount {
        stableRounds := stableRounds + 1;
      } else {
        stableRounds := 0;
        prevCount := curCount;
      }
    }
    StreakSettled(count, rounds);
    FirstSettledIs(count, rounds);
  }

  /** A round before which nothing settled, and which is settled or the
      sixtieth, is the stop round. */
  lemma FirstSettledIs(count: nat -> nat, s: nat)
    requires 2 <= s <= MaxRounds
    requires forall k :: 2 <= k < s ==> !Settled(count, k)
    requires s == MaxRounds || Settled(count, s)
    ensures StopRound(count) == s
  {
  }

  /** With counts 5, 8, 8, 8, 12 the loop stops after the fourth round, on
      the third 8: the 12 is never read. */
  lemma StopsOnThirdEqualReading(count: nat -> nat)
    requires count(1) == 5 && count(2) == 8 && count(3) == 8 && count(4) == 8 && count(5) == 12
    ensures StopRound(count) == 4 && Reading(count, StopRound(count)) == 8
  {
    assert !Settled(count, 2) && !Settled(count, 3) && Settled(count, 4);
    FirstSettledIs(count, 4);
  }

  /** Because prev_count starts at 0, a page that never shows a card stops
      after the second round. */
  lemma EmptyPageStopsAtRoundTwo(count: nat -> nat)
    requires count(1) == 0 && count(2) == 0
    ensures StopRound(count) == 2
  {
    assert Settled(count, 2);
  }

  /** A count that changes every round runs all sixty rounds. */
  lemma ChangingCountRunsToLimit(count: nat -> nat)
    requires forall r: nat :: 1 <= r ==> Reading(count, r) != Reading(count, r - 1)
    ensures StopRound(count) == MaxRounds
  {
  }
}

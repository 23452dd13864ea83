/**
 The raffle as `main` runs it once the entrants are read: remove
 duplicates, cut the winner count down when it exceeds the entrants,
 shuffle, and draw the winners. Argument parsing, reading the entrants and
 printing or saving the winners stay outside the model; the random draws
 of the shuffle passes and of the picks are parameters.
 */
module Raffle {
  import opened Seqs
  import opened Whitespace
  import opened Dedup
  import opened Shuffle
  import opened Pick

  /**
   The winner count `main` uses: the requested count when there are enough
   entrants for it, and otherwise half the `m` entrants rounded up.
   */
  function AdjustWinners(requested: int, m: nat): (w: int)
    ensures requested <= m ==> w == requested
    ensures requested > m ==> 0 <= w && m <= 2 * w <= m + 1
    ensures w <= m
    ensures w <= requested
  {
    if requested > m then (m + 1) / 2 else requested
  }

  /** What one raffle produces: the winners, the drained entrant list, the duplicate count and the winner count used. */
  datatype Report = Report(winners: seq<string>, remaining: seq<string>, dupes: int, winnerCount: int)

  /** The number of entrants after deduplication. */
  function Entrants(raw: seq<string>): nat {
    |RemoveDupes(raw).0|
  }

  /**
   `main` from deduplication to the count it prints: the pipeline never
   reaches `choice` on an empty list, because the adjusted winner count
   never exceeds the entrants.
   */
  function Run(raw: seq<string>, shuffles: int, requested: int, passes: seq<seq<nat>>, draws: seq<nat>): (r: Report)
    requires |passes| == Rounds(shuffles) && ValidPasses(passes, Entrants(raw))
    requires |draws| == Rounds(AdjustWinners(requested, Entrants(raw)))
    requires ValidPicks(draws, Entrants(raw))
    ensures r.winnerCount == AdjustWinners(requested, Entrants(raw))
    ensures r.winnerCount <= Entrants(raw)
    ensures requested > Entrants(raw) ==> Entrants(raw) <= 2 * |r.winners| <= Entrants(raw) + 1
    ensures requested <= Entrants(raw) ==> r.winnerCount == requested
    ensures |r.winners| == Rounds(r.winnerCount)
    ensures |r.remaining| + |r.winners| == Entrants(raw) == |raw| - r.dupes
    ensures r.dupes >= 0
    ensures NoDup(r.winners) && NoDup(r.remaining)
    ensures forall w :: w in r.winners ==> w !in r.remaining
    ensures forall x :: x in r.winners + r.remaining <==> x in Trimmed(raw)
    ensures requested >= 1 && |raw| >= 1 ==> |r.winners| >= 1
  {
    var (emails, dupes) := RemoveDupes(raw);
    var winnerCount := AdjustWinners(requested, |emails|);
    var shuffled := RandomizeList(emails, shuffles, passes);
    PermutationKeepsNoDup(emails, shuffled);
    var drawn := PickWinners(shuffled, winnerCount, draws).value;
    DistinctEntrantsGiveDistinctWinners(shuffled, winnerCount, draws);
    assert forall x :: x in drawn.winners + drawn.remaining <==> x in multiset(emails) by {
      assert multiset(drawn.winners + drawn.remaining) == multiset(emails);
    }
    assert |raw| >= 1 ==> |emails| >= 1 by {
      if |raw| >= 1 {
        assert Trimmed(raw)[0] in Trimmed(raw);
      }
    }
    Report(drawn.winners, drawn.remaining, dupes, winnerCount)
  }

  /**
   Four entrants, one of them a padded repeat and one padded: one duplicate
   is reported and the three addresses are kept stripped and in order.
   */
  lemma PaddedRepeatDedupExample()
    ensures RemoveDupes(["a@x.com", "b@x.com", "a@x.com ", " c@x.com"]) == (["a@x.com", "b@x.com", "c@x.com"], 1)
  {
    var raw := ["a@x.com", "b@x.com", "a@x.com ", " c@x.com"];
    var a, b, c := "a@x.com", "b@x.com", "c@x.com";
    StripExamples();
    assert Trimmed(raw) == [a, b, a, c];
    KeepFirstExample(a, b, c);
  }

  /**
   The stripped forms of the four example entrants. Each one is its own
   lemma: `Strip` of a string literal is evaluated by unfolding, and four
   such evaluations in one proof obligation exceed the resource limit.
   */
  lemma StripExamples()
    ensures Strip("a@x.com") == "a@x.com" && Strip("b@x.com") == "b@x.com"
    ensures Strip("a@x.com ") == "a@x.com" && Strip(" c@x.com") == "c@x.com"
  {
    StripBareA();
    StripBareB();
    StripTrailingA();
    StripLeadingC();
  }

  lemma StripBareA() ensures Strip("a@x.com") == "a@x.com" {
    StripOfPadded("", "a@x.com", "");
    assert "" + "a@x.com" + "" == "a@x.com";
  }

  lemma StripBareB() ensures Strip("b@x.com") == "b@x.com" {
    StripOfPadded("", "b@x.com", "");
    assert "" + "b@x.com" + "" == "b@x.com";
  }

  lemma StripTrailingA() ensures Strip("a@x.com ") == "a@x.com" {
    StripOfPadded("", "a@x.com", " ");
    assert "" + "a@x.com" + " " == "a@x.com ";
  }

  lemma StripLeadingC() ensures Strip(" c@x.com") == "c@x.com" {
    StripOfPadded(" ", "c@x.com", "");
    assert " " + "c@x.com" + "" == " c@x.com";
  }

  lemma KeepFirstExample(a: string, b: string, c: string)
    requires a != b && a != c && b != c
    ensures KeepFirst([a, b, a, c]) == [a, b, c]
  {
    var t := [a, b, a, c];
    assert t[..3] == [a, b, a];
    assert t[..3][..2] == [a, b];
    assert t[..3][..2][..1] == [a];
    assert KeepFirst([a]) == [a];
    assert KeepFirst([a, b]) == [a, b];
    assert KeepFirst([a, b, a]) == [a, b];
  }

  /** On those four entrants, two requested winners are two distinct ones of the three addresses. */
  lemma PaddedRepeatExample(passes: seq<seq<nat>>, draws: seq<nat>)
    requires |passes| == 5 && ValidPasses(passes, 3)
    requires |draws| == 2 && ValidPicks(draws, 3)
    ensures RemoveDupes(["a@x.com", "b@x.com", "a@x.com ", " c@x.com"]) == (["a@x.com", "b@x.com", "c@x.com"], 1)
      && var r := Run(["a@x.com", "b@x.com", "a@x.com ", " c@x.com"], 5, 2, passes, draws);
      && r.dupes == 1 && |r.winners| == 2 && r.winners[0] != r.winners[1]
      && forall w :: w in r.winners ==> w in ["a@x.com", "b@x.com", "c@x.com"]
  {
    PaddedRepeatDedupExample();
  }

  /**
   Three entrants and five requested winners: the count is cut to two, and
   two distinct entrants win.
   */
  lemma TooManyRequestedExample(raw: seq<string>, passes: seq<seq<nat>>, draws: seq<nat>)
    requires Entrants(raw) == 3
    requires |passes| == 5 && ValidPasses(passes, 3)
    requires |draws| == 2 && ValidPicks(draws, 3)
    ensures AdjustWinners(5, 3) == 2
    ensures var r := Run(raw, 5, 5, passes, draws);
      r.winnerCount == 2 && |r.winners| == 2 && r.winners[0] != r.winners[1]
  {
  }
}

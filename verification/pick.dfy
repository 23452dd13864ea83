/**
 `pick_winners`: `picks` rounds, each of which takes `choice(emails)`,
 appends it to the winners and pops the first entry equal to it from the
 list, which the caller keeps using afterwards. `choice` on an empty list
 raises `IndexError`. The random positions `choice` draws are a parameter.
 */
module Pick {
  import opened Seqs

  datatype Error = IndexError    // `choice` was asked to pick from an empty list

  datatype Result<T> = Ok(value: T) | Err(error: Error)

  /** What a run of `pick_winners` leaves: the winners in draw order, and the list it drained. */
  datatype Drawn<T> = Drawn(winners: seq<T>, remaining: seq<T>)

  /**
   Draws for the rounds of `pick_winners` on a list of `n` entries: the
   `k`-th round picks from `n - k` entries, so its position is below that.
   Rounds after the list has run out never draw, so their entries are free.
   */
  predicate ValidPicks(draws: seq<nat>, n: nat) {
    forall k :: 0 <= k < |draws| && k < n ==> draws[k] < n - k
  }

  /** `rounds` rounds of the loop of `pick_winners`, one draw per round. */
  function PickRounds<T(==)>(emails: seq<T>, rounds: nat, draws: seq<nat>): (r: Result<Drawn<T>>)
    requires |draws| == rounds
    requires ValidPicks(draws, |emails|)
    ensures r.Ok? <==> rounds <= |emails|
    ensures r.Ok? ==> |r.value.winners| == rounds
    ensures r.Ok? ==> multiset(r.value.winners) + multiset(r.value.remaining) == multiset(emails)
    decreases rounds
  {
    if rounds == 0 then Ok(Drawn([], emails))
    else if |emails| == 0 then Err(IndexError)
    else
      var winner := emails[draws[0]];
      var rest := RemoveFirst(emails, winner);
      assert multiset(emails) == multiset(rest) + multiset{winner};
      match PickRounds(rest, rounds - 1, draws[1..])
      case Err(e) => Err(e)
      case Ok(d) =>
        assert multiset([winner] + d.winners) == multiset{winner} + multiset(d.winners);
        Ok(Drawn([winner] + d.winners, d.remaining))
  }

  /**
   `pick_winners(emails, picks)`. It fails exactly when more rounds run than
   there are entries; otherwise it returns `picks` winners (none when
   `picks` is not positive) and the list with those winners taken out.
   */
  function PickWinners<T(==)>(emails: seq<T>, picks: int, draws: seq<nat>): (r: Result<Drawn<T>>)
    requires |draws| == Rounds(picks)
    requires ValidPicks(draws, |emails|)
    ensures r.Ok? <==> picks <= |emails|
    ensures r.Ok? ==> |r.value.winners| == Rounds(picks)
    ensures r.Ok? ==> |r.value.remaining| == |emails| - Rounds(picks)
    ensures r.Ok? ==> multiset(r.value.winners) + multiset(r.value.remaining) == multiset(emails)
    ensures r.Ok? ==> forall w :: w in r.value.winners ==> w in emails
  {
    var r := PickRounds(emails, Rounds(picks), draws);
    if r.Ok? then
      var d := r.value;
      assert |multiset(d.winners) + multiset(d.remaining)| == |emails|;
      assert forall w :: w in d.winners ==> w in multiset(emails);
      r
    else r
  }

  /**
   On a duplicate-free list, as `remove_dupes` always produces, the winners
   are pairwise distinct, none of them is left in the list, and the list
   stays duplicate-free.
   */
  lemma DistinctEntrantsGiveDistinctWinners<T>(emails: seq<T>, picks: int, draws: seq<nat>)
    requires |draws| == Rounds(picks)
    requires ValidPicks(draws, |emails|)
    requires NoDup(emails)
    requires picks <= |emails|
    ensures NoDup(PickWinners(emails, picks, draws).value.winners)
    ensures NoDup(PickWinners(emails, picks, draws).value.remaining)
    ensures forall w :: w in PickWinners(emails, picks, draws).value.winners ==> w !in PickWinners(emails, picks, draws).value.remaining
  {
    var d := PickWinners(emails, picks, draws).value;
    SplitOfDistinct(emails, d.winners, d.remaining);
  }

  /** Two sequences that together hold exactly the values of a duplicate-free sequence are duplicate-free and disjoint. */
  lemma SplitOfDistinct<T>(s: seq<T>, a: seq<T>, b: seq<T>)
    requires NoDup(s)
    requires multiset(a) + multiset(b) == multiset(s)
    ensures NoDup(a) && NoDup(b)
    ensures forall x :: x in a ==> x !in b
  {
    NoDupMultiset(s);
    forall x ensures multiset(a)[x] <= 1 && multiset(b)[x] <= 1 {
      assert multiset(a)[x] + multiset(b)[x] == multiset(s)[x];
    }
    NoDupMultiset(a);
    NoDupMultiset(b);
    forall x | x in a ensures x !in b {
      assert multiset(a)[x] + multiset(b)[x] == multiset(s)[x];
    }
  }

  /** The draws under which the rounds produce exactly the winners `ws`. */
  function DrawsForWinners<T(==)>(emails: seq<T>, ws: seq<T>): (draws: seq<nat>)
    requires multiset(ws) <= multiset(emails)
    ensures |draws| == |ws|
    ensures ValidPicks(draws, |emails|)
    decreases |ws|
  {
    if |ws| == 0 then []
    else
      assert ws == [ws[0]] + ws[1..];
      assert ws[0] in multiset(emails);
      var i := IndexOf(emails, ws[0]);
      var rest := RemoveFirst(emails, ws[0]);
      assert multiset(ws[1..]) <= multiset(rest);
      [i] + DrawsForWinners(rest, ws[1..])
  }

  /**
   The winner lists `pick_winners` can return are exactly the lists of
   entries taken without replacement: every outcome is one (the conservation
   contract of `PickRounds`), and every such list is the outcome of some
   draws.
   */
  lemma {:induction false} EveryDrawWithoutReplacementReachable<T>(emails: seq<T>, ws: seq<T>)
    requires multiset(ws) <= multiset(emails)
    ensures PickRounds(emails, |ws|, DrawsForWinners(emails, ws)).Ok?
    ensures PickRounds(emails, |ws|, DrawsForWinners(emails, ws)).value.winners == ws
    decreases |ws|
  {
    if |ws| > 0 {
      assert ws == [ws[0]] + ws[1..];
      assert ws[0] in multiset(emails);
      var rest := RemoveFirst(emails, ws[0]);
      assert multiset(ws[1..]) <= multiset(rest);
      var draws := DrawsForWinners(emails, ws);
      assert draws[0] == IndexOf(emails, ws[0]);
      assert draws[1..] == DrawsForWinners(rest, ws[1..]);
      EveryDrawWithoutReplacementReachable(rest, ws[1..]);
    }
  }
}

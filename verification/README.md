# quick-raffler winner selection, modelled in Dafny

quick-raffler draws raffle winners from a list of email addresses. Once the
entrants are read, `main` in `app.py` does four things. It removes
duplicates (`remove_dupes`). It cuts the winner count when more winners are
requested than there are entrants. It shuffles the list `times` times
(`randomize_list`). Then it draws the winners one by one without
replacement (`pick_winners`) and prints how many entries there were.

This project models those four steps and their composition. Randomness is
an oracle parameter, so every property holds for every outcome of the
generator:

- a shuffle pass takes the positions `random.shuffle` draws, one per step
  of its Fisher–Yates loop;
- `pick_winners` takes the position `choice` draws in each round.

Modules, one per step:

- `Seqs` (seqs.dfy): duplicate-freedom, `list.index`, `list.pop(list.index(x))`, swaps.
- `Whitespace` (strip.dfy): Python's `str.strip()` over the characters `str.isspace` accepts.
- `Dedup` (dedup.dfy): `remove_dupes`.
- `Shuffle` (shuffle.dfy): `random.shuffle` and `randomize_list`.
- `Pick` (pick.dfy): `pick_winners`, with `IndexError` as an error result.
- `Raffle` (raffle.dfy): the winner-count adjustment and the pipeline of `main`.

The model follows the code, including where the code departs from the
raffle's intended design:

- The code has one selection strategy: pop one random entrant per round. It
  has no remote randomness service, batched index draws or top-up draws.
- When there are no entrants, the adjusted winner count is `ceil(0/2) = 0`
  and nothing is drawn. This is defined behaviour, not an error.
- A winner count of zero or less is not rejected. `range(0, picks)` is then
  empty, so no winners are drawn. The same holds for a shuffle count of zero
  or less.
- `pick_winners` pops the first entry equal to the winner (`emails.index`),
  not necessarily the position `choice` drew. The two agree on the
  duplicate-free lists the pipeline passes it. The model keeps the code's
  form and proves conservation for any list.
- `pick_winners` returns distinct winners only because its input is
  duplicate-free. On a list with repeats it can return a repeated winner.
  The model states distinctness under that condition.

## Model

| member | source | states |
|---|---|---|
| Seqs.Rounds | app.py:33 | the number of iterations of `range(0, n)` (here and at line 24): `n` when `n` is not negative, and none when `n` is zero or less |
| Seqs.IndexOf | app.py:36 | `list.index` returns a position holding the value, and no earlier position holds it |
| Seqs.RemoveFirst | app.py:36 | popping the first occurrence shortens the list by one and removes exactly one copy of the value from its multiset |
| Seqs.RemoveFirstNoDup | app.py:36 | on a duplicate-free list the popped value is gone entirely, every other value stays, and the list stays duplicate-free |
| Whitespace.Strip | app.py:18 | `x.strip()` has no whitespace at either end, is no longer than `x`, and is empty exactly when `x` is all whitespace (blank lines become `""`) |
| Whitespace.StripIsPadded | app.py:18 | the input is the stripped text with only whitespace before and after it |
| Whitespace.StripOfPadded | app.py:18 | any text without whitespace at its ends, padded by any whitespace, strips back to exactly that text; with StripIsPadded this pins the result down |
| Whitespace.StripIdempotent | app.py:18 | stripping a stripped entrant changes nothing |
| Dedup.Trimmed | app.py:18 | `x.strip()` applied to every entrant in order: same length, each entry the stripped entrant and free of whitespace at both ends |
| Dedup.KeepFirst | app.py:16-18 | the comprehension's result has no two equal entries, holds exactly the values of its input, and is no longer than it |
| Dedup.RemoveDupes | app.py:15-20 | the kept entrants are duplicate-free and are exactly the stripped inputs; the duplicate count is input length minus output length, never negative; empty input gives `([], 0)` |
| Dedup.KeepFirstIsFirstSeen | app.py:18 | the kept values are ordered by the position of their first occurrence in the input |
| Dedup.OrderedByFirstUnique | app.py:18 | two duplicate-free listings of the same values, both ordered by first occurrence, are equal |
| Dedup.KeepFirstCharacterised | app.py:18 | a sequence is the comprehension's result if and only if it lists each input value once in first-seen order |
| Dedup.RemoveDupesKeepsFirstSeenOrder | app.py:15-20 | `remove_dupes` lists each stripped entrant once, in first-seen order |
| Dedup.NoDupesIffDistinct | app.py:18-19 | the duplicate count is zero if and only if the stripped entrants are pairwise distinct, and then they come back unchanged in order |
| Dedup.RemoveDupesIdempotent | app.py:15-20 | deduplicating the output again changes nothing and reports zero duplicates |
| Shuffle.ShufflePass | app.py:25 | one `shuffle` keeps the length and the multiset of entrants, whatever positions the generator draws |
| Shuffle.RandomizeList | app.py:22-29 | `randomize_list` returns a permutation of its input, and the input itself when `times` is zero or less |
| Shuffle.ApplyPasses | app.py:24-25 | the `for` loop of `randomize_list` applying one `shuffle` per pass keeps the length and the multiset of the list |
| Shuffle.ApplyPassesSnoc | app.py:24-25 | the passes run in order: the last pass shuffles what the earlier passes produced |
| Shuffle.ShufflePassReachesEvery | app.py:25 | every permutation of the list is the result of one `shuffle` for some valid draws |
| Shuffle.RandomizeListReachesEvery | app.py:22-29 | for `times` of one or more, whatever the earlier passes did, every permutation of the input is a possible result, so the results are exactly the permutations |
| Shuffle.PermutationKeepsNoDup | app.py:59-65 | a shuffled list is duplicate-free if and only if the list was, so the deduplicated list stays duplicate-free |
| Pick.PickRounds | app.py:32-37 | the rounds fail exactly when they outnumber the entries; otherwise they yield one winner per round, and the winners and the rest of the list together are the original list as a multiset |
| Pick.PickWinners | app.py:31-38 | `pick_winners` raises `IndexError` exactly when `picks` exceeds the list length; otherwise it returns `max(picks, 0)` winners, all drawn from the list, and leaves the list shorter by that many, with winners plus remaining equal to the original list as a multiset |
| Pick.SplitOfDistinct | app.py:34-36 | two lists that together hold a duplicate-free list's values are each duplicate-free and share no value |
| Pick.DistinctEntrantsGiveDistinctWinners | app.py:34-36 | on a duplicate-free list the winners are pairwise distinct, none stays in the list, and the list stays duplicate-free |
| Pick.EveryDrawWithoutReplacementReachable | app.py:33-36 | every list of entries taken without replacement (its multiset within the list's) is the winner list for some valid draws |
| Raffle.AdjustWinners | app.py:60-62 | the count is kept when it does not exceed the `m` entrants; otherwise it becomes the `w` with `m <= 2w <= m + 1`, i.e. `ceil(m/2)`, which is 0 when `m = 0`; it never exceeds `m` nor the request |
| Raffle.Run | app.py:59-68 | the pipeline never fails; the winner count it uses is `AdjustWinners(requested, m)` for the `m` deduplicated entrants, so when more winners are requested than entrants it draws `ceil(m/2)` winners (`m <= 2 * winners <= m + 1`); it draws `max(adjusted count, 0)` winners, which are distinct and absent from the remaining list; winners plus remaining are exactly the stripped entrants; the entry count printed on line 68 equals the number of deduplicated entrants, i.e. the input length minus the duplicates; at least one winner is drawn when there is an entrant and at least one winner is requested |
| Raffle.PaddedRepeatDedupExample | app.py:15-20 | `["a@x.com","b@x.com","a@x.com "," c@x.com"]` deduplicates to `["a@x.com","b@x.com","c@x.com"]` with one duplicate |
| Raffle.PaddedRepeatExample | app.py:59-67 | on that input, two requested winners are two distinct addresses among the three, whatever the draws |
| Raffle.TooManyRequestedExample | app.py:60-67 | with three entrants and five winners requested, the count becomes 2 and two distinct winners are drawn |

## Left out

- Argument parsing, console and file input (`read_in_emails`), and printing. Also the `x`-masked public output and the `_winners.txt` file (app.py:7-13, 42-55, 63-64, 68-78). These are I/O; the model takes the entrant lines as a sequence of strings and returns the winners.
- The progress dots and `time.sleep` in `randomize_list` (app.py:26-28). They only pace the output.
- Statistical uniformity of `shuffle` and `choice`. A verifier cannot state it. The draws are arbitrary in-range oracle values instead, and the completeness lemmas show every outcome is reachable.
- `random.shuffle` and `random.choice` are not part of this model's source. The model follows the standard library's documented algorithm: a Fisher–Yates pass from the last position down, and an index below the list length.
- The float division in `ceil(len(emails) / 2)` (app.py:62). It is modelled as the exact integer `(m + 1) / 2`. The two differ only beyond 2^53 entrants.
- Python's `str.strip` is modelled with the fixed set of characters `str.isspace` accepts (ASCII whitespace, the separators U+001C–U+001F, and the Unicode space and line/paragraph separators). It takes no stripping argument, because the code never passes one.
- A remote randomness provider, a JSON export and the batched index-draw strategy. None of them is in `app.py`.

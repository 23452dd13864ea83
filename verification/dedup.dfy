/**
 `remove_dupes`: every entrant is stripped, and a stripped entrant is kept
 only the first time it is seen; the number of entrants dropped is reported
 as the duplicate count.
 */
module Dedup {
  import opened Seqs
  import opened Whitespace

  /** Every entrant stripped, in input order. */
  function Trimmed(emails: seq<string>): (t: seq<string>)
    ensures |t| == |emails|
    ensures forall i :: 0 <= i < |t| ==> Stripped(t[i]) && t[i] == Strip(emails[i])
  {
    seq(|emails|, i requires 0 <= i < |emails| => Strip(emails[i]))
  }

  /**
   The list-comprehension of `remove_dupes`: walk the values left to right
   and append each one that is not already in the result.
   */
  function KeepFirst(t: seq<string>): (u: seq<string>)
    ensures NoDup(u)
    ensures forall x :: x in u <==> x in t
    ensures |u| <= |t|
  {
    if |t| == 0 then []
    else
      var init := t[..|t| - 1];
      var last := t[|t| - 1];
      assert t == init + [last];
      var u := KeepFirst(init);
      if last in u then u else u + [last]
  }

  /** `remove_dupes(emails)`: the entrants left and the number of duplicates dropped. */
  function RemoveDupes(emails: seq<string>): (r: (seq<string>, int))
    ensures NoDup(r.0)
    ensures forall x :: x in r.0 <==> x in Trimmed(emails)
    ensures r.1 == |emails| - |r.0| && r.1 >= 0
    ensures |emails| == 0 ==> r == ([], 0)
  {
    var t := Trimmed(emails);
    var unduped := KeepFirst(t);
    (unduped, |emails| - |unduped|)
  }

  /**
   `u` lists the values of `t` once each, in the order of their first
   occurrence in `t`.
   */
  ghost predicate FirstSeen(t: seq<string>, u: seq<string>) {
    && NoDup(u)
    && (forall x :: x in u <==> x in t)
    && forall i, j :: 0 <= i < j < |u| ==> IndexOf(t, u[i]) < IndexOf(t, u[j])
  }

  /** A value's first position does not move when more values are appended. */
  lemma IndexOfAppend(t: seq<string>, y: string, x: string)
    requires x in t
    ensures x in t + [y] && IndexOf(t + [y], x) == IndexOf(t, x)
  {
    var i := IndexOf(t, x);
    var j := IndexOf(t + [y], x);
    assert (t + [y])[i] == x;
  }

  /** `KeepFirst` keeps values in the order in which they first appear. */
  lemma {:induction false} KeepFirstIsFirstSeen(t: seq<string>)
    ensures FirstSeen(t, KeepFirst(t))
  {
    if |t| > 0 {
      var init := t[..|t| - 1];
      var last := t[|t| - 1];
      assert t == init + [last];
      KeepFirstIsFirstSeen(init);
      var u := KeepFirst(init);
      forall x | x in u ensures IndexOf(t, x) == IndexOf(init, x) {
        IndexOfAppend(init, last, x);
      }
      if last !in u {
        var u' := u + [last];
        assert last !in init;
        assert IndexOf(t, last) == |init| by {
          assert t[|init|] == last;
          assert last !in t[..|init|];
        }
        forall i, j | 0 <= i < j < |u'|
          ensures IndexOf(t, u'[i]) < IndexOf(t, u'[j])
        {
          if j < |u| {
            assert u'[i] == u[i] && u'[j] == u[j];
          } else {
            assert u'[i] == u[i] && u'[j] == last;
          }
        }
      } else {
        forall i, j | 0 <= i < j < |u|
          ensures IndexOf(t, u[i]) < IndexOf(t, u[j])
        {
          assert u[i] in u && u[j] in u;
        }
      }
    }
  }

  /** Every value of `u` occurs in `t`, and `u` lists them by increasing first position in `t`. */
  ghost predicate OrderedByFirst(t: seq<string>, u: seq<string>) {
    && (forall x :: x in u ==> x in t)
    && forall i, j :: 0 <= i < j < |u| ==> IndexOf(t, u[i]) < IndexOf(t, u[j])
  }

  lemma OrderedByFirstTail(t: seq<string>, u: seq<string>)
    requires |u| > 0 && NoDup(u) && OrderedByFirst(t, u)
    ensures NoDup(u[1..]) && OrderedByFirst(t, u[1..])
  {
  }

  /**
   `s[0] in s` as a fact rather than a checked assertion. In the branches
   where it is used the path is already infeasible once the fact is known,
   and an `assert` there would be reported as proved from contradictory
   assumptions; a lemma call with no precondition only adds the fact.
   */
  lemma HeadIn(s: seq<string>)
    ensures |s| > 0 ==> s[0] in s
  {
  }

  lemma HeadsAgree(t: seq<string>, u: seq<string>, v: seq<string>)
    requires NoDup(u) && NoDup(v)
    requires forall x :: x in u <==> x in v
    requires OrderedByFirst(t, u) && OrderedByFirst(t, v)
    requires |u| > 0
    ensures |v| > 0 && v[0] == u[0]
  {
    assert u[0] in u;
    var k :| 0 <= k < |v| && v[k] == u[0];
    if k > 0 {
      HeadIn(v);
    }
  }

  /**
   Two duplicate-free sequences over the same values, both ordered by first
   position in `t`, are the same sequence.
   */
  lemma {:induction false} OrderedByFirstUnique(t: seq<string>, u: seq<string>, v: seq<string>)
    requires NoDup(u) && NoDup(v)
    requires forall x :: x in u <==> x in v
    requires OrderedByFirst(t, u) && OrderedByFirst(t, v)
    ensures u == v
    decreases |u|
  {
    HeadIn(v);
    if |u| > 0 {
      HeadsAgree(t, u, v);
      var u', v' := u[1..], v[1..];
      OrderedByFirstTail(t, u);
      OrderedByFirstTail(t, v);
      forall x ensures x in u' <==> x in v' {
        assert x in u' <==> x in u && x != u[0] by {
          assert u == [u[0]] + u';
        }
        assert x in v' <==> x in v && x != v[0] by {
          assert v == [v[0]] + v';
        }
      }
      OrderedByFirstUnique(t, u', v');
      assert u == [u[0]] + u' && v == [v[0]] + v';
    }
  }

  /**
   The result of `KeepFirst` is exactly the first-seen listing of `t`:
   `KeepFirst(t)` is one, and no other sequence is.
   */
  lemma KeepFirstCharacterised(t: seq<string>, u: seq<string>)
    ensures FirstSeen(t, u) <==> u == KeepFirst(t)
  {
    KeepFirstIsFirstSeen(t);
    if FirstSeen(t, u) {
      OrderedByFirstUnique(t, u, KeepFirst(t));
    }
  }

  /**
   The entrants `remove_dupes` keeps are the stripped entrants listed once
   each in the order in which they were first seen.
   */
  lemma {:induction false} RemoveDupesKeepsFirstSeenOrder(emails: seq<string>)
    ensures FirstSeen(Trimmed(emails), RemoveDupes(emails).0)
  {
    KeepFirstIsFirstSeen(Trimmed(emails));
  }

  /**
   No duplicates are reported exactly when the stripped entrants are already
   pairwise distinct, and then the entrants come back stripped and in order.
   */
  lemma {:induction false} NoDupesIffDistinct(emails: seq<string>)
    ensures RemoveDupes(emails).1 == 0 <==> NoDup(Trimmed(emails))
    ensures NoDup(Trimmed(emails)) ==> RemoveDupes(emails).0 == Trimmed(emails)
  {
    var t := Trimmed(emails);
    KeepFirstOfDistinct(t);
  }

  lemma {:induction false} KeepFirstOfDistinct(t: seq<string>)
    ensures |KeepFirst(t)| == |t| <==> NoDup(t)
    ensures NoDup(t) ==> KeepFirst(t) == t
  {
    if |t| > 0 {
      var init := t[..|t| - 1];
      var last := t[|t| - 1];
      assert t == init + [last];
      KeepFirstOfDistinct(init);
      var u := KeepFirst(init);
      if NoDup(t) {
        assert NoDup(init) by {
          forall i, j | 0 <= i < j < |init| ensures init[i] != init[j] {
            assert init[i] == t[i] && init[j] == t[j];
          }
        }
        assert last !in init by {
          forall i | 0 <= i < |init| ensures init[i] != last {
            assert init[i] == t[i];
          }
        }
      }
    }
  }

  /** Running `remove_dupes` on its own output changes nothing and finds no duplicates. */
  lemma {:induction false} RemoveDupesIdempotent(emails: seq<string>)
    ensures RemoveDupes(RemoveDupes(emails).0) == (RemoveDupes(emails).0, 0)
  {
    var u := RemoveDupes(emails).0;
    assert Trimmed(u) == u by {
      forall i | 0 <= i < |u| ensures Trimmed(u)[i] == u[i] {
        assert u[i] in u;
        var j :| 0 <= j < |emails| && Strip(emails[j]) == u[i];
        StripIdempotent(emails[j]);
      }
    }
    NoDupesIffDistinct(u);
  }
}

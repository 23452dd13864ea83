/**
 Python's `str.strip()` with no argument: leading and trailing whitespace is
 removed, where whitespace is every character `str.isspace` accepts.
 */
module Whitespace {

  /** The characters Python treats as whitespace when stripping. */
  predicate IsSpace(c: char) {
    || ('\t' <= c <= '\r')            // tab, line feed, vertical tab, form feed, carriage return
    || ('\U{1C}' <= c <= '\U{1F}')    // file, group, record and unit separators
    || c == ' '
    || c == '\U{85}' || c == '\U{A0}' || c == '\U{1680}'
    || ('\U{2000}' <= c <= '\U{200A}')
    || c == '\U{2028}' || c == '\U{2029}' || c == '\U{202F}' || c == '\U{205F}' || c == '\U{3000}'
  }

  predicate AllSpace(s: string) {
    forall i :: 0 <= i < |s| ==> IsSpace(s[i])
  }

  /** Neither end of `s` is whitespace: what `strip` leaves behind. */
  predicate Stripped(s: string) {
    |s| == 0 || (!IsSpace(s[0]) && !IsSpace(s[|s| - 1]))
  }

  /** The number of whitespace characters `s` starts with. */
  function LeadingSpace(s: string): (n: nat)
    ensures n <= |s|
    ensures AllSpace(s[..n])
    ensures n < |s| ==> !IsSpace(s[n])
  {
    if |s| > 0 && IsSpace(s[0]) then
      var k := LeadingSpace(s[1..]);
      assert s[..k + 1] == [s[0]] + s[1..][..k];
      k + 1
    else 0
  }

  /** The number of whitespace characters `s` ends with. */
  function TrailingSpace(s: string): (n: nat)
    ensures n <= |s|
    ensures forall i :: |s| - n <= i < |s| ==> IsSpace(s[i])
    ensures n < |s| ==> !IsSpace(s[|s| - n - 1])
  {
    if |s| > 0 && IsSpace(s[|s| - 1]) then
      TrailingSpace(s[..|s| - 1]) + 1
    else 0
  }

  /** `s.strip()`. */
  function Strip(s: string): (r: string)
    ensures Stripped(r)
    ensures |r| <= |s|
    ensures r == [] <==> AllSpace(s)
  {
    var a := LeadingSpace(s);
    if a == |s| then
      assert s[..a] == s;
      []
    else
      var rest := s[a..];
      var b := TrailingSpace(rest);
      rest[..|rest| - b]
  }

  /**
   `Strip` removes exactly a whitespace prefix and a whitespace suffix: `s`
   is the stripped text padded on both sides by whitespace.
   */
  lemma {:induction false} StripIsPadded(s: string)
    ensures LeadingSpace(s) + |Strip(s)| <= |s|
    ensures s == s[..LeadingSpace(s)] + Strip(s) + s[LeadingSpace(s) + |Strip(s)|..]
    ensures AllSpace(s[..LeadingSpace(s)]) && AllSpace(s[LeadingSpace(s) + |Strip(s)|..])
  {
    var a := LeadingSpace(s);
    var r := Strip(s);
    if a == |s| {
      assert r == [];
      assert s == s[..a] + r + s[a + |r|..];
    } else {
      var rest := s[a..];
      var b := TrailingSpace(rest);
      assert r == rest[..|rest| - b];
      var tail := s[a + |r|..];
      assert tail == rest[|rest| - b..];
      assert AllSpace(tail) by {
        forall i | 0 <= i < |tail| ensures IsSpace(tail[i]) {
          assert tail[i] == rest[|rest| - b + i];
        }
      }
      assert s == s[..a] + r + tail;
    }
  }

  /**
   Conversely, whatever whitespace pads a stripped text, `Strip` recovers
   exactly that text. With `StripIsPadded` this pins `Strip(s)` down as the
   one stripped text that `s` pads.
   */
  lemma {:induction false} StripOfPadded(lead: string, core: string, trail: string)
    requires AllSpace(lead) && AllSpace(trail)
    requires Stripped(core)
    ensures Strip(lead + core + trail) == core
  {
    var s := lead + core + trail;
    if |core| == 0 {
      assert AllSpace(s) by {
        forall i | 0 <= i < |s| ensures IsSpace(s[i]) {
          if i < |lead| { assert s[i] == lead[i]; } else { assert s[i] == trail[i - |lead|]; }
        }
      }
    } else {
      assert (core + trail)[0] == core[0];
      LeadingOfPadded(lead, core + trail);
      assert s == lead + (core + trail);
      assert LeadingSpace(s) == |lead|;
      var rest := s[|lead|..];
      assert rest == core + trail;
      TrailingOfPadded(core, trail);
      assert rest[..|rest| - |trail|] == core;
    }
  }

  lemma {:induction false} LeadingOfPadded(lead: string, rest: string)
    requires AllSpace(lead)
    requires |rest| == 0 || !IsSpace(rest[0])
    ensures LeadingSpace(lead + rest) == |lead| + LeadingSpace(rest)
  {
    if |lead| > 0 {
      assert (lead + rest)[1..] == lead[1..] + rest;
      LeadingOfPadded(lead[1..], rest);
    } else {
      assert lead + rest == rest;
    }
  }

  lemma {:induction false} TrailingOfPadded(rest: string, trail: string)
    requires AllSpace(trail)
    requires |rest| == 0 || !IsSpace(rest[|rest| - 1])
    ensures TrailingSpace(rest + trail) == TrailingSpace(rest) + |trail|
  {
    if |trail| > 0 {
      var s := rest + trail;
      assert s[..|s| - 1] == rest + trail[..|trail| - 1];
      TrailingOfPadded(rest, trail[..|trail| - 1]);
    } else {
      assert rest + trail == rest;
    }
  }

  /** Stripping twice is stripping once. */
  lemma StripIdempotent(s: string)
    ensures Strip(Strip(s)) == Strip(s)
  {

  }
}

/**
 * The regular expression `^[^\s@]+@[^\s@]+\.[^\s@]+$` that `validation.email`
 * tests. `Matches` runs it as a deterministic automaton over the characters;
 * `MatchesEmailPattern` says declaratively which strings it accepts, and
 * `MatchesIff` proves that the two agree on every string.
 */
module EmailPattern {
  import opened Text

  /** A character of the class `[^\s@]`. */
  predicate PartChar(c: char) {
    !IsWhitespace(c) && c != '@'
  }

  /** A string made only of `[^\s@]` characters. */
  predicate IsPart(s: string) {
    forall i :: 0 <= i < |s| ==> PartChar(s[i])
  }

  /** `d` has a '.' with at least `before` characters before it and at least one after it. */
  ghost predicate DotWithin(d: string, before: nat) {
    exists k :: before <= k < |d| - 1 && d[k] == '.'
  }

  /** A domain part `[^\s@]+\.[^\s@]+`: no whitespace or '@', and a '.' that is neither first nor last. */
  ghost predicate IsDomain(d: string) {
    IsPart(d) && DotWithin(d, 1)
  }

  /** `s` splits at its index `a` into `[^\s@]*`, '@' and a domain part. */
  ghost predicate SplitsAt(s: string, a: int) {
    0 <= a < |s| && s[a] == '@' && IsPart(s[..a]) && IsDomain(s[a + 1..])
  }

  /** The strings the regular expression accepts: a non-empty local part, '@', a domain part. */
  ghost predicate MatchesEmailPattern(s: string) {
    exists a :: 0 < a && SplitsAt(s, a)
  }

  /** The three groups of the regular expression, split at the '@' (index i) and at a '.' (index j). */
  ghost predicate RegexGroups(s: string, i: int, j: int) {
    && 0 < i && i + 1 < j && j + 1 < |s|
    && s[i] == '@' && s[j] == '.'
    && IsPart(s[..i]) && IsPart(s[i + 1..j]) && IsPart(s[j + 1..])
  }

  /** The automaton's states: how much of `local@host.tld` has been read. */
  datatype State =
    | Start      // nothing read
    | InLocal    // a non-empty local part
    | AfterAt    // the local part and '@'
    | InHost     // a non-empty domain without a '.' after its first character
    | AtDot      // the domain so far ends with its first usable '.'
    | InTld      // the domain so far already has the form host.tld
    | Fail       // no continuation can match

  function Step(q: State, c: char): State {
    if IsWhitespace(c) then Fail
    else if c == '@' then (if q == InLocal then AfterAt else Fail)
    else match q
      case Start => InLocal
      case InLocal => InLocal
      case AfterAt => InHost
      case InHost => if c == '.' then AtDot else InHost
      case AtDot => InTld
      case InTld => InTld
      case Fail => Fail
  }

  function Run(q: State, s: string): State
    decreases s
  {
    if s == [] then q else Run(Step(q, s[0]), s[1..])
  }

  /** `emailRegex.test(s)`: the whole string drives the automaton into its accepting state. */
  function Matches(s: string): bool {
    Run(Start, s) == InTld
  }

  // What each state accepts: one lemma per state, each by induction on the rest of the input.

  lemma {:induction false} RunFail(u: string)
    ensures Run(Fail, u) == Fail
  {
    if u != [] { RunFail(u[1..]); }
  }

  lemma {:induction false} RunInTld(u: string)
    ensures Run(InTld, u) == InTld <==> IsPart(u)
  {
    if u != [] {
      if PartChar(u[0]) {
        RunInTld(u[1..]);
        assert IsPart(u) <==> IsPart(u[1..]) by {
          assert forall i :: 1 <= i < |u| ==> u[i] == u[1..][i - 1];
        }
      } else {
        RunFail(u[1..]);
      }
    }
  }

  lemma RunAtDot(u: string)
    ensures Run(AtDot, u) == InTld <==> u != [] && IsPart(u)
  {
    if u != [] {
      if PartChar(u[0]) {
        RunInTld(u[1..]);
        assert IsPart(u) <==> IsPart(u[1..]) by {
          assert forall i :: 1 <= i < |u| ==> u[i] == u[1..][i - 1];
        }
      } else {
        RunFail(u[1..]);
      }
    }
  }

  lemma {:induction false} RunInHost(u: string)
    ensures Run(InHost, u) == InTld <==> IsPart(u) && DotWithin(u, 0)
  {
    if u != [] {
      var c, v := u[0], u[1..];
      assert forall i :: 1 <= i < |u| ==> u[i] == v[i - 1];
      if !PartChar(c) {
        RunFail(v);
      } else if c == '.' {
        RunAtDot(v);
        if v != [] { assert 0 < |u| - 1 && u[0] == '.'; }
      } else {
        RunInHost(v);
        if DotWithin(u, 0) {
          var k :| 0 <= k < |u| - 1 && u[k] == '.';
          assert v[k - 1] == '.';
        }
        if DotWithin(v, 0) {
          var k :| 0 <= k < |v| - 1 && v[k] == '.';
          assert u[k + 1] == '.';
        }
      }
    }
  }

  lemma RunAfterAt(u: string)
    ensures Run(AfterAt, u) == InTld <==> IsDomain(u)
  {
    if u != [] {
      var c, v := u[0], u[1..];
      assert forall i :: 1 <= i < |u| ==> u[i] == v[i - 1];
      if !PartChar(c) {
        RunFail(v);
      } else {
        RunInHost(v);
        if DotWithin(u, 1) {
          var k :| 1 <= k < |u| - 1 && u[k] == '.';
          assert v[k - 1] == '.';
        }
        if DotWithin(v, 0) {
          var k :| 0 <= k < |v| - 1 && v[k] == '.';
          assert u[k + 1] == '.';
        }
      }
    }
  }

  /** Dropping a leading `[^\s@]` character shifts every split point down by one. */
  lemma SplitsShift(s: string, a: int)
    requires s != [] && PartChar(s[0]) && 0 <= a
    ensures SplitsAt(s, a + 1) <==> SplitsAt(s[1..], a)
  {
    if a + 1 < |s| {
      assert s[1..][..a] == s[1..a + 1] && s[1..][a + 1..] == s[a + 2..];
      assert s[..a + 1] == [s[0]] + s[1..a + 1];
    }
  }

  /** No split point lies after a first character outside `[^\s@]`. */
  lemma NoSplitAfterBadStart(s: string)
    requires s != [] && !PartChar(s[0])
    ensures forall a :: 0 < a ==> !SplitsAt(s, a)
  {
  }

  lemma {:induction false} RunInLocal(u: string)
    ensures Run(InLocal, u) == InTld <==> exists a :: SplitsAt(u, a)
  {
    if u != [] {
      var c, v := u[0], u[1..];
      if !PartChar(c) {
        NoSplitAfterBadStart(u);
        if IsWhitespace(c) {
          RunFail(v);
        } else {
          RunAfterAt(v);
          assert SplitsAt(u, 0) <==> IsDomain(v);
        }
      } else {
        RunInLocal(v);
        if exists a :: SplitsAt(u, a) {
          var a :| SplitsAt(u, a);
          SplitsShift(u, a - 1);
        }
        if exists a :: SplitsAt(v, a) {
          var a :| SplitsAt(v, a);
          SplitsShift(u, a);
        }
      }
    }
  }

  /** The automaton accepts exactly the strings of the pattern. */
  lemma MatchesIff(s: string)
    ensures Matches(s) <==> MatchesEmailPattern(s)
  {
    if s != [] {
      var c, v := s[0], s[1..];
      if !PartChar(c) {
        NoSplitAfterBadStart(s);
        RunFail(v);
      } else {
        RunInLocal(v);
        if MatchesEmailPattern(s) {
          var a :| 0 < a && SplitsAt(s, a);
          SplitsShift(s, a - 1);
        }
        if exists a :: SplitsAt(v, a) {
          var a :| SplitsAt(v, a);
          SplitsShift(s, a);
        }
      }
    }
  }

  /** The pattern is the regular expression's three groups `L@H.T`, on both sides of the equivalence. */
  lemma PatternIsRegexGroups(s: string)
    ensures MatchesEmailPattern(s) <==> exists i, j :: RegexGroups(s, i, j)
  {
    if MatchesEmailPattern(s) {
      var a :| 0 < a && SplitsAt(s, a);
      var d := s[a + 1..];
      var k :| 1 <= k < |d| - 1 && d[k] == '.';
      var j := a + 1 + k;
      assert s[a + 1..j] == d[..k] && s[j + 1..] == d[k + 1..];
      assert RegexGroups(s, a, j);
    }
    if exists i, j :: RegexGroups(s, i, j) {
      var i, j :| RegexGroups(s, i, j);
      var d := s[i + 1..];
      forall m | 0 <= m < |d| ensures PartChar(d[m]) {
        if m < j - i - 1 {
          assert d[m] == s[i + 1..j][m];
        } else if m > j - i - 1 {
          assert d[m] == s[j + 1..][m - (j - i)];
        }
      }
      assert d[j - i - 1] == '.';
      assert SplitsAt(s, i);
    }
  }

  /** A matching string has no whitespace and exactly one '@', at its split point. */
  lemma PatternHasOneAt(s: string, a: int)
    requires 0 < a && SplitsAt(s, a)
    ensures forall m :: 0 <= m < |s| ==> !IsWhitespace(s[m])
    ensures forall m :: 0 <= m < |s| && s[m] == '@' ==> m == a
  {
  }
}

/**
 * The email check of the profile-completion form: `validateEmail` accepts the
 * empty string and otherwise requires a match of the regular expression
 * `^[^\s@]+@[^\s@]+\.[^\s@]+$`.
 *
 * The regular expression is given two declarative readings (RegexMatch, the
 * pattern read literally; WellFormedEmail, the same language described field by
 * field) and one executable reading (Matches, a finite automaton run over the
 * string one character at a time). The lemmas prove all three equal.
 */
module EmailValidation {

  /** The class `\s` of JavaScript regular expressions: the ECMAScript
      WhiteSpace and LineTerminator code points. */
  predicate IsWs(c: char) {
    c == '\t' || c == '\n' || c == '\U{000B}' || c == '\U{000C}' || c == '\r' || c == ' '
    || c == '\U{00A0}' || c == '\U{1680}' || ('\U{2000}' <= c <= '\U{200A}')
    || c == '\U{2028}' || c == '\U{2029}' || c == '\U{202F}' || c == '\U{205F}'
    || c == '\U{3000}' || c == '\U{FEFF}'
  }

  /** A character of the class `[^\s@]`. */
  predicate Plain(c: char) {
    !IsWs(c) && c != '@'
  }

  /** Every character of `t` is in `[^\s@]`. */
  predicate AllPlain(t: string) {
    forall k | 0 <= k < |t| :: Plain(t[k])
  }

  // ---------------------------------------------------------------------------
  // Declarative readings of the pattern
  // ---------------------------------------------------------------------------

  /** `^[^\s@]+@[^\s@]+\.[^\s@]+$` read literally: `s` splits as
      local + "@" + middle + "." + last, the three runs non-empty and made of
      `[^\s@]` characters. */
  ghost predicate RegexMatch(s: string) {
    exists i, j | 0 < i && i + 1 < j < |s| - 1 ::
      s[i] == '@' && s[j] == '.' &&
      AllPlain(s[..i]) && AllPlain(s[i + 1..j]) && AllPlain(s[j + 1..])
  }

  /** The language of the pattern described field by field: no whitespace,
      exactly one `@`, a non-empty part before it, and after it a `.` that is
      neither the first nor the last character of the part after the `@`. */
  ghost predicate WellFormedEmail(s: string) {
    (forall k | 0 <= k < |s| :: !IsWs(s[k])) &&
    exists a | 0 < a < |s| ::
      s[a] == '@' &&
      (forall k | 0 <= k < |s| && k != a :: s[k] != '@') &&
      (exists d | a + 1 < d < |s| - 1 :: s[d] == '.')
  }

  /** The part after the `@` matches `[^\s@]+\.[^\s@]+`. */
  ghost predicate DomainOk(d: string) {
    AllPlain(d) && exists j | 0 < j < |d| - 1 :: d[j] == '.'
  }

  /** The intermediate reading the automaton's proof goes through: a non-empty
      plain part, the `@`, and a domain. */
  ghost predicate SplitMatch(s: string) {
    exists a | 0 < a < |s| :: SplitAt(s, a)
  }

  /** `s` is a plain part, then an `@` at index `a`, then a domain. */
  ghost predicate SplitAt(s: string, a: nat) {
    a < |s| && s[a] == '@' && AllPlain(s[..a]) && DomainOk(s[a + 1..])
  }

  // ---------------------------------------------------------------------------
  // The executable matcher
  // ---------------------------------------------------------------------------

  /** States of a deterministic automaton for the pattern. */
  datatype State =
    | LocalStart   // nothing read
    | InLocal      // one or more local characters read
    | DomainStart  // the `@` just read
    | InDomain     // domain characters read, no usable `.` yet
    | AfterDot     // a `.` read that has a domain character before it
    | Accepting    // a usable `.` followed by one or more characters
    | Stuck     // the input cannot match any more

  /** One character read in state `q`. Whitespace always leaves the
      language, and an `@` is allowed only right after the local part. */
  function Step(q: State, c: char): (r: State)
    ensures IsWs(c) ==> r == Stuck
    ensures c == '@' ==> (r == DomainStart <==> q == InLocal) && (r != DomainStart ==> r == Stuck)
    ensures q == Stuck ==> r == Stuck
    ensures Plain(c) ==> (r != Stuck <==> q != Stuck)
  {
    if !Plain(c) then
      if q == InLocal && c == '@' then DomainStart else Stuck
    else
      match q
      case LocalStart => InLocal
      case InLocal => InLocal
      case DomainStart => InDomain
      case InDomain => if c == '.' then AfterDot else InDomain
      case AfterDot => Accepting
      case Accepting => Accepting
      case Stuck => Stuck
  }

  /** The state reached from `q` after reading all of `s`, left to right. */
  function Run(q: State, s: string): (r: State)
    ensures q == Stuck ==> r == Stuck
    decreases |s|
  {
    if s == [] then q else Run(Step(q, s[0]), s[1..])
  }

  /** The regular-expression test `pattern.test(s)`: the automaton accepts
      exactly the strings of both declarative readings of the pattern. */
  predicate Matches(s: string): (r: bool)
    ensures r <==> RegexMatch(s)
    ensures r <==> WellFormedEmail(s)
  {
    AcceptsIffSplit(s);
    SplitIffRegex(s);
    SplitIffWellFormed(s);
    Run(LocalStart, s) == Accepting
  }

  // ---------------------------------------------------------------------------
  // The validator
  // ---------------------------------------------------------------------------

  /** The fixed message for a malformed email ("Please enter a valid email"). */
  const InvalidEmailMessage: string :=
    "\U{0644}\U{0637}\U{0641}\U{0627}\U{064B} \U{06CC}\U{06A9} \U{0627}\U{06CC}\U{0645}\U{06CC}\U{0644} "
    + "\U{0645}\U{0639}\U{062A}\U{0628}\U{0631} \U{0648}\U{0627}\U{0631}\U{062F} \U{06A9}\U{0646}\U{06CC}\U{062F}"

  /** `validateEmail`: no error for the empty string or a matching one, the
      fixed message otherwise. */
  function ValidateEmail(email: string): (r: string)
    ensures r == "" || r == InvalidEmailMessage
    ensures email == "" ==> r == ""
    ensures r == "" <==> email == "" || WellFormedEmail(email)
    ensures r == "" <==> email == "" || RegexMatch(email)
  {
    if email != "" && !Matches(email) then InvalidEmailMessage else ""
  }

  // ---------------------------------------------------------------------------
  // The automaton recognises the pattern
  // ---------------------------------------------------------------------------

  lemma AllPlainCons(s: string)
    requires s != []
    ensures AllPlain(s) <==> Plain(s[0]) && AllPlain(s[1..])
  {
    if Plain(s[0]) && AllPlain(s[1..]) {
      forall k | 0 < k < |s| ensures Plain(s[k]) {
        assert s[k] == s[1..][k - 1];
      }
    }
  }

  lemma {:induction false} RunAccepting(s: string)
    ensures Run(Accepting, s) == Accepting <==> AllPlain(s)
    decreases |s|
  {
    if s != [] {
      AllPlainCons(s);
      RunAccepting(s[1..]);
    }
  }

  lemma RunAfterDot(s: string)
    ensures Run(AfterDot, s) == Accepting <==> s != [] && AllPlain(s)
  {
    if s != [] {
      AllPlainCons(s);
      RunAccepting(s[1..]);
    }
  }

  lemma {:induction false} RunInDomain(s: string)
    ensures Run(InDomain, s) == Accepting <==>
      AllPlain(s) && exists j | 0 <= j < |s| - 1 :: s[j] == '.'
    decreases |s|
  {
    if s != [] {
      var t := s[1..];
      AllPlainCons(s);
      if !Plain(s[0]) {
      } else if s[0] == '.' {
        RunAfterDot(t);
        if |s| > 1 {
          assert s[0] == '.' && 0 <= 0 < |s| - 1;
        }
      } else {
        RunInDomain(t);
        if exists j | 0 <= j < |t| - 1 :: t[j] == '.' {
          var j :| 0 <= j < |t| - 1 && t[j] == '.';
          assert s[j + 1] == '.';
        }
        if exists j | 0 <= j < |s| - 1 :: s[j] == '.' {
          var j :| 0 <= j < |s| - 1 && s[j] == '.';
          assert j > 0 && t[j - 1] == '.';
        }
      }
    }
  }

  lemma RunDomainStart(s: string)
    ensures Run(DomainStart, s) == Accepting <==> DomainOk(s)
  {
    if s != [] {
      var t := s[1..];
      AllPlainCons(s);
      RunInDomain(t);
      if exists j | 0 <= j < |t| - 1 :: t[j] == '.' {
        var j :| 0 <= j < |t| - 1 && t[j] == '.';
        assert s[j + 1] == '.';
      }
      if exists j | 0 < j < |s| - 1 :: s[j] == '.' {
        var j :| 0 < j < |s| - 1 && s[j] == '.';
        assert t[j - 1] == '.';
      }
    }
  }

  /** Dropping a plain first character moves the `@` of a split one place left. */
  lemma SplitAtShift(s: string, a: nat)
    requires s != [] && Plain(s[0]) && 0 < a
    ensures SplitAt(s, a) <==> SplitAt(s[1..], a - 1)
  {
    if a < |s| {
      assert s[..a][1..] == s[1..][..a - 1];
      AllPlainCons(s[..a]);
      assert s[1..][a - 1 + 1..] == s[a + 1..];
    }
  }

  /** No split has its `@` after a character that is neither plain nor `@`. */
  lemma NoSplitAfterBad(s: string, a: nat)
    requires s != [] && !Plain(s[0]) && 0 < a
    ensures !SplitAt(s, a)
  {
    if a < |s| {
      assert s[..a][0] == s[0];
    }
  }

  lemma {:induction false} RunInLocal(s: string)
    ensures Run(InLocal, s) == Accepting <==> exists a | 0 <= a < |s| :: SplitAt(s, a)
    decreases |s|
  {
    if s != [] {
      var t := s[1..];
      if s[0] == '@' {
        RunDomainStart(t);
        assert s[..0] == [] && s[0 + 1..] == t;
        assert SplitAt(s, 0) <==> DomainOk(t);
        forall a | 0 < a < |s| ensures !SplitAt(s, a) {
          NoSplitAfterBad(s, a);
        }
      } else if !Plain(s[0]) {
        forall a | 0 <= a < |s| ensures !SplitAt(s, a) {
          if a > 0 { NoSplitAfterBad(s, a); }
        }
      } else {
        RunInLocal(t);
        ShiftedSplits(s);
      }
    }
  }

  /** With a plain first character, the splits of `s` are those of `s[1..]`,
      shifted by one. */
  lemma ShiftedSplits(s: string)
    requires s != [] && Plain(s[0])
    ensures (exists a | 0 <= a < |s| :: SplitAt(s, a)) <==>
      (exists a | 0 <= a < |s| - 1 :: SplitAt(s[1..], a))
    ensures SplitMatch(s) <==> (exists a | 0 <= a < |s| - 1 :: SplitAt(s[1..], a))
  {
    var t := s[1..];
    if exists a | 0 <= a < |t| :: SplitAt(t, a) {
      var a :| 0 <= a < |t| && SplitAt(t, a);
      SplitAtShift(s, a + 1);
    }
    if exists a | 0 <= a < |s| :: SplitAt(s, a) {
      var a :| 0 <= a < |s| && SplitAt(s, a);
      assert a > 0;
      SplitAtShift(s, a);
    }
  }

  /** The automaton accepts exactly the strings of SplitMatch. */
  lemma AcceptsIffSplit(s: string)
    ensures Run(LocalStart, s) == Accepting <==> SplitMatch(s)
  {
    if s != [] {
      var t := s[1..];
      if Plain(s[0]) {
        RunInLocal(t);
        ShiftedSplits(s);
      } else {
        forall a | 0 < a < |s| ensures !SplitAt(s, a) {
          NoSplitAfterBad(s, a);
        }
      }
    }
  }

  // ---------------------------------------------------------------------------
  // The three readings agree
  // ---------------------------------------------------------------------------

  /** Cutting a plain string at a `.` leaves two plain strings, and conversely. */
  lemma AllPlainAround(d: string, j: nat)
    requires j < |d| && d[j] == '.'
    ensures AllPlain(d) <==> AllPlain(d[..j]) && AllPlain(d[j + 1..])
  {
    if AllPlain(d[..j]) && AllPlain(d[j + 1..]) {
      forall k | 0 <= k < |d| ensures Plain(d[k]) {
        if k < j {
          assert d[k] == d[..j][k];
        } else if k > j {
          assert d[k] == d[j + 1..][k - j - 1];
        }
      }
    }
  }

  lemma SplitIffRegex(s: string)
    ensures SplitMatch(s) <==> RegexMatch(s)
  {
    if SplitMatch(s) {
      var a :| 0 < a < |s| && SplitAt(s, a);
      var d := s[a + 1..];
      var j :| 0 < j < |d| - 1 && d[j] == '.';
      AllPlainAround(d, j);
      assert d[..j] == s[a + 1..a + 1 + j] && d[j + 1..] == s[a + 1 + j + 1..];
      assert s[a + 1 + j] == '.';
    }
    if RegexMatch(s) {
      var i, j :| 0 < i && i + 1 < j < |s| - 1 && s[i] == '@' && s[j] == '.' &&
        AllPlain(s[..i]) && AllPlain(s[i + 1..j]) && AllPlain(s[j + 1..]);
      var d := s[i + 1..];
      assert d[j - i - 1] == '.';
      assert d[..j - i - 1] == s[i + 1..j] && d[j - i - 1 + 1..] == s[j + 1..];
      AllPlainAround(d, j - i - 1);
      assert DomainOk(d);
      assert SplitAt(s, i);
    }
  }

  lemma SplitIffWellFormed(s: string)
    ensures SplitMatch(s) <==> WellFormedEmail(s)
  {
    if SplitMatch(s) {
      var a :| 0 < a < |s| && SplitAt(s, a);
      var d := s[a + 1..];
      var j :| 0 < j < |d| - 1 && d[j] == '.';
      forall k | 0 <= k < |s| ensures !IsWs(s[k]) && (k != a ==> s[k] != '@') {
        if k < a {
          assert s[k] == s[..a][k];
        } else if k > a {
          assert s[k] == d[k - a - 1];
        }
      }
      assert s[a + 1 + j] == '.';
    }
    if WellFormedEmail(s) {
      var a :| 0 < a < |s| && s[a] == '@' &&
        (forall k | 0 <= k < |s| && k != a :: s[k] != '@') &&
        (exists d | a + 1 < d < |s| - 1 :: s[d] == '.');
      var e :| a + 1 < e < |s| - 1 && s[e] == '.';
      var d := s[a + 1..];
      assert d[e - a - 1] == '.';
      forall k | 0 <= k < |d| ensures Plain(d[k]) {
        assert d[k] == s[a + 1 + k];
      }
      forall k | 0 <= k < a ensures Plain(s[..a][k]) {
        assert s[..a][k] == s[k];
      }
      assert DomainOk(d);
      assert SplitAt(s, a);
    }
  }

  // ---------------------------------------------------------------------------
  // Consequences for callers
  // ---------------------------------------------------------------------------

  /** A non-empty string without an `@` is rejected. */
  lemma RejectsWithoutAt(s: string)
    requires s != "" && '@' !in s
    ensures ValidateEmail(s) == InvalidEmailMessage
  {
  }

  /** A string with an `@` is rejected when the part after that `@` has no `.`
      strictly inside it; in particular when there is no `.` after the `@`. */
  lemma RejectsWithoutInnerDot(s: string, a: nat)
    requires a < |s| && s[a] == '@'
    requires forall k | a + 1 < k < |s| - 1 :: s[k] != '.'
    ensures ValidateEmail(s) == InvalidEmailMessage
  {
  }

  /** A string containing whitespace is rejected. */
  lemma RejectsWhitespace(s: string, k: nat)
    requires k < |s| && IsWs(s[k])
    ensures ValidateEmail(s) == InvalidEmailMessage
  {
  }

  /** A string with two `@` is rejected. */
  lemma RejectsTwoAts(s: string, i: nat, j: nat)
    requires i < j < |s| && s[i] == '@' && s[j] == '@'
    ensures ValidateEmail(s) == InvalidEmailMessage
  {
  }

  /** A plain address with one `@` and a dotted domain is accepted. */
  lemma AcceptsExample()
    ensures ValidateEmail("ali@example.com") == ""
  {
    var s := "ali@example.com";
    assert s[3] == '@' && s[11] == '.';
    assert forall k | 0 <= k < |s| && k != 3 :: s[k] != '@';
    assert forall k | 0 <= k < |s| :: !IsWs(s[k]);
    assert WellFormedEmail(s);
  }

  /** A string starting with `@` has an empty local part and is rejected. */
  lemma RejectsEmptyLocalPart(s: string)
    requires s != "" && s[0] == '@'
    ensures ValidateEmail(s) == InvalidEmailMessage
  {
  }

  /** A `.` right after the `@` does not count as the domain's dot. */
  lemma RejectsDotRightAfterAt()
    ensures ValidateEmail("ali@.com") == InvalidEmailMessage
  {
    RejectsWithoutInnerDot("ali@.com", 3);
  }

  /** A `.` ending the string does not count as the domain's dot. */
  lemma RejectsTrailingDot()
    ensures ValidateEmail("ali@example.") == InvalidEmailMessage
  {
    RejectsWithoutInnerDot("ali@example.", 3);
  }

  /** The class `[^\s@]` contains `.`, so a domain may start with a dot. */
  lemma AcceptsLeadingDotInDomain()
    ensures ValidateEmail("a@..b") == ""
  {
    var t := "a@..b";
    assert t[1] == '@' && t[3] == '.';
    assert forall k | 0 <= k < |t| && k != 1 :: t[k] != '@';
    assert forall k | 0 <= k < |t| :: !IsWs(t[k]);
    assert WellFormedEmail(t);
  }
}

/** The e-mail validator of the author utilities: the anchored pattern
    `^[a-zA-Z0-9._%+-]+@[a-zA-Z0-9,-]+\.[a-zA-Z]{2,}$`, written out as a
    declarative language (`ValidEmail`) and as a deterministic automaton for
    it (`Scan`), proved to agree. */
module Email {
  import opened Types

  predicate IsAsciiLetter(c: char) { 'a' <= c <= 'z' || 'A' <= c <= 'Z' }

  predicate IsAsciiDigit(c: char) { '0' <= c <= '9' }

  /** The class `[a-zA-Z0-9._%+-]` of the part before the `@`. */
  predicate IsLocalChar(c: char) {
    IsAsciiLetter(c) || IsAsciiDigit(c) || c == '.' || c == '_' || c == '%' || c == '+' || c == '-'
  }

  /** The class `[a-zA-Z0-9,-]` of the host: a comma, but no dot. */
  predicate IsHostChar(c: char) {
    IsAsciiLetter(c) || IsAsciiDigit(c) || c == ',' || c == '-'
  }

  /** Every position in `[lo, hi)` lies inside `s` and holds a local character. */
  predicate AllLocal(s: string, lo: int, hi: int) {
    forall k :: lo <= k < hi ==> 0 <= k < |s| && IsLocalChar(s[k])
  }

  predicate AllHost(s: string, lo: int, hi: int) {
    forall k :: lo <= k < hi ==> 0 <= k < |s| && IsHostChar(s[k])
  }

  predicate AllLetters(s: string, lo: int, hi: int) {
    forall k :: lo <= k < hi ==> 0 <= k < |s| && IsAsciiLetter(s[k])
  }

  /** `s` matches the pattern with its `@` at `at` and its last dot at `dot`:
      one or more local characters, `@`, one or more host characters, `.`,
      then two or more ASCII letters up to the end. */
  predicate EmailSplit(s: string, at: int, dot: int) {
    && 0 < at && at + 1 < dot && dot + 2 < |s|
    && s[at] == '@' && s[dot] == '.'
    && AllLocal(s, 0, at) && AllHost(s, at + 1, dot) && AllLetters(s, dot + 1, |s|)
  }

  /** The language of the pattern: some split points exist. */
  ghost predicate ValidEmail(s: string) {
    exists at, dot :: EmailSplit(s, at, dot)
  }

  /** The same language, stated on the three parts of the address. */
  function Compose(local: string, host: string, tld: string): string {
    local + "@" + host + "." + tld
  }

  ghost predicate WellFormedParts(local: string, host: string, tld: string) {
    && |local| > 0 && AllLocal(local, 0, |local|)
    && |host| > 0 && AllHost(host, 0, |host|)
    && |tld| >= 2 && AllLetters(tld, 0, |tld|)
  }

  // ---------------------------------------------------------------------
  // The automaton

  /** How much of the pattern the characters read so far have matched. */
  datatype Phase =
    | Start     // nothing read
    | Local     // one or more local characters
    | AfterAt   // the `@`
    | Host      // one or more host characters
    | AfterDot  // the dot
    | Tld1      // one letter of the top-level domain
    | Tld       // two or more letters: the accepting phase
    | Reject

  function Step(q: Phase, c: char): Phase {
    match q
    case Start => if IsLocalChar(c) then Local else Reject
    case Local => if c == '@' then AfterAt else if IsLocalChar(c) then Local else Reject
    case AfterAt => if IsHostChar(c) then Host else Reject
    case Host => if c == '.' then AfterDot else if IsHostChar(c) then Host else Reject
    case AfterDot => if IsAsciiLetter(c) then Tld1 else Reject
    case Tld1 => if IsAsciiLetter(c) then Tld else Reject
    case Tld => if IsAsciiLetter(c) then Tld else Reject
    case Reject => Reject
  }

  /** The phase reached from `q` after reading `s[p..]`. */
  function Scan(q: Phase, s: string, p: nat): Phase
    requires p <= |s|
    decreases |s| - p
  {
    if p == |s| then q else Scan(Step(q, s[p]), s, p + 1)
  }

  /** `is_valid_email`: the pattern is fixed and well formed, so the
      `RegexError` outcome never occurs and the answer is exactly
      membership in the language. */
  function IsValidEmail(s: string): (r: Result<bool>)
    ensures r == Ok(ValidEmail(s))
  {
    ScanAccepts(Start, s, 0);
    StartLangIsValidEmail(s);
    Ok(Scan(Start, s, 0) == Tld)
  }

  // ---------------------------------------------------------------------
  // What remains to be read, phase by phase, with absolute positions

  /** From `p` on: at least `min` letters and nothing else. */
  ghost predicate TldFrom(s: string, p: nat, min: nat) {
    p + min <= |s| && AllLetters(s, p, |s|)
  }

  /** From `p` on: host characters up to a dot at `d`, then a valid TLD. */
  ghost predicate HostAt(s: string, p: nat, d: int) {
    p <= d < |s| && AllHost(s, p, d) && s[d] == '.' && TldFrom(s, d + 1, 2)
  }

  ghost predicate AfterAtFrom(s: string, p: nat) {
    exists d :: p < d && HostAt(s, p, d)
  }

  /** From `p` on: local characters up to an `@` at `a`, then a valid rest. */
  ghost predicate LocalAt(s: string, p: nat, a: int) {
    p <= a < |s| && AllLocal(s, p, a) && s[a] == '@' && AfterAtFrom(s, a + 1)
  }

  /** The suffixes `s[p..]` that lead phase `q` to acceptance. */
  ghost predicate Lang(q: Phase, s: string, p: nat) {
    match q
    case Start => exists a :: p < a && LocalAt(s, p, a)
    case Local => exists a :: LocalAt(s, p, a)
    case AfterAt => AfterAtFrom(s, p)
    case Host => exists d :: HostAt(s, p, d)
    case AfterDot => TldFrom(s, p, 2)
    case Tld1 => TldFrom(s, p, 1)
    case Tld => TldFrom(s, p, 0)
    case Reject => false
  }

  lemma LocalAtShift(s: string, p: nat, a: int)
    requires p < |s| && p < a
    ensures LocalAt(s, p, a) <==> IsLocalChar(s[p]) && LocalAt(s, p + 1, a)
  {
  }

  lemma HostAtShift(s: string, p: nat, d: int)
    requires p < |s| && p < d
    ensures HostAt(s, p, d) <==> IsHostChar(s[p]) && HostAt(s, p + 1, d)
  {
  }

  /** Reading one character moves the remaining language along with the phase. */
  lemma StepLang(q: Phase, s: string, p: nat)
    requires p < |s|
    ensures Lang(q, s, p) <==> Lang(Step(q, s[p]), s, p + 1)
  {
    var c, next := s[p], p + 1;
    match q {
      case Start =>
        if exists a :: p < a && LocalAt(s, p, a) {
          var a :| p < a && LocalAt(s, p, a);
          LocalAtShift(s, p, a);
        }
        if IsLocalChar(c) && exists a :: LocalAt(s, next, a) {
          var a :| LocalAt(s, next, a);
          LocalAtShift(s, p, a);
        }
      case Local =>
        if exists a :: LocalAt(s, p, a) {
          var a :| LocalAt(s, p, a);
          if a > p {
            LocalAtShift(s, p, a);
          }
        }
        if c == '@' && AfterAtFrom(s, p + 1) {
          assert LocalAt(s, p, p);
        }
        if c != '@' && IsLocalChar(c) && exists a :: LocalAt(s, next, a) {
          var a :| LocalAt(s, next, a);
          LocalAtShift(s, p, a);
        }
      case AfterAt =>
        if AfterAtFrom(s, p) {
          var d :| p < d && HostAt(s, p, d);
          HostAtShift(s, p, d);
        }
        if IsHostChar(c) && exists d :: HostAt(s, next, d) {
          var d :| HostAt(s, next, d);
          HostAtShift(s, p, d);
        }
      case Host =>
        if exists d :: HostAt(s, p, d) {
          var d :| HostAt(s, p, d);
          if d > p {
            HostAtShift(s, p, d);
          }
        }
        if c == '.' && TldFrom(s, p + 1, 2) {
          assert HostAt(s, p, p);
        }
        if c != '.' && IsHostChar(c) && exists d :: HostAt(s, next, d) {
          var d :| HostAt(s, next, d);
          HostAtShift(s, p, d);
        }
      case AfterDot =>
      case Tld1 =>
      case Tld =>
      case Reject =>
    }
  }

  /** The automaton accepts the rest of the input exactly when it lies in
      the remaining language of the current phase. */
  lemma {:induction false} ScanAccepts(q: Phase, s: string, p: nat)
    requires p <= |s|
    ensures Scan(q, s, p) == Tld <==> Lang(q, s, p)
    decreases |s| - p
  {
    if p < |s| {
      StepLang(q, s, p);
      ScanAccepts(Step(q, s[p]), s, p + 1);
    }
  }

  lemma StartLangIsValidEmail(s: string)
    ensures Lang(Start, s, 0) <==> ValidEmail(s)
  {
    if Lang(Start, s, 0) {
      var at :| 0 < at && LocalAt(s, 0, at);
      var dot :| at + 1 < dot && HostAt(s, at + 1, dot);
      assert EmailSplit(s, at, dot);
    }
    if ValidEmail(s) {
      var at, dot :| EmailSplit(s, at, dot);
      assert HostAt(s, at + 1, dot);
      assert LocalAt(s, 0, at);
    }
  }

  // ---------------------------------------------------------------------
  // Properties of the accepted language

  /** The language is exactly the addresses built from three well-formed parts. */
  lemma ValidEmailIffParts(s: string)
    ensures ValidEmail(s) <==> exists l, h, t :: s == Compose(l, h, t) && WellFormedParts(l, h, t)
  {
    if ValidEmail(s) {
      var at, dot :| EmailSplit(s, at, dot);
      SplitGivesParts(s, at, dot);
    }
    if exists l, h, t :: s == Compose(l, h, t) && WellFormedParts(l, h, t) {
      var l, h, t :| s == Compose(l, h, t) && WellFormedParts(l, h, t);
      PartsGiveSplit(l, h, t);
    }
  }

  lemma SplitGivesParts(s: string, at: int, dot: int)
    requires EmailSplit(s, at, dot)
    ensures s == Compose(s[..at], s[at + 1..dot], s[dot + 1..])
    ensures WellFormedParts(s[..at], s[at + 1..dot], s[dot + 1..])
  {
    var l, h, t := s[..at], s[at + 1..dot], s[dot + 1..];
    assert s == Compose(l, h, t);
  }

  lemma PartsGiveSplit(l: string, h: string, t: string)
    requires WellFormedParts(l, h, t)
    ensures EmailSplit(Compose(l, h, t), |l|, |l| + 1 + |h|)
  {
    var s := Compose(l, h, t);
    var at, dot := |l|, |l| + 1 + |h|;
    assert s[at] == '@' && s[dot] == '.';
    assert forall k :: 0 <= k < at ==> s[k] == l[k];
    assert forall k :: at < k < dot ==> s[k] == h[k - at - 1];
    assert forall k :: dot < k < |s| ==> s[k] == t[k - dot - 1];
  }

  /** An accepted address holds exactly one `@`: no class admits it. */
  lemma ExactlyOneAt(s: string)
    ensures ValidEmail(s) ==> multiset(s)['@'] == 1
  {
    if ValidEmail(s) {
      var at, dot :| EmailSplit(s, at, dot);
      assert s == s[..at] + [s[at]] + s[at + 1..];
      assert forall k :: 0 <= k < at ==> s[k] != '@';
      assert forall k :: at + 1 <= k < |s| ==> s[k] != '@';
      assert '@' !in s[..at];
      assert '@' !in s[at + 1..];
      assert multiset(s) == multiset(s[..at]) + multiset([s[at]]) + multiset(s[at + 1..]);
    }
  }

  /** The same fact position by position: no two positions of an accepted
      address both hold `@`. */
  lemma NoSecondAt(s: string)
    ensures ValidEmail(s) ==> forall i, j :: 0 <= i < j < |s| && s[i] == '@' ==> s[j] != '@'
  {
    if ValidEmail(s) {
      var at, dot :| EmailSplit(s, at, dot);
      assert forall k :: 0 <= k < |s| && k != at ==> s[k] != '@';
    }
  }

  /** After the `@` of an accepted address, the only dot is the one before
      the top-level domain: the host class has no dot. */
  lemma SingleDotAfterAt(s: string, at: int)
    requires 0 <= at < |s| && s[at] == '@'
    ensures ValidEmail(s) ==> multiset(s[at + 1..])['.'] == 1
  {
    if ValidEmail(s) {
      var at', dot :| EmailSplit(s, at', dot);
      assert forall k :: 0 <= k < at' ==> s[k] != '@';
      assert forall k :: at' < k < |s| ==> s[k] != '@';
      assert at' == at;
      var rest := s[at + 1..];
      var d := dot - at - 1;
      assert rest == rest[..d] + [rest[d]] + rest[d + 1..];
      assert forall k :: 0 <= k < d ==> rest[k] == s[k + at + 1];
      assert forall k :: d < k < |rest| ==> rest[k] == s[k + at + 1];
      assert '.' !in rest[..d];
      assert '.' !in rest[d + 1..];
      assert multiset(rest) == multiset(rest[..d]) + multiset([rest[d]]) + multiset(rest[d + 1..]);
    }
  }

  /** The segment after the last dot of an accepted address is two or more
      ASCII letters: a short segment, or one holding a digit or any other
      character, is rejected. The empty string is rejected too. */
  lemma FinalSegmentIsTld(prefix: string, tld: string)
    requires '.' !in tld
    ensures ValidEmail(prefix + "." + tld) ==> |tld| >= 2 && AllLetters(tld, 0, |tld|)
    ensures !ValidEmail("")
  {
    var s := prefix + "." + tld;
    var last := |prefix|;
    if ValidEmail(s) {
      var at, dot :| EmailSplit(s, at, dot);
      assert s[last] == '.';
      assert forall k :: last < k < |s| ==> s[k] == tld[k - last - 1];
      assert forall k :: 0 <= k < |tld| ==> tld[k] != '.';
      assert dot == last;
      assert forall k :: 0 <= k < |tld| ==> tld[k] == s[k + last + 1];
    }
  }

  /** The address of the source's tests is accepted. */
  lemma AcceptsJohnAtExampleCom()
    ensures IsValidEmail("john@example.com") == Ok(true)
  {
    assert EmailSplit("john@example.com", 4, 12);
  }

  /** An address with a second `@` in place of the dot is rejected. */
  lemma RejectsTwoAts()
    ensures IsValidEmail("john@example@com") == Ok(false)
  {
    var s := "john@example@com";
    NoSecondAt(s);
    assert s[4] == '@' && s[12] == '@';
  }

  /** A host with a dot of its own is rejected. */
  lemma RejectsDottedHost()
    ensures IsValidEmail("a@b.c.com") == Ok(false)
  {
    var s := "a@b.c.com";
    SingleDotAfterAt(s, 1);
    assert multiset(s[2..])['.'] == 2;
  }
}

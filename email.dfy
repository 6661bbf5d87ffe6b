/** The e-mail test `/^[^\s@]+@[^\s@]+\.[^\s@]+$/` as a hand-written
    matcher: a small automaton that reads the trimmed value once, left to
    right. It is proved to accept exactly the strings the pattern accepts,
    and exactly the strings with the characterisation below. */
module EmailPattern {
  import opened Text

  /** A character of the class `[^\s@]`. */
  predicate Plain(c: char)
  {
    !IsWs(c) && c != '@'
  }

  predicate AllPlain(t: string)
  {
    forall j :: 0 <= j < |t| ==> Plain(t[j])
  }

  /** The states of the matcher:
      Start    nothing read;
      Local    at least one local-part character read;
      AfterAt  the `@` has just been read;
      Domain   at least one domain character read, no usable `.` yet;
      Dot      a `.` with at least one domain character before it;
      Done     a `.` with characters on both sides: accepting;
      Reject   a whitespace character or a second `@` was read. */
  datatype State = Start | Local | AfterAt | Domain | Dot | Done | Reject

  function Step(q: State, c: char): State
  {
    if IsWs(c) then Reject
    else match q
      case Start => if c == '@' then Reject else Local
      case Local => if c == '@' then AfterAt else Local
      case AfterAt => if c == '@' then Reject else Domain
      case Domain => if c == '@' then Reject else if c == '.' then Dot else Domain
      case Dot => if c == '@' then Reject else Done
      case Done => if c == '@' then Reject else Done
      case Reject => Reject
  }

  function Run(q: State, t: string): State
    decreases |t|
  {
    if t == [] then q else Run(Step(q, t[0]), t[1..])
  }

  /** `emailRe.test(v)`: run the automaton from Start; it accepts exactly
      the strings of the regular expression. */
  predicate Matches(s: string): (b: bool)
    ensures b <==> RegexShape(s)
  {
    RunCorrect(Start, s);
    AcceptsIffRegex(s);
    Run(Start, s) == Done
  }

  // ---------------------------------------------------------------------
  // The two independent descriptions of the accepted strings.

  /** The regular expression read literally: a non-empty local part, `@`,
      a non-empty host, a literal `.`, a non-empty rest, all three drawn from
      `[^\s@]`. The `.` is the one at index `k`; the host and the rest may
      contain further dots. */
  ghost predicate RegexShape(s: string)
  {
    exists i, k :: 0 < i && i + 1 < k && k + 1 < |s| && RegexSplit(s, i, k)
  }

  /** `s[..i]`, `s[i + 1..k]` and `s[k + 1..]` are the three `[^\s@]+` runs. */
  ghost predicate RegexSplit(s: string, i: nat, k: nat)
    requires i < k < |s|
  {
    && s[i] == '@' && s[k] == '.'
    && AllPlain(s[..i]) && AllPlain(s[i + 1..k]) && AllPlain(s[k + 1..])
  }

  function Count(s: string, c: char): nat
  {
    if s == [] then 0 else (if s[0] == c then 1 else 0) + Count(s[1..], c)
  }

  predicate NoWs(s: string)
  {
    forall j :: 0 <= j < |s| ==> !IsWs(s[j])
  }

  /** The characterisation: no whitespace anywhere, exactly one `@`, a
      non-empty part before it, and after it a `.` that has at least one
      domain character on each side. */
  ghost predicate Characterised(s: string)
  {
    && NoWs(s)
    && Count(s, '@') == 1
    && exists i :: 0 < i < |s| && s[i] == '@' && InnerDot(s[i + 1..])
  }

  /** `d` has a `.` that is neither its first nor its last character. */
  ghost predicate InnerDot(d: string)
  {
    exists k :: 0 < k < |d| - 1 && d[k] == '.'
  }

  // ---------------------------------------------------------------------
  // What each state still accepts.

  /** A `.` at some index from `lo` on, with at least one character after it. */
  ghost predicate DotFrom(t: string, lo: nat)
  {
    exists k :: lo <= k < |t| - 1 && t[k] == '.'
  }

  /** An `@` at index `i >= lo`, plain characters before it, and a domain
      part after it that is plain and has an inner dot. */
  ghost predicate AddressFrom(t: string, lo: nat)
  {
    exists i :: lo <= i < |t| && SplitAt(t, i)
  }

  ghost predicate SplitAt(t: string, i: nat)
    requires i < |t|
  {
    t[i] == '@' && AllPlain(t[..i]) && DomainPart(t[i + 1..])
  }

  /** What may follow the `@`: plain characters with a dot that has at least
      one character on each side. */
  ghost predicate DomainPart(d: string)
  {
    AllPlain(d) && DotFrom(d, 1)
  }

  ghost predicate Accepts(q: State, t: string)
  {
    match q
    case Start => AddressFrom(t, 1)
    case Local => AddressFrom(t, 0)
    case AfterAt => DomainPart(t)
    case Domain => AllPlain(t) && DotFrom(t, 0)
    case Dot => AllPlain(t) && |t| >= 1
    case Done => AllPlain(t)
    case Reject => false
  }

  lemma PlainCons(c: char, t: string)
    ensures AllPlain([c] + t) <==> Plain(c) && AllPlain(t)
  {
    var s := [c] + t;
    assert s[0] == c && s[1..] == t;
    assert forall j :: 0 <= j < |t| ==> s[j + 1] == t[j];
  }

  lemma DotFromCons(c: char, t: string, lo: nat)
    ensures DotFrom([c] + t, lo + 1) <==> DotFrom(t, lo)
  {
    var s := [c] + t;
    if DotFrom(s, lo + 1) {
      var k :| lo + 1 <= k < |s| - 1 && s[k] == '.';
      assert t[k - 1] == '.';
    }
    if DotFrom(t, lo) {
      var k :| lo <= k < |t| - 1 && t[k] == '.';
      assert s[k + 1] == '.';
    }
  }

  /** Reading one plain local-part character shifts the split by one. */
  lemma SplitAtCons(c: char, t: string, i: nat)
    requires Plain(c) && i < |t|
    ensures SplitAt([c] + t, i + 1) <==> SplitAt(t, i)
  {
    var s := [c] + t;
    assert s[..i + 1] == [c] + t[..i];
    PlainCons(c, t[..i]);
    assert s[i + 2..] == t[i + 1..];
    assert s[i + 1] == t[i];
  }

  lemma AddressFromCons(c: char, t: string, lo: nat)
    requires Plain(c)
    ensures AddressFrom([c] + t, lo + 1) <==> AddressFrom(t, lo)
  {
    var s := [c] + t;
    if AddressFrom(s, lo + 1) {
      var i :| lo + 1 <= i < |s| && SplitAt(s, i);
      SplitAtCons(c, t, i - 1);
    }
    if AddressFrom(t, lo) {
      var i :| lo <= i < |t| && SplitAt(t, i);
      SplitAtCons(c, t, i);
    }
  }

  /** No split of `s` is at an index `i > 0` when `s[0]` is not plain. */
  lemma NoLaterSplit(s: string, i: nat)
    requires 0 < i < |s| && !Plain(s[0])
    ensures !SplitAt(s, i)
  {
    assert s[..i][0] == s[0];
  }

  /** In state Local, reading the `@` leads to AfterAt, and the `@` must be
      the one the address splits at. */
  lemma LocalAt(t: string)
    ensures AddressFrom(['@'] + t, 0) <==> Accepts(AfterAt, t)
  {
    var s := ['@'] + t;
    assert s[..0] == [] && s[1..] == t;
    assert SplitAt(s, 0) <==> Accepts(AfterAt, t);
    forall i | 0 < i < |s| ensures !SplitAt(s, i) {
      NoLaterSplit(s, i);
    }
  }

  /** An address cannot start with `@` when the local part must be non-empty,
      nor contain any whitespace before the `@`. */
  lemma AddressNotPlainHead(c: char, t: string, lo: nat)
    requires !Plain(c) && (c == '@' ==> lo >= 1)
    ensures !AddressFrom([c] + t, lo)
  {
    var s := [c] + t;
    forall i | lo <= i < |s| ensures !SplitAt(s, i) {
      if i > 0 { NoLaterSplit(s, i); }
    }
  }

  /** One step of the matcher preserves the meaning of the state. */
  lemma StepCorrect(q: State, c: char, t: string)
    ensures Accepts(Step(q, c), t) <==> Accepts(q, [c] + t)
  {
    var s := [c] + t;
    PlainCons(c, t);
    match q
    case Reject =>
    case Done =>
    case Dot =>
    case Domain =>
      DotFromCons(c, t, 0);
      if c == '.' {
        assert |t| >= 1 ==> s[0] == '.';
      } else {
        assert DotFrom(s, 0) ==> DotFrom(s, 1) by {
          if DotFrom(s, 0) {
            var k :| 0 <= k < |s| - 1 && s[k] == '.';
            assert k != 0;
          }
        }
      }
    case AfterAt =>
      DotFromCons(c, t, 0);
    case Local =>
      if !Plain(c) {
        if c == '@' {
          LocalAt(t);
        } else {
          AddressNotPlainHead(c, t, 0);
        }
      } else {
        AddressFromCons(c, t, 0);
        assert AddressFrom(s, 0) ==> AddressFrom(s, 1) by {
          if AddressFrom(s, 0) {
            var i :| 0 <= i < |s| && SplitAt(s, i);
            assert i != 0;
          }
        }
      }
    case Start =>
      if !Plain(c) {
        AddressNotPlainHead(c, t, 1);
      } else {
        AddressFromCons(c, t, 0);
      }
  }

  /** From any state, the matcher ends in Done exactly on the suffixes that
      the state's meaning admits. */
  lemma {:induction false} RunCorrect(q: State, t: string)
    ensures Run(q, t) == Done <==> Accepts(q, t)
    decreases |t|
  {
    if t == [] {
      match q
      case Start =>
      case Local =>
      case AfterAt =>
      case Domain =>
      case Dot =>
      case Done =>
      case Reject =>
    } else {
      RunCorrect(Step(q, t[0]), t[1..]);
      assert t == [t[0]] + t[1..];
      StepCorrect(q, t[0], t[1..]);
    }
  }

  /** The two ways of cutting an accepted string agree: the `@` split of the
      automaton's meaning with a dot `k` places into the domain, and the
      regular expression's three runs. */
  lemma SplitIffRegexSplit(s: string, i: nat, k: nat)
    requires 0 < i && i + 1 < k && k + 1 < |s|
    ensures (SplitAt(s, i) && s[k] == '.') <==> RegexSplit(s, i, k)
  {
    var d := s[i + 1..];
    var m := k - i - 1;
    assert d == s[i + 1..k] + [s[k]] + s[k + 1..];
    assert d[m] == s[k];
    assert s[i + 1..k] == d[..m] && s[k + 1..] == d[m + 1..];
    forall j | 0 <= j < |d| && j != m ensures Plain(d[j]) <==>
      (if j < m then Plain(s[i + 1..k][j]) else Plain(s[k + 1..][j - m - 1]))
    {
    }
    if s[k] == '.' {
      assert DotFrom(d, 1);
    }
  }

  /** What the Start state stands for is exactly the regular expression. */
  lemma AcceptsIffRegex(s: string)
    ensures Accepts(Start, s) <==> RegexShape(s)
  {
    if AddressFrom(s, 1) {
      var i :| 1 <= i < |s| && SplitAt(s, i);
      var d := s[i + 1..];
      var m :| 1 <= m < |d| - 1 && d[m] == '.';
      SplitIffRegexSplit(s, i, i + 1 + m);
    }
    if RegexShape(s) {
      var i, k :| 0 < i && i + 1 < k && k + 1 < |s| && RegexSplit(s, i, k);
      SplitIffRegexSplit(s, i, k);
    }
  }

  lemma {:induction false} CountZero(s: string, c: char)
    ensures Count(s, c) == 0 <==> forall j :: 0 <= j < |s| ==> s[j] != c
  {
    if s != [] {
      CountZero(s[1..], c);
      assert forall j :: 0 < j < |s| ==> s[j] == s[1..][j - 1];
    }
  }

  lemma {:induction false} CountAppend(a: string, b: string, c: char)
    ensures Count(a + b, c) == Count(a, c) + Count(b, c)
  {
    if a == [] {
      assert a + b == b;
    } else {
      assert (a + b)[1..] == a[1..] + b;
      CountAppend(a[1..], b, c);
    }
  }

  /** An `@` at index `i` is the only one exactly when no other index holds one. */
  lemma OnlyAt(s: string, i: nat)
    requires i < |s| && s[i] == '@'
    ensures Count(s, '@') == 1 <==> forall j :: 0 <= j < |s| && j != i ==> s[j] != '@'
  {
    assert s == s[..i] + [s[i]] + s[i + 1..];
    CountAppend(s[..i] + [s[i]], s[i + 1..], '@');
    CountAppend(s[..i], [s[i]], '@');
    CountZero(s[..i], '@');
    CountZero(s[i + 1..], '@');
    assert forall j :: 0 <= j < i ==> s[j] == s[..i][j];
    assert forall j :: i < j < |s| ==> s[j] == s[i + 1..][j - i - 1];
  }

  /** Under a single `@` at `i`, the regular expression's three runs are
      plain exactly when the string has no whitespace. */
  lemma RunsPlainIffNoWs(s: string, i: nat, k: nat)
    requires 0 < i && i + 1 < k && k + 1 < |s| && s[i] == '@' && s[k] == '.'
    ensures RegexSplit(s, i, k) <==> NoWs(s) && Count(s, '@') == 1
  {
    OnlyAt(s, i);
    if RegexSplit(s, i, k) {
      forall j | 0 <= j < |s|
        ensures !IsWs(s[j]) && (j != i ==> s[j] != '@')
      {
        if j < i {
          assert s[j] == s[..i][j];
        } else if i < j < k {
          assert s[j] == s[i + 1..k][j - i - 1];
        } else if k < j {
          assert s[j] == s[k + 1..][j - k - 1];
        }
      }
    }
    if NoWs(s) && Count(s, '@') == 1 {
      assert AllPlain(s[..i]) by {
        forall j | 0 <= j < i ensures Plain(s[..i][j]) {
          assert s[..i][j] == s[j];
        }
      }
      var host, rest := s[i + 1..k], s[k + 1..];
      assert AllPlain(host) by {
        forall j | 0 <= j < |host| ensures Plain(host[j]) {
          assert host[j] == s[j + i + 1];
        }
      }
      assert AllPlain(rest) by {
        forall j | 0 <= j < |rest| ensures Plain(rest[j]) {
          assert rest[j] == s[j + k + 1];
        }
      }
    }
  }

  /** The regular expression and the characterisation describe the same set. */
  lemma RegexIffCharacterised(s: string)
    ensures RegexShape(s) <==> Characterised(s)
  {
    if RegexShape(s) {
      var i, k :| 0 < i && i + 1 < k && k + 1 < |s| && RegexSplit(s, i, k);
      RunsPlainIffNoWs(s, i, k);
      assert s[i + 1..][k - i - 1] == '.';
    }
    if Characterised(s) {
      var i :| 0 < i < |s| && s[i] == '@' && InnerDot(s[i + 1..]);
      var d := s[i + 1..];
      var m :| 0 < m < |d| - 1 && d[m] == '.';
      RunsPlainIffNoWs(s, i, i + 1 + m);
    }
  }

  /** The matcher accepts exactly the characterised strings. */
  lemma MatchesIffCharacterised(s: string)
    ensures Matches(s) <==> Characterised(s)
  {
    RegexIffCharacterised(s);
  }
}

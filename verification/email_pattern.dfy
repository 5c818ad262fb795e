/** The e-mail format check of the contact view, the Python regular
    expression `^[a-zA-Z0-9_.+-]+@[a-zA-Z0-9-]+\.[a-zA-Z0-9-.]+$` applied with
    `re.match`. PatternMatches is the regular expression's meaning (some way
    of cutting the string into the five parts exists); FullMatch is a
    deterministic scan; FullMatchIsPattern shows they agree. */
module EmailPattern {
  import opened PyStr

  predicate IsAsciiAlnum(c: char) {
    ('a' <= c <= 'z') || ('A' <= c <= 'Z') || ('0' <= c <= '9')
  }

  /** `[a-zA-Z0-9_.+-]` */
  predicate IsLocalChar(c: char) {
    IsAsciiAlnum(c) || c == '_' || c == '.' || c == '+' || c == '-'
  }

  /** `[a-zA-Z0-9-]` */
  predicate IsLabelChar(c: char) {
    IsAsciiAlnum(c) || c == '-'
  }

  /** `[a-zA-Z0-9-.]`: after the range 0-9 the hyphen is a literal, so this
      class is letters, digits, '-' and '.'. */
  predicate IsTailChar(c: char) {
    IsAsciiAlnum(c) || c == '-' || c == '.'
  }

  /** `[a-zA-Z0-9_.+-]+` */
  predicate LocalPart(s: string) {
    s != [] && forall k :: 0 <= k < |s| ==> IsLocalChar(s[k])
  }

  /** `[a-zA-Z0-9-]+` */
  predicate Label(s: string) {
    s != [] && forall k :: 0 <= k < |s| ==> IsLabelChar(s[k])
  }

  /** `[a-zA-Z0-9-.]+` */
  predicate Tail(s: string) {
    s != [] && forall k :: 0 <= k < |s| ==> IsTailChar(s[k])
  }

  /** The pattern matches `s` with the '@' at index `at` and the escaped dot at
      index `dot`. */
  predicate SplitsAt(s: string, at: int, dot: int) {
    && 0 <= at < dot < |s|
    && s[at] == '@'
    && s[dot] == '.'
    && LocalPart(s[..at])
    && Label(s[at + 1..dot])
    && Tail(s[dot + 1..])
  }

  /** The meaning of the anchored pattern: some cut of `s` fits it. */
  ghost predicate PatternMatches(s: string) {
    exists at, dot :: SplitsAt(s, at, dot)
  }

  /** Deterministic matcher: the '@' must be the first one, and the dot the
      first one after it, because neither character may occur in the part
      before it. */
  predicate FullMatch(s: string) {
    var at := IndexOf(s, '@');
    at < |s| &&
    var domain := s[at + 1..];
    var dot := IndexOf(domain, '.');
    && dot < |domain|
    && LocalPart(s[..at])
    && Label(domain[..dot])
    && Tail(domain[dot + 1..])
  }

  /** `re.match` with a trailing `$`: besides the whole string, `$` also
      matches just before a final newline. */
  predicate Matches(s: string)
    ensures '\n' !in s ==> (Matches(s) <==> FullMatch(s))
  {
    || FullMatch(s)
    || (|s| > 0 && s[|s| - 1] == '\n' && FullMatch(s[..|s| - 1]))
  }

  /** If `c` is absent before index `i` and present at `i`, then `i` is its first index. */
  lemma IndexOfFirst(s: string, c: char, i: nat)
    requires i < |s| && s[i] == c && c !in s[..i]
    ensures IndexOf(s, c) == i
  {
    var j := IndexOf(s, c);
    forall k | 0 <= k < i ensures s[k] != c {
      assert s[k] == s[..i][k];
    }
    forall k | 0 <= k < j ensures s[k] != c {
      assert s[k] == s[..j][k];
    }
  }

  /** The scan accepts exactly the strings the pattern matches. */
  lemma FullMatchIsPattern(s: string)
    ensures FullMatch(s) <==> PatternMatches(s)
  {
    if FullMatch(s) {
      ScanFindsCut(s);
    }
    if PatternMatches(s) {
      var a, d :| SplitsAt(s, a, d);
      CutIsScanned(s, a, d);
    }
  }

  /** The cut the scan finds is a cut of the pattern. */
  lemma ScanFindsCut(s: string)
    requires FullMatch(s)
    ensures PatternMatches(s)
  {
    var at := IndexOf(s, '@');
    var domain := s[at + 1..];
    var dot := IndexOf(domain, '.');
    assert domain[..dot] == s[at + 1..at + 1 + dot];
    assert domain[dot + 1..] == s[at + 1 + dot + 1..];
    assert SplitsAt(s, at, at + 1 + dot);
  }

  /** Any cut of the pattern is the one the scan finds. */
  lemma CutIsScanned(s: string, a: int, d: int)
    requires SplitsAt(s, a, d)
    ensures FullMatch(s)
  {
    LocalPartHasNoAt(s[..a]);
    IndexOfFirst(s, '@', a);
    var domain := s[a + 1..];
    assert domain[..d - a - 1] == s[a + 1..d];
    LabelHasNoDot(s[a + 1..d]);
    IndexOfFirst(domain, '.', d - a - 1);
    assert domain[d - a..] == s[d + 1..];
  }

  lemma LocalPartHasNoAt(x: string)
    requires LocalPart(x)
    ensures '@' !in x
  {
    forall k | 0 <= k < |x| ensures x[k] != '@' {
      assert IsLocalChar(x[k]);
    }
  }

  lemma LabelHasNoDot(x: string)
    requires Label(x)
    ensures '.' !in x
  {
    forall k | 0 <= k < |x| ensures x[k] != '.' {
      assert IsLabelChar(x[k]);
    }
  }

  /** An accepted address has exactly one '@', with a non-empty local part
      before it, a dot-free label after it, then a dot and a non-empty tail. */
  lemma AcceptedShape(s: string, at: int, dot: int)
    requires SplitsAt(s, at, dot)
    ensures forall k :: 0 <= k < |s| && s[k] == '@' ==> k == at
    ensures forall k :: at < k < dot ==> s[k] != '.'
    ensures 0 < at && at + 1 < dot && dot + 1 < |s|
  {
    forall k | 0 <= k < |s| && k != at ensures s[k] != '@' {
      if k < at {
        assert IsLocalChar(s[..at][k]);
      } else if k < dot {
        assert IsLabelChar(s[at + 1..dot][k - at - 1]);
      } else if k == dot {
      } else {
        assert IsTailChar(s[dot + 1..][k - dot - 1]);
      }
    }
    forall k | at < k < dot ensures s[k] != '.' {
      assert IsLabelChar(s[at + 1..dot][k - at - 1]);
    }
  }

  /** The contact view strips the address first, so the newline allowance of
      `$` never applies: on a stripped string `Matches` is `FullMatch`. */
  lemma MatchesTrimmed(s: string)
    requires Trimmed(s)
    ensures Matches(s) <==> FullMatch(s)
  {
  }

  /** The newline allowance is real: an address followed by a newline matches. */
  lemma TrailingNewlineMatches()
    ensures Matches("a@b.c\n") && !FullMatch("a@b.c\n")
  {
    var s := "a@b.c\n";
    assert IndexOf(s, '@') == 1;
    assert IndexOf(s[2..], '.') == 1;
    assert !Tail(s[2..][2..]) by { assert !IsTailChar(s[2..][2..][1]); }
    var t := s[..|s| - 1];
    assert t == "a@b.c";
    assert IndexOf(t, '@') == 1;
    assert IndexOf(t[2..], '.') == 1;
    assert LocalPart(t[..1]) && Label(t[2..][..1]) && Tail(t[2..][2..]);
  }
}

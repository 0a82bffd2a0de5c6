/**
 * The e-mail shape test shared by ClientService and AuthService: the
 * regular expression ^[^\s@]+@[^\s@]+\.[^\s@]+$ and an equivalent check.
 */
module EmailFormat {
  import opened Strings

  /** A character of the class [^\s@]. */
  predicate Plain(c: char) {
    !IsWhitespace(c) && c != '@'
  }

  /** A match of [^\s@]+ */
  predicate PlainRun(s: string) {
    |s| > 0 && forall k :: 0 <= k < |s| ==> Plain(s[k])
  }

  /**
   * The anchored pattern matches `s`: s is local "@" domain "." tld with
   * each of the three parts a non-empty run of characters that are neither
   * whitespace nor '@' (the domain part may itself contain dots).
   */
  ghost predicate MatchesEmailPattern(s: string) {
    exists i, j ::
      0 < i < j < |s| - 1 && s[i] == '@' && s[j] == '.' &&
      PlainRun(s[..i]) && PlainRun(s[i + 1..j]) && PlainRun(s[j + 1..])
  }

  /** Position of the first `c` in `s`. */
  function IndexOf(s: string, c: char): (k: nat)
    requires c in s
    ensures k < |s| && s[k] == c && c !in s[..k]
  {
    if s[0] == c then 0 else 1 + IndexOf(s[1..], c)
  }

  /**
   * isValidEmail: no whitespace anywhere, the first '@' is not the first
   * character, no second '@', and a '.' lies strictly inside the part after
   * the '@'.
   */
  function IsValidEmail(s: string): bool {
    && (forall k :: 0 <= k < |s| ==> !IsWhitespace(s[k]))
    && '@' in s
    && var i := IndexOf(s, '@');
       var domain := s[i + 1..];
       && 0 < i
       && '@' !in domain
       && |domain| >= 3
       && '.' in domain[1..|domain| - 1]
  }

  lemma ValidEmailMatches(s: string)
    requires IsValidEmail(s)
    ensures MatchesEmailPattern(s)
  {
    var i := IndexOf(s, '@');
    var domain := s[i + 1..];
    var inner := domain[1..|domain| - 1];
    var m :| 0 <= m < |inner| && inner[m] == '.';
    var j := i + 2 + m;
    assert s[j] == '.' by { assert s[j] == domain[m + 1] == inner[m]; }
    assert PlainRun(s[..i]) by {
      forall k | 0 <= k < i ensures Plain(s[..i][k]) {
        assert s[..i][k] == s[k];
      }
    }
    assert forall k :: 0 <= k < |domain| ==> Plain(domain[k]) by {
      forall k | 0 <= k < |domain| ensures Plain(domain[k]) {
        assert domain[k] == s[i + 1 + k];
      }
    }
    var b, c := s[i + 1..j], s[j + 1..];
    assert PlainRun(b) by {
      forall k | 0 <= k < |b| ensures Plain(b[k]) {
        assert b[k] == domain[k];
      }
    }
    assert PlainRun(c) by {
      forall k | 0 <= k < |c| ensures Plain(c[k]) {
        assert c[k] == domain[k + m + 2];
      }
    }
  }

  lemma PlainRunAt(s: string, lo: int, hi: int, k: int)
    requires 0 <= lo <= k < hi <= |s| && PlainRun(s[lo..hi])
    ensures Plain(s[k])
  {
    assert s[k] == s[lo..hi][k - lo];
  }

  lemma PlainOutsideAt(s: string, i: int, j: int)
    requires 0 < i < j < |s| - 1
    requires PlainRun(s[..i]) && PlainRun(s[i + 1..j]) && PlainRun(s[j + 1..])
    requires s[j] == '.'
    ensures forall k :: 0 <= k < |s| && k != i ==> Plain(s[k])
  {
    assert s[..i] == s[0..i];
    forall k | 0 <= k < |s| && k != i ensures Plain(s[k]) {
      if k < i { PlainRunAt(s, 0, i, k); }
      else if k < j { PlainRunAt(s, i + 1, j, k); }
      else if k > j { PlainRunAt(s, j + 1, |s|, k); }
    }
  }

  /** IndexOf finds the one position before which `c` does not occur. */
  lemma IndexOfFirst(s: string, c: char, i: nat)
    requires i < |s| && s[i] == c && c !in s[..i]
    ensures IndexOf(s, c) == i
  {
  }

  lemma MatchIsValidEmail(s: string)
    requires MatchesEmailPattern(s)
    ensures IsValidEmail(s)
  {
    var i, j :| 0 < i < j < |s| - 1 && s[i] == '@' && s[j] == '.' &&
      PlainRun(s[..i]) && PlainRun(s[i + 1..j]) && PlainRun(s[j + 1..]);
    PlainOutsideAt(s, i, j);
    assert !IsWhitespace('@');
    assert forall k :: 0 <= k < |s| ==> !IsWhitespace(s[k]);
    assert '@' !in s[..i] by {
      forall k | 0 <= k < i ensures s[..i][k] != '@' {
        assert Plain(s[..i][k]);
      }
    }
    IndexOfFirst(s, '@', i);
    var domain := s[i + 1..];
    assert '@' !in domain by {
      forall k | 0 <= k < |domain| ensures domain[k] != '@' {
        assert domain[k] == s[i + 1 + k];
      }
    }
    assert domain[1..|domain| - 1][j - i - 2] == '.';
  }

  /** The check accepts exactly the strings the regular expression matches. */
  lemma IsValidEmailIffPattern(s: string)
    ensures IsValidEmail(s) <==> MatchesEmailPattern(s)
  {
    if IsValidEmail(s) { ValidEmailMatches(s); }
    if MatchesEmailPattern(s) { MatchIsValidEmail(s); }
  }
}

/**
 * The JavaScript string semantics the services rely on: truthiness of a
 * string or of an optional string, `trim()`, and substring search.
 */
module Strings {
  import opened Wrappers

  /**
   * JavaScript's WhiteSpace and LineTerminator characters: exactly what
   * `String.prototype.trim` removes and what the regular-expression class
   * `\s` matches.
   */
  predicate IsWhitespace(c: char) {
    || c == '\t' || c == '\n' || c == '\U{000B}' || c == '\U{000C}' || c == '\r'
    || c == ' ' || c == '\U{00A0}' || c == '\U{1680}'
    || ('\U{2000}' <= c <= '\U{200A}')
    || c == '\U{2028}' || c == '\U{2029}' || c == '\U{202F}' || c == '\U{205F}'
    || c == '\U{3000}' || c == '\U{FEFF}'
  }

  /** An optional string field is truthy when it is given and not "". */
  predicate Present(o: Option<string>) {
    o.Some? && o.value != ""
  }

  /** Drops leading whitespace. */
  function TrimStart(s: string): string {
    if s != [] && IsWhitespace(s[0]) then TrimStart(s[1..]) else s
  }

  /** Drops trailing whitespace. */
  function TrimEnd(s: string): string {
    if s != [] && IsWhitespace(s[|s| - 1]) then TrimEnd(s[..|s| - 1]) else s
  }

  /** The string without its leading and trailing whitespace. */
  function Trim(s: string): string {
    TrimEnd(TrimStart(s))
  }

  /** Every character is whitespace; the empty string is blank. */
  predicate IsBlank(s: string) {
    forall i :: 0 <= i < |s| ==> IsWhitespace(s[i])
  }

  lemma {:induction false} TrimEndEmptyIffBlank(s: string)
    ensures TrimEnd(s) == [] <==> IsBlank(s)
    decreases |s|
  {
    if s != [] && IsWhitespace(s[|s| - 1]) {
      var init := s[..|s| - 1];
      TrimEndEmptyIffBlank(init);
      assert IsBlank(s) <==> IsBlank(init) by {
        if IsBlank(init) {
          forall i | 0 <= i < |s| ensures IsWhitespace(s[i]) {
            if i < |s| - 1 { assert s[i] == init[i]; }
          }
        }
        if IsBlank(s) {
          forall i | 0 <= i < |init| ensures IsWhitespace(init[i]) {
            assert init[i] == s[i];
          }
        }
      }
    } else if s != [] {
      assert !IsWhitespace(s[|s| - 1]);
    }
  }

  lemma {:induction false} TrimStartKeepsBlankness(s: string)
    ensures IsBlank(TrimStart(s)) <==> IsBlank(s)
    decreases |s|
  {
    if s != [] && IsWhitespace(s[0]) {
      var tail := s[1..];
      TrimStartKeepsBlankness(tail);
      assert IsBlank(s) <==> IsBlank(tail) by {
        if IsBlank(tail) {
          forall i | 0 <= i < |s| ensures IsWhitespace(s[i]) {
            if i > 0 { assert s[i] == tail[i - 1]; }
          }
        }
        if IsBlank(s) {
          forall i | 0 <= i < |tail| ensures IsWhitespace(tail[i]) {
            assert tail[i] == s[i + 1];
          }
        }
      }
    }
  }

  /** Trimming leaves nothing exactly for the blank strings. */
  lemma TrimEmptyIffBlank(s: string)
    ensures |Trim(s)| == 0 <==> IsBlank(s)
  {
    TrimEndEmptyIffBlank(TrimStart(s));
    TrimStartKeepsBlankness(s);
  }

  /**
   * The text is given, non-empty and
   * made of whitespace only.
   */
  function TrimsToEmpty(value: Option<string>): (b: bool)
    ensures b <==> Present(value) && IsBlank(value.value)
  {
    if Present(value) then
      TrimEmptyIffBlank(value.value);
      |Trim(value.value)| == 0
    else false
  }

  /** Substring search, the meaning of a `contains` filter. */
  function Contains(s: string, sub: string): bool
    decreases |s|
  {
    sub <= s || (s != [] && Contains(s[1..], sub))
  }

  /** `sub` occurs in `s` starting at position `k`. */
  predicate OccursAt(s: string, sub: string, k: nat) {
    k + |sub| <= |s| && s[k..k + |sub|] == sub
  }

  lemma {:induction false} ContainsIffOccurs(s: string, sub: string)
    ensures Contains(s, sub) <==> exists k: nat :: OccursAt(s, sub, k)
    decreases |s|
  {
    if sub <= s {
      assert OccursAt(s, sub, 0);
    } else {
      if s != [] {
        ContainsIffOccurs(s[1..], sub);
        if Contains(s[1..], sub) {
          var k: nat :| OccursAt(s[1..], sub, k);
          assert s[k + 1..k + 1 + |sub|] == s[1..][k..k + |sub|];
          assert OccursAt(s, sub, k + 1);
        }
      }
      if k: nat :| OccursAt(s, sub, k) {
        assert k != 0 by {
          assert OccursAt(s, sub, 0) ==> s[..|sub|] == sub;
        }
        assert s[1..][k - 1..k - 1 + |sub|] == s[k..k + |sub|];
        assert OccursAt(s[1..], sub, k - 1);
      }
    }
  }
}

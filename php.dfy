/**
 * The PHP string semantics the core relies on: truthiness of a string,
 * trim() with its default character list, and strtolower() (ASCII only,
 * as in PHP 8.2 and later).
 */
module Php {
  import opened Wrappers

  /** `(bool) $s` for a string: only "" and "0" are falsy. */
  predicate Truthy(s: string)
    ensures Truthy(s) ==> |s| >= 1
    ensures |s| >= 2 ==> Truthy(s)
  {
    s != "" && s != "0"
  }

  /** `(bool) $s` for a nullable string: null is falsy as well. */
  predicate TruthyOpt(s: Option<string>)
    ensures TruthyOpt(s) ==> s.Some? && |s.value| >= 1
    ensures s.Some? && |s.value| >= 2 ==> TruthyOpt(s)
  {
    s.Some? && Truthy(s.value)
  }

  /** PHP's `$a ?? $b` on nullable values. */
  function Coalesce<T>(a: Option<T>, b: Option<T>): (r: Option<T>)
    ensures a.Some? ==> r == a
    ensures a.None? ==> r == b
    ensures r.None? <==> a.None? && b.None?
  {
    if a.Some? then a else b
  }

  /** The characters trim() strips by default: " \t\n\r\0\x0B". */
  predicate IsTrimChar(c: char) {
    c == ' ' || c == '\t' || c == '\n' || c == '\r' || c == '\0' || c == '\U{000B}'
  }

  /** Neither end of `s` is a character trim() would strip. */
  predicate IsTrimmed(s: string) {
    s == [] || (!IsTrimChar(s[0]) && !IsTrimChar(s[|s| - 1]))
  }

  /** trim(): strips trim characters from both ends. */
  function Trim(s: string): (r: string)
    ensures IsTrimmed(r)
    ensures |r| <= |s|
    ensures IsTrimmed(s) ==> r == s
    ensures r == [] <==> forall k :: 0 <= k < |s| ==> IsTrimChar(s[k])
    decreases |s|
  {
    if |s| > 0 && IsTrimChar(s[0]) then
      assert forall k :: 1 <= k < |s| ==> s[k] == s[1..][k - 1];
      Trim(s[1..])
    else if |s| > 0 && IsTrimChar(s[|s| - 1]) then
      assert forall k :: 0 <= k < |s| - 1 ==> s[k] == s[..|s| - 1][k];
      Trim(s[..|s| - 1])
    else s
  }

  /** The number of trim characters at the start of `s`. */
  function LeadingTrimCount(s: string): (n: nat)
    ensures n <= |s|
    ensures forall k :: 0 <= k < n ==> IsTrimChar(s[k])
    ensures n < |s| ==> !IsTrimChar(s[n])
  {
    if |s| > 0 && IsTrimChar(s[0]) then
      assert forall k :: 1 <= k < |s| ==> s[k] == s[1..][k - 1];
      1 + LeadingTrimCount(s[1..])
    else 0
  }

  /**
   * trim() keeps the middle of `s` that starts after its leading trim
   * characters, and every character it drops after that middle is a trim
   * character too.
   */
  lemma {:induction false} TrimIsMiddle(s: string)
    ensures LeadingTrimCount(s) + |Trim(s)| <= |s|
    ensures Trim(s) == s[LeadingTrimCount(s)..LeadingTrimCount(s) + |Trim(s)|]
    ensures forall k :: LeadingTrimCount(s) + |Trim(s)| <= k < |s| ==> IsTrimChar(s[k])
    decreases |s|
  {
    if |s| > 0 && IsTrimChar(s[0]) {
      TrimIsMiddle(s[1..]);
      MiddleStep(s, s[1..], 1, LeadingTrimCount(s[1..]), Trim(s[1..]));
    } else if |s| > 0 && IsTrimChar(s[|s| - 1]) {
      var t := s[..|s| - 1];
      TrimIsMiddle(t);
      assert |s| > 1 && t[0] == s[0];
      MiddleStep(s, t, 0, LeadingTrimCount(t), Trim(t));
    } else {
      assert s[0..|s|] == s;
    }
  }

  /**
   * One step of TrimIsMiddle: if `r` sits inside `t`, followed only by trim
   * characters, and `t` sits at offset `d` inside `s`, followed only by
   * trim characters, then `r` sits inside `s` the same way.
   */
  lemma MiddleStep(s: string, t: string, d: nat, i: nat, r: string)
    requires d + |t| <= |s| && t == s[d..d + |t|]
    requires forall k :: d + |t| <= k < |s| ==> IsTrimChar(s[k])
    requires i + |r| <= |t| && r == t[i..i + |r|]
    requires forall k :: i + |r| <= k < |t| ==> IsTrimChar(t[k])
    ensures d + i + |r| <= |s| && r == s[d + i..d + i + |r|]
    ensures forall k :: d + i + |r| <= k < |s| ==> IsTrimChar(s[k])
  {
    forall k | 0 <= k < |r| ensures s[d + i + k] == r[k] {
      assert r[k] == t[i + k];
      assert t[i + k] == s[d + i + k];
    }
    assert s[d + i..d + i + |r|] == r;
    forall k | d + i + |r| <= k < |s| ensures IsTrimChar(s[k]) {
      if k < d + |t| {
        assert s[k] == t[k - d];
      }
    }
  }

  /** strtolower() on one character: only 'A'..'Z' change. */
  function LowerChar(c: char): (d: char)
    ensures 'A' <= c <= 'Z' ==> d as int == c as int + 32
    ensures !('A' <= c <= 'Z') ==> d == c
    ensures !('A' <= d <= 'Z')
  {
    if 'A' <= c <= 'Z' then (c as int + 32) as char else c
  }

  /** strtolower(). */
  function ToLower(s: string): (r: string)
    ensures |r| == |s|
    ensures forall k :: 0 <= k < |s| ==> r[k] == LowerChar(s[k])
  {
    if s == [] then [] else [LowerChar(s[0])] + ToLower(s[1..])
  }

  /** A string with no upper-case ASCII letter is its own lower-case form. */
  lemma ToLowerFixed(s: string)
    requires forall k :: 0 <= k < |s| ==> !('A' <= s[k] <= 'Z')
    ensures ToLower(s) == s
  {
  }

  /** strtolower() is idempotent. */
  lemma ToLowerIdempotent(s: string)
    ensures ToLower(ToLower(s)) == ToLower(s)
  {
    ToLowerFixed(ToLower(s));
  }

  /** strtolower() never creates or removes a character that trim() strips. */
  lemma ToLowerKeepsTrimmed(s: string)
    requires IsTrimmed(s)
    ensures IsTrimmed(ToLower(s))
  {
  }
}

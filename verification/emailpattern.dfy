/** The e-mail check of the sign-up form: `/\S+@\S+\.\S+/.test(email)`.
    The expression is unanchored, so it accepts any string that CONTAINS a
    matching slice. */
module EmailPattern {
  import opened JsText

  /** The regular expression matches the slice `s[i..j]`, read as
      x `@` y `.` z with x = `s[i..p]`, y = `s[p+1..d]`, z = `s[d+1..j]`
      all non-empty and the whole slice free of white space. */
  ghost predicate MatchesAt(s: string, i: int, p: int, d: int, j: int)
  {
    && 0 <= i < p && p + 1 < d && d + 1 < j <= |s|
    && s[p] == '@' && s[d] == '.'
    && forall k :: i <= k < j ==> !IsJsSpace(s[k])
  }

  /** What `RegExp.prototype.test` answers for `\S+@\S+\.\S+`. */
  ghost predicate RegexMatches(s: string)
  {
    exists i, p, d, j :: MatchesAt(s, i, p, d, j)
  }

  /** The shortest matching slice around an `@` at `p` and a `.` at `d`. */
  predicate AtDot(s: string, p: int, d: int)
  {
    && 1 <= p && p + 1 < d && d + 1 < |s|
    && s[p] == '@' && s[d] == '.'
    && !IsJsSpace(s[p - 1]) && !IsJsSpace(s[d + 1])
    && forall k :: p < k < d ==> !IsJsSpace(s[k])
  }

  lemma RegexIffAtDot(s: string)
    ensures RegexMatches(s) <==> exists p, d :: AtDot(s, p, d)
  {
    if RegexMatches(s) {
      var i, p, d, j :| MatchesAt(s, i, p, d, j);
      assert AtDot(s, p, d);
    }
    if exists p, d :: AtDot(s, p, d) {
      var p, d :| AtDot(s, p, d);
      assert MatchesAt(s, p - 1, p, d, d + 2);
    }
  }

  /** What the scan knows after reading `s[..k]`: `s[runStart..k]` is the
      white-space-free run that ends at `k`, and `at` is the first `@` of
      that run with a character of the run before it (-1 when none). */
  predicate ScanState(s: string, k: int, runStart: int, at: int)
  {
    && 0 <= runStart <= k <= |s|
    && (forall m :: runStart <= m < k ==> !IsJsSpace(s[m]))
    && (runStart == 0 || IsJsSpace(s[runStart - 1]))
    && (at == -1 ==> forall m :: runStart < m < k ==> s[m] != '@')
    && (at != -1 ==> runStart < at < k && s[at] == '@' &&
                     forall m :: runStart < m < at ==> s[m] != '@')
  }

  /** A match whose `.` sits at `d >= k` may as well use the run's first `@`. */
  lemma UseFirstAt(s: string, k: int, runStart: int, at: int, p: int, d: int)
    requires ScanState(s, k, runStart, at)
    requires AtDot(s, p, d) && p < k <= d
    ensures at != -1 && at <= p && AtDot(s, at, d)
  {
  }

  /** One left-to-right pass over `s` from index `k`; true exactly when a
      match has its `.` at or after `k`. */
  function ScanFrom(s: string, k: int, runStart: int, at: int): (b: bool)
    requires ScanState(s, k, runStart, at)
    ensures b <==> exists p, d :: k <= d && AtDot(s, p, d)
    decreases |s| - k
  {
    if k == |s| then false
    else if IsJsSpace(s[k]) then
      var b := ScanFrom(s, k + 1, k + 1, -1);
      assert forall p, d :: k == d ==> !AtDot(s, p, d);
      b
    else if s[k] == '.' && at != -1 && at + 2 <= k && k + 1 < |s| && !IsJsSpace(s[k + 1]) then
      assert AtDot(s, at, k);
      true
    else
      var at' := if at == -1 && s[k] == '@' && k > runStart then k else at;
      var b := ScanFrom(s, k + 1, runStart, at');
      assert forall p :: !AtDot(s, p, k) by {
        forall p | AtDot(s, p, k) ensures false {
          UseFirstAt(s, k, runStart, at, p, k);
        }
      }
      b
  }

  /** The compiled check; answers exactly what the regular expression answers. */
  function LooksLikeEmail(s: string): (b: bool)
    ensures b <==> RegexMatches(s)
  {
    RegexIffAtDot(s);
    ScanFrom(s, 0, 0, -1)
  }
}

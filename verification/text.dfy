/** String operations whose library semantics the source relies on:
    `indexOf` (identical in Java and JavaScript), JavaScript's
    `String.prototype.replace` with a string pattern and an empty
    replacement, and Java's `String.split` with a one-character separator. */
module Text {

  function Max0(x: int): nat
  {
    if x < 0 then 0 else x
  }

  /** `pat` occurs in `s` starting at index `k`. */
  predicate OccursAt(s: string, pat: string, k: int)
  {
    0 <= k && k + |pat| <= |s| && s[k..k + |pat|] == pat
  }

  /** `indexOf(pat, from)`: the first index at or after `from` where `pat`
      occurs, or -1. A negative `from` counts as 0; a `from` at or beyond the
      end finds only the empty pattern, at the end. */
  function IndexOf(s: string, pat: string, from: int): (r: int)
    ensures -1 <= r <= |s|
    ensures r != -1 ==> OccursAt(s, pat, r)
    ensures r != -1 && from <= |s| ==> Max0(from) <= r
    ensures from <= |s| ==>
      forall k :: Max0(from) <= k < (if r == -1 then |s| + 1 else r) ==> !OccursAt(s, pat, k)
    decreases |s| - from
  {
    if from >= |s| then (if |pat| == 0 then |s| else -1)
    else if from < 0 then IndexOf(s, pat, 0)
    else if OccursAt(s, pat, from) then from
    else IndexOf(s, pat, from + 1)
  }

  /** An occurrence with none before it (from `from` on) is what `indexOf` finds. */
  lemma IndexOfFirst(s: string, pat: string, from: nat, k: int)
    requires from <= k && OccursAt(s, pat, k)
    requires forall m :: from <= m < k ==> !OccursAt(s, pat, m)
    ensures IndexOf(s, pat, from) == k
  {
  }

  /** No occurrence from `from` on: `indexOf` answers -1. */
  lemma IndexOfAbsent(s: string, pat: string, from: nat)
    requires from <= |s|
    requires forall m :: from <= m <= |s| ==> !OccursAt(s, pat, m)
    ensures IndexOf(s, pat, from) == -1
  {
  }

  /** `k` is the first index at which `pat` occurs in `s`. */
  predicate FirstAt(s: string, pat: string, k: int)
  {
    OccursAt(s, pat, k) && forall m :: 0 <= m < k ==> !OccursAt(s, pat, m)
  }

  /** `k` is the first index at or after `from` that holds `c`. */
  predicate FirstCharFrom(s: string, c: char, from: int, k: int)
  {
    0 <= from <= k < |s| && s[k] == c && c !in s[from..k]
  }

  /** `indexOf(pat)` lands on the first occurrence and on nothing else. */
  lemma IndexOfFirstAt(s: string, pat: string)
    ensures IndexOf(s, pat, 0) != -1 ==> FirstAt(s, pat, IndexOf(s, pat, 0))
    ensures forall k :: FirstAt(s, pat, k) ==> IndexOf(s, pat, 0) == k
  {
  }

  /** `indexOf(c, from)` finds the first `c` from `from` on, and answers
      -1 exactly when there is none. */
  lemma IndexOfChar(s: string, c: char, from: int)
    requires 0 <= from <= |s|
    ensures IndexOf(s, [c], from) == -1 <==> c !in s[from..]
    ensures IndexOf(s, [c], from) != -1 ==> FirstCharFrom(s, c, from, IndexOf(s, [c], from))
    ensures forall k :: FirstCharFrom(s, c, from, k) ==> IndexOf(s, [c], from) == k
  {
    var r := IndexOf(s, [c], from);
    if r == -1 {
      NoCharBetween(s, c, from, |s|);
    } else {
      OccursChar(s, c, r);
      NoCharBetween(s, c, from, r);
      assert s[from..][r - from] == c;
      assert FirstCharFrom(s, c, from, r);
      forall k | FirstCharFrom(s, c, from, k)
        ensures r == k
      {
        FirstCharUnique(s, c, from, r, k);
      }
    }
  }

  /** There is only one first `c`. */
  lemma FirstCharUnique(s: string, c: char, from: int, j: int, k: int)
    requires FirstCharFrom(s, c, from, j) && FirstCharFrom(s, c, from, k)
    ensures j == k
  {
  }

  /** `indexOf` passing over every index in `[from, to)` means no `c` there. */
  lemma NoCharBetween(s: string, c: char, from: int, to: int)
    requires 0 <= from <= to <= |s|
    requires forall m :: from <= m < to ==> !OccursAt(s, [c], m)
    ensures c !in s[from..to]
  {
    forall i | 0 <= i < to - from
      ensures s[from..to][i] != c
    {
      OccursChar(s, c, from + i);
    }
  }

  /** One differing character rules out an occurrence. */
  lemma MismatchAt(s: string, pat: string, k: int, j: int)
    requires 0 <= j < |pat| && 0 <= k && k + j < |s| && s[k + j] != pat[j]
    ensures !OccursAt(s, pat, k)
  {
    if k + |pat| <= |s| {
      assert s[k..k + |pat|][j] != pat[j];
    }
  }

  /** A one-character pattern occurs exactly where that character is. */
  lemma OccursChar(s: string, c: char, k: int)
    requires 0 <= k < |s|
    ensures OccursAt(s, [c], k) <==> s[k] == c
  {
    assert s[k..k + 1] == [s[k]];
  }

  /** JavaScript `s.replace(pat, "")` with a STRING pattern: only the first
      occurrence, wherever it is, is cut out; no occurrence leaves `s` as is.
      An empty replacement holds none of the `$` patterns JavaScript would
      expand, so the cut is exact. */
  function RemoveFirst(s: string, pat: string): (r: string)
    ensures (forall k :: 0 <= k <= |s| ==> !OccursAt(s, pat, k)) ==> r == s
    ensures OccursAt(s, pat, 0) ==> r == s[|pat|..]
    ensures forall k :: 0 <= k <= |s| && OccursAt(s, pat, k) &&
                        (forall m :: 0 <= m < k ==> !OccursAt(s, pat, m)) ==>
                        r == s[..k] + s[k + |pat|..]
  {
    var i := IndexOf(s, pat, 0);
    if i == -1 then s else s[..i] + s[i + |pat|..]
  }

  /** Index of the last `c` in `s`, or -1. */
  function LastIndexOfChar(s: string, c: char): (r: int)
    ensures -1 <= r < |s|
    ensures r == -1 <==> c !in s
    ensures r != -1 ==> s[r] == c && c !in s[r + 1..]
  {
    if |s| == 0 then -1
    else if s[|s| - 1] == c then |s| - 1
    else LastIndexOfChar(s[..|s| - 1], c)
  }

  /** Every piece of `s` between separators, including empty ones. */
  function SplitAll(s: string, sep: char): (parts: seq<string>)
    ensures |parts| >= 1
    ensures forall i :: 0 <= i < |parts| ==> sep !in parts[i]
    ensures JoinWith(parts, sep) == s
    decreases |s|
  {
    var i := LastIndexOfChar(s, sep);
    if i == -1 then [s] else SplitAll(s[..i], sep) + [s[i + 1..]]
  }

  /** Glues pieces back together with one separator between neighbours. */
  function JoinWith(parts: seq<string>, sep: char): string
  {
    if |parts| == 0 then ""
    else if |parts| == 1 then parts[0]
    else JoinWith(parts[..|parts| - 1], sep) + [sep] + parts[|parts| - 1]
  }

  function DropTrailingEmpty(parts: seq<string>): (r: seq<string>)
    ensures |r| <= |parts| && r == parts[..|r|]
    ensures |r| == 0 || r[|r| - 1] != ""
    ensures forall i :: |r| <= i < |parts| ==> parts[i] == ""
  {
    if |parts| > 0 && parts[|parts| - 1] == "" then DropTrailingEmpty(parts[..|parts| - 1])
    else parts
  }

  /** Java `s.split(regexFor(sep))` with limit 0: with no separator the
      answer is `[s]` (even for the empty string); otherwise the pieces with
      trailing empty pieces removed, so `"a.b."` splits into two parts. */
  function JavaSplit(s: string, sep: char): (parts: seq<string>)
    ensures sep !in s ==> parts == [s]
    ensures sep in s ==> parts == DropTrailingEmpty(SplitAll(s, sep))
  {
    if sep !in s then [s] else DropTrailingEmpty(SplitAll(s, sep))
  }

  /** Appending a separator and a separator-free piece adds exactly that piece. */
  lemma SplitAllSnoc(prefix: string, sep: char, last: string)
    requires sep !in last
    ensures SplitAll(prefix + [sep] + last, sep) == SplitAll(prefix, sep) + [last]
  {
    var s := prefix + [sep] + last;
    var i := LastIndexOfChar(s, sep);
    assert s[|prefix|] == sep;
    assert s[|prefix| + 1..] == last;
    assert s[..i] == prefix;
  }

  /** `"a.b.c"` with separator-free pieces, the last non-empty, splits into `[a, b, c]`. */
  lemma JavaSplitThree(a: string, b: string, c: string, sep: char)
    requires sep !in a && sep !in b && sep !in c && c != ""
    ensures JavaSplit(a + [sep] + b + [sep] + c, sep) == [a, b, c]
  {
    var ab := a + [sep] + b;
    SplitAllSnoc(a, sep, b);
    assert SplitAll(a, sep) == [a];
    SplitAllSnoc(ab, sep, c);
    assert (ab + [sep] + c)[|ab|] == sep;
  }
}

/** The JavaScript string operations the cleaning expressions chain together:
    `trim`, `toLowerCase`, `replace(/\s+/g, sep)`, `replaceAll(c, text)`,
    `replace(/\W/g, "")`, `replace(text, "")` and `endsWith`. */
module Strings {

  /** JavaScript's `\s` class, which is also the set `trim` removes: the
      WhiteSpace and LineTerminator code points of ECMAScript. */
  predicate IsSpace(c: char) {
    var n := c as int;
    || 9 <= n <= 13
    || n == 32
    || n == 0xA0
    || n == 0x1680
    || 0x2000 <= n <= 0x200A
    || n == 0x2028
    || n == 0x2029
    || n == 0x202F
    || n == 0x205F
    || n == 0x3000
    || n == 0xFEFF
  }

  predicate NoSpace(s: string) {
    forall i :: 0 <= i < |s| ==> !IsSpace(s[i])
  }

  predicate AllSpace(s: string) {
    forall i :: 0 <= i < |s| ==> IsSpace(s[i])
  }

  /** Neither the first nor the last character is white space. */
  predicate NoEdgeSpace(s: string) {
    s == [] || (!IsSpace(s[0]) && !IsSpace(s[|s| - 1]))
  }

  // ---------------------------------------------------------------- trim

  /** Length of the white-space run that starts `s`. */
  function LeadingSpaces(s: string): (n: nat)
    ensures n <= |s|
    ensures forall i :: 0 <= i < n ==> IsSpace(s[i])
    ensures n < |s| ==> !IsSpace(s[n])
  {
    if s != [] && IsSpace(s[0]) then 1 + LeadingSpaces(s[1..]) else 0
  }

  /** Length of the white-space run that ends `s`. */
  function TrailingSpaces(s: string): (n: nat)
    ensures n <= |s|
    ensures forall i :: |s| - n <= i < |s| ==> IsSpace(s[i])
    ensures n < |s| ==> !IsSpace(s[|s| - 1 - n])
  {
    if s != [] && IsSpace(s[|s| - 1]) then 1 + TrailingSpaces(s[..|s| - 1]) else 0
  }

  /** `s` without its leading white space (`trimStart`). */
  function DropSpaces(s: string): (r: string)
    ensures r == s[LeadingSpaces(s)..]
    ensures r == [] || !IsSpace(r[0])
  {
    s[LeadingSpaces(s)..]
  }

  /** `s.trim()`: the part of `s` between its leading and its trailing
      white-space runs. */
  function Trim(s: string): (r: string)
    ensures LeadingSpaces(s) + |r| <= |s|
    ensures r == s[LeadingSpaces(s)..LeadingSpaces(s) + |r|]
    ensures forall i :: LeadingSpaces(s) + |r| <= i < |s| ==> IsSpace(s[i])
    ensures NoEdgeSpace(r)
    ensures r == [] <==> AllSpace(s)
  {
    var t := DropSpaces(s);
    var r := t[..|t| - TrailingSpaces(t)];
    assert r == [] ==> t == [] by {
      if t != [] {
        assert !IsSpace(t[0]);
      }
    }
    r
  }

  /** A string whose edges are not white space is its own trim. */
  lemma {:induction false} TrimKeeps(s: string)
    requires NoEdgeSpace(s)
    ensures Trim(s) == s
  {
    assert LeadingSpaces(s) == 0;
    assert TrailingSpaces(s) == 0;
  }

  /** White space around a text with white-free edges is all that `trim`
      removes. */
  lemma TrimSurrounded(w1: string, x: string, w2: string)
    requires AllSpace(w1) && AllSpace(w2)
    requires x != [] && NoEdgeSpace(x)
    ensures Trim(w1 + x + w2) == x
  {
    var s := w1 + x + w2;
    assert s[|w1|] == x[0];
    assert s[|w1| + |x| - 1] == x[|x| - 1];
    assert forall i :: 0 <= i < |w1| ==> s[i] == w1[i];
    assert forall i :: |w1| + |x| <= i < |s| ==> s[i] == w2[i - |w1| - |x|];
    assert LeadingSpaces(s) == |w1|;
    var r := Trim(s);
    assert |r| == |x|;
    assert r == s[|w1|..|w1| + |x|];
  }

  // ------------------------------------------------------- toLowerCase

  /** The upper-case letters of Basic Latin and Latin-1. */
  predicate IsUpper(c: char) {
    var n := c as int;
    ('A' <= c <= 'Z') || (0xC0 <= n <= 0xDE && n != 0xD7)
  }

  /** `toLowerCase` on one character of Basic Latin or Latin-1. */
  function LowerChar(c: char): (d: char)
    ensures !IsUpper(d)
    ensures IsSpace(d) <==> IsSpace(c)
    ensures !IsUpper(c) ==> d == c
  {
    if IsUpper(c) then (c as int + 32) as char else c
  }

  /** `s.toLowerCase()`. */
  function Lower(s: string): (r: string)
    ensures |r| == |s|
    ensures forall i :: 0 <= i < |r| ==> !IsUpper(r[i])
    ensures forall i :: 0 <= i < |r| ==> (IsSpace(r[i]) <==> IsSpace(s[i]))
  {
    seq(|s|, i requires 0 <= i < |s| => LowerChar(s[i]))
  }

  /** Text without upper-case letters is its own lower case. */
  lemma LowerKeeps(s: string)
    requires forall i :: 0 <= i < |s| ==> !IsUpper(s[i])
    ensures Lower(s) == s
  {
  }

  /** Lower-casing works character by character, so it commutes with
      concatenation. */
  lemma {:induction false} LowerAppend(a: string, b: string)
    ensures Lower(a + b) == Lower(a) + Lower(b)
  {
    assert forall i :: 0 <= i < |a| ==> (a + b)[i] == a[i];
    assert forall i :: |a| <= i < |a + b| ==> (a + b)[i] == b[i - |a|];
  }

  // ---------------------------------------------------- replace(/\s+/g, sep)

  /** The only white-space character `s` contains, if any, is `sep`. */
  predicate OnlySpaceIs(s: string, sep: char) {
    forall i :: 0 <= i < |s| && IsSpace(s[i]) ==> s[i] == sep
  }

  /** No two white-space characters of `s` stand next to each other. */
  predicate NoAdjacentSpaces(s: string) {
    forall i :: 1 <= i < |s| && IsSpace(s[i - 1]) ==> !IsSpace(s[i])
  }

  /** `s.replace(/\s+/g, [sep])`: every maximal run of white space becomes
      the single character `sep`. Read left to right, a white-space character
      that ends its run (the next character is not white space, or there is
      none) emits `sep` and one that does not emits nothing; any other
      character is copied. */
  function ReplaceRuns(s: string, sep: char): string {
    if s == [] then []
    else if IsSpace(s[0]) && |s| > 1 && IsSpace(s[1]) then ReplaceRuns(s[1..], sep)
    else [if IsSpace(s[0]) then sep else s[0]] + ReplaceRuns(s[1..], sep)
  }

  /** What `ReplaceRuns` leaves behind: `sep` is the only white space left,
      never twice in a row, every other character comes from `s`, and the
      first and last characters are kept unless they were white space, in
      which case they became `sep`. */
  lemma {:induction false} ReplaceRunsShape(s: string, sep: char)
    ensures var r := ReplaceRuns(s, sep);
      && OnlySpaceIs(r, sep)
      && NoAdjacentSpaces(r)
      && (forall i :: 0 <= i < |r| ==> r[i] == sep || r[i] in s)
      && (r == [] <==> s == [])
      && (s != [] ==> r[0] == (if IsSpace(s[0]) then sep else s[0]))
      && (s != [] ==> r[|r| - 1] == (if IsSpace(s[|s| - 1]) then sep else s[|s| - 1]))
  {
    if s != [] {
      var t := s[1..];
      ReplaceRunsShape(t, sep);
      var r := ReplaceRuns(s, sep);
      var rt := ReplaceRuns(t, sep);
      if !(IsSpace(s[0]) && |s| > 1 && IsSpace(s[1])) {
        var h := if IsSpace(s[0]) then sep else s[0];
        assert r == [h] + rt;
        assert forall i :: 1 <= i < |r| ==> r[i] == rt[i - 1];
        assert forall c :: c in t ==> c in s;
        if t != [] && IsSpace(h) {
          assert !IsSpace(t[0]);
        }
      }
    }
  }

  /** Text without white space goes through `ReplaceRuns` unchanged. */
  lemma {:induction false} ReplaceRunsKeeps(s: string, sep: char)
    requires NoSpace(s)
    ensures ReplaceRuns(s, sep) == s
  {
    if s != [] {
      ReplaceRunsKeeps(s[1..], sep);
    }
  }

  /** A white-space run followed by text that does not start with white space
      becomes one `sep`. */
  lemma {:induction false} RunBecomesSep(w: string, b: string, sep: char)
    requires w != [] && AllSpace(w)
    requires b == [] || !IsSpace(b[0])
    ensures ReplaceRuns(w + b, sep) == [sep] + ReplaceRuns(b, sep)
  {
    var x := w + b;
    assert x[0] == w[0];
    assert x[1..] == w[1..] + b;
    if |w| > 1 {
      assert x[1] == w[1];
      RunBecomesSep(w[1..], b, sep);
    } else {
      assert w[1..] + b == b;
    }
  }

  /** A white-space run between two pieces of text becomes exactly one `sep`,
      and the pieces on either side are rewritten independently. */
  lemma {:induction false} ReplaceRunsSplit(a: string, w: string, b: string, sep: char)
    requires w != [] && AllSpace(w)
    requires a == [] || !IsSpace(a[|a| - 1])
    requires b == [] || !IsSpace(b[0])
    ensures ReplaceRuns(a + w + b, sep) == ReplaceRuns(a, sep) + [sep] + ReplaceRuns(b, sep)
  {
    if a == [] {
      assert a + w + b == w + b;
      RunBecomesSep(w, b, sep);
    } else {
      var x := a + w + b;
      var t := a[1..];
      assert x[0] == a[0];
      assert x[1..] == t + w + b;
      ReplaceRunsSplit(t, w, b, sep);
      if |a| > 1 {
        assert x[1] == a[1];
      }
      var p := ReplaceRuns(t, sep);
      var q := ReplaceRuns(b, sep);
      if IsSpace(a[0]) && |a| > 1 && IsSpace(a[1]) {
        assert ReplaceRuns(a, sep) == p;
      } else {
        var h := if IsSpace(a[0]) then sep else a[0];
        assert ReplaceRuns(x, sep) == [h] + (p + [sep] + q);
        assert ReplaceRuns(a, sep) == [h] + p;
      }
    }
  }

  // ------------------------------------------------------ replaceAll(c, rep)

  /** `s.replaceAll(c, rep)` for a one-character pattern. */
  function ReplaceAll(s: string, c: char, rep: string): (r: string)
    ensures c !in rep ==> c !in r
    ensures c !in s ==> r == s
    ensures |s| == 1 ==> r == (if s[0] == c then rep else s)
  {
    if s == [] then []
    else (if s[0] == c then rep else [s[0]]) + ReplaceAll(s[1..], c, rep)
  }

  /** Replacing every occurrence commutes with concatenation. */
  lemma {:induction false} ReplaceAllAppend(a: string, b: string, c: char, rep: string)
    ensures ReplaceAll(a + b, c, rep) == ReplaceAll(a, c, rep) + ReplaceAll(b, c, rep)
  {
    if a == [] {
      assert a + b == b;
    } else {
      assert (a + b)[1..] == a[1..] + b;
      assert (a + b)[0] == a[0];
      ReplaceAllAppend(a[1..], b, c, rep);
      var head := if a[0] == c then rep else [a[0]];
      assert ReplaceAll(a + b, c, rep) == head + (ReplaceAll(a[1..], c, rep) + ReplaceAll(b, c, rep));
    }
  }

  // ------------------------------------------------------- replace(/\W/g, "")

  /** JavaScript's `\w`: ASCII letters, digits and '_'. */
  predicate IsWordChar(c: char) {
    ('a' <= c <= 'z') || ('A' <= c <= 'Z') || ('0' <= c <= '9') || c == '_'
  }

  /** `s.replace(/\W/g, "")`: keeps exactly the word characters, in order. */
  function KeepWordChars(s: string): (r: string)
    ensures |r| <= |s|
    ensures forall i :: 0 <= i < |r| ==> IsWordChar(r[i])
    ensures (forall i :: 0 <= i < |s| ==> IsWordChar(s[i])) ==> r == s
    ensures |s| == 1 ==> r == (if IsWordChar(s[0]) then s else [])
  {
    if s == [] then []
    else (if IsWordChar(s[0]) then [s[0]] else []) + KeepWordChars(s[1..])
  }

  /** Every word character is kept as often as it occurs; every other
      character is removed, not replaced. */
  lemma {:induction false} KeepWordCharsCounts(s: string)
    ensures forall x :: multiset(KeepWordChars(s))[x] == (if IsWordChar(x) then multiset(s)[x] else 0)
  {
    if s != [] {
      assert s == [s[0]] + s[1..];
      KeepWordCharsCounts(s[1..]);
    }
  }

  // ------------------------------------------------------ replace(pat, rep)

  /** `pat` occurs in `s` at position `k`. */
  predicate OccursAt(s: string, pat: string, k: int) {
    0 <= k && k + |pat| <= |s| && s[k..k + |pat|] == pat
  }

  function IndexFrom(s: string, pat: string, k: nat): (i: int)
    requires k <= |s|
    ensures i == -1 || (k <= i && OccursAt(s, pat, i))
    ensures forall j :: k <= j < (if i == -1 then |s| + 1 else i) ==> !OccursAt(s, pat, j)
    decreases |s| - k
  {
    if OccursAt(s, pat, k) then k
    else if k == |s| then -1
    else IndexFrom(s, pat, k + 1)
  }

  /** `s.indexOf(pat)`: the first position where `pat` occurs, or -1. */
  function IndexOf(s: string, pat: string): (i: int)
    ensures i == -1 || OccursAt(s, pat, i)
    ensures forall j :: 0 <= j < (if i == -1 then |s| + 1 else i) ==> !OccursAt(s, pat, j)
  {
    IndexFrom(s, pat, 0)
  }

  /** `s.replace(pat, rep)` with a string pattern: only the first occurrence
      is replaced. */
  function ReplaceFirst(s: string, pat: string, rep: string): (r: string)
    ensures IndexOf(s, pat) == -1 ==> r == s
    ensures IndexOf(s, pat) >= 0 ==> exists k ::
      && OccursAt(s, pat, k)
      && (forall j :: 0 <= j < k ==> !OccursAt(s, pat, j))
      && r == s[..k] + rep + s[k + |pat|..]
  {
    var k := IndexOf(s, pat);
    if k < 0 then s else s[..k] + rep + s[k + |pat|..]
  }

  /** When the pattern's second character occurs nowhere in `t` and differs
      from its first, the first occurrence of the pattern in `t + pat` is the
      appended one. */
  lemma ReplaceFirstAtEnd(t: string, pat: string, rep: string)
    requires |pat| >= 2 && pat[0] != pat[1]
    requires forall i :: 0 <= i < |t| ==> t[i] != pat[1]
    ensures ReplaceFirst(t + pat, pat, rep) == t + rep
  {
    var s := t + pat;
    forall j | 0 <= j < |t|
      ensures !OccursAt(s, pat, j)
    {
      if j + 1 < |t| {
        assert s[j + 1] == t[j + 1];
      } else {
        assert s[j + 1] == pat[0];
      }
      if j + |pat| <= |s| {
        assert s[j..j + |pat|][1] == s[j + 1];
      }
    }
    assert OccursAt(s, pat, |t|);
    assert IndexOf(s, pat) == |t|;
    assert s[..|t|] == t;
    assert s[|t| + |pat|..] == [];
  }

  /** Keeping the word characters commutes with concatenation. */
  lemma {:induction false} KeepWordCharsAppend(a: string, b: string)
    ensures KeepWordChars(a + b) == KeepWordChars(a) + KeepWordChars(b)
  {
    if a == [] {
      assert a + b == b;
    } else {
      assert (a + b)[1..] == a[1..] + b;
      assert (a + b)[0] == a[0];
      KeepWordCharsAppend(a[1..], b);
      var h := if IsWordChar(a[0]) then [a[0]] else [];
      assert KeepWordChars(a + b) == h + (KeepWordChars(a[1..]) + KeepWordChars(b));
    }
  }

  /** `s.endsWith(suffix)`. */
  predicate EndsWith(s: string, suffix: string) {
    |suffix| <= |s| && s[|s| - |suffix|..] == suffix
  }
}

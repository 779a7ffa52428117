/** The comparator `sortByRecentDate` (src/index.cjs, lines 93-96) and the
    sort it drives: output rows ordered by `post_date`, most recent first,
    comparing dates as text. */
module Sorting {
  import opened JsValue
  import opened Assemble

  // --------------------------------------------------------- text order

  /** Code-point lexicographic order: `a` sorts no later than `b`. */
  predicate LexLeq(a: string, b: string) {
    a == [] || (b != [] && (a[0] < b[0] || (a[0] == b[0] && LexLeq(a[1..], b[1..]))))
  }

  lemma {:induction false} LexReflexive(a: string)
    ensures LexLeq(a, a)
  {
    if a != [] {
      LexReflexive(a[1..]);
    }
  }

  lemma {:induction false} LexTotal(a: string, b: string)
    ensures LexLeq(a, b) || LexLeq(b, a)
  {
    if a != [] && b != [] && a[0] == b[0] {
      LexTotal(a[1..], b[1..]);
    }
  }

  lemma {:induction false} LexAntisymmetric(a: string, b: string)
    requires LexLeq(a, b) && LexLeq(b, a)
    ensures a == b
  {
    if a != [] && b != [] {
      LexAntisymmetric(a[1..], b[1..]);
      assert a == [a[0]] + a[1..] && b == [b[0]] + b[1..];
    }
  }

  lemma {:induction false} LexTransitive(a: string, b: string, c: string)
    requires LexLeq(a, b) && LexLeq(b, c)
    ensures LexLeq(a, c)
  {
    if a != [] && b != [] && c != [] && a[0] == b[0] && b[0] == c[0] {
      LexTransitive(a[1..], b[1..], c[1..]);
    }
  }

  /** `x.localeCompare(y)` taken as code-point order: negative when `x` sorts
      first, zero when equal, positive otherwise. */
  function CompareText(x: string, y: string): (c: int)
    ensures c == 0 <==> x == y
    ensures c < 0 <==> x != y && LexLeq(x, y)
    ensures -1 <= c <= 1
  {
    if x == y then 0 else if LexLeq(x, y) then -1 else 1
  }

  /** Swapping the operands flips the sign. */
  lemma CompareTextFlips(x: string, y: string)
    ensures CompareText(y, x) == -CompareText(x, y)
  {
    if x != y {
      LexTotal(x, y);
      if LexLeq(x, y) && LexLeq(y, x) {
        LexAntisymmetric(x, y);
      }
    }
  }

  // --------------------------------------------------------- comparator

  /** An output row's `post_date` property; `undefined` when it has none. */
  function PostDate(row: seq<Field>): Value {
    if row == [] then Undefined
    else if row[0].key == "post_date" then row[0].value
    else PostDate(row[1..])
  }

  /** Whether a row's `post_date` is text, so that it has `localeCompare`. */
  predicate HasTextDate(row: seq<Field>) {
    PostDate(row).Str?
  }

  /** `sortByRecentDate(a, b)`: `b.post_date.localeCompare(a.post_date)`.
      The receiver must be text (null has no method); the argument is
      converted with `String()`. */
  function ByRecentDate(a: seq<Field>, b: seq<Field>): (c: int)
    requires HasTextDate(b)
    ensures c <= 0 <==> LexLeq(PostDate(b).s, JsString(PostDate(a)))
  {
    LexReflexive(PostDate(b).s);
    CompareText(PostDate(b).s, JsString(PostDate(a)))
  }

  /** `String(row.post_date)`: the text the comparator reads. */
  function DateText(row: seq<Field>): string {
    JsString(PostDate(row))
  }

  /** Adjacent rows are in order: the later date text, in code-point order,
      comes first. */
  predicate Descending(rs: seq<seq<Field>>) {
    forall i :: 0 <= i < |rs| - 1 ==> LexLeq(DateText(rs[i + 1]), DateText(rs[i]))
  }

  // --------------------------------------------------------------- sort

  /** Inserts `x` into descending `rs` ahead of every row whose date is no
      later than its own, so equal dates keep their input order. */
  function Insert(x: seq<Field>, rs: seq<seq<Field>>): (r: seq<seq<Field>>)
    requires Descending(rs)
    ensures multiset(r) == multiset(rs) + multiset{x}
    ensures r != [] && (r[0] == x || (rs != [] && r[0] == rs[0]))
    ensures Descending(r)
  {
    if rs == [] then [x]
    else if LexLeq(DateText(rs[0]), DateText(x)) then [x] + rs
    else
      DescendingTail(rs);
      var tail := Insert(x, rs[1..]);
      LexTotal(DateText(rs[0]), DateText(x));
      assert multiset(rs) == multiset{rs[0]} + multiset(rs[1..]) by {
        assert rs == [rs[0]] + rs[1..];
      }
      [rs[0]] + tail
  }

  /** `jsonList.sort(sortByRecentDate)`: a stable insertion sort. With two
      or more rows the comparator runs, so every date must then be text. */
  function SortByRecentDate(rs: seq<seq<Field>>): (r: seq<seq<Field>>)
    requires |rs| <= 1 || forall i :: 0 <= i < |rs| ==> HasTextDate(rs[i])
    ensures multiset(r) == multiset(rs)
    ensures Descending(r)
  {
    Sort(rs)
  }

  function Sort(rs: seq<seq<Field>>): (r: seq<seq<Field>>)
    ensures multiset(r) == multiset(rs)
    ensures Descending(r)
  {
    if rs == [] then []
    else
      assert rs == [rs[0]] + rs[1..];
      Insert(rs[0], Sort(rs[1..]))
  }

  /** Descending adjacent rows are descending pairwise. */
  lemma {:induction false} DescendingPairwise(rs: seq<seq<Field>>)
    requires Descending(rs)
    ensures forall i, j :: 0 <= i < j < |rs| ==> LexLeq(DateText(rs[j]), DateText(rs[i]))
    decreases |rs|
  {
    if |rs| > 1 {
      var t := rs[1..];
      DescendingTail(rs);
      DescendingPairwise(t);
      forall i, j | 0 <= i < j < |rs| ensures LexLeq(DateText(rs[j]), DateText(rs[i])) {
        if i > 0 {
          assert rs[i] == t[i - 1] && rs[j] == t[j - 1];
        } else if j > 1 {
          assert rs[j] == t[j - 1] && rs[1] == t[0];
          LexTransitive(DateText(rs[j]), DateText(rs[1]), DateText(rs[0]));
        }
      }
    }
  }

  /** `sortByRecentDate(a, b) <= 0` for every adjacent pair `a`, `b`. */
  predicate InComparatorOrder(r: seq<seq<Field>>) {
    forall i :: 0 <= i < |r| - 1 ==> ComparatorKeeps(r[i], r[i + 1])
  }

  /** The comparator can be called on `a`, `b` and keeps them in place. */
  predicate ComparatorKeeps(a: seq<Field>, b: seq<Field>) {
    HasTextDate(b) && ByRecentDate(a, b) <= 0
  }

  /** On rows with text dates the comparator itself agrees with the result:
      it never asks to swap two adjacent rows. */
  lemma SortAgreesWithComparator(rs: seq<seq<Field>>)
    requires forall i :: 0 <= i < |rs| ==> HasTextDate(rs[i])
    ensures InComparatorOrder(SortByRecentDate(rs))
  {
    var r := SortByRecentDate(rs);
    forall i | 0 <= i < |r| ensures HasTextDate(r[i]) {
      assert r[i] in multiset(rs);
    }
  }

  /** Rows already in order are left as they are. */
  lemma {:induction false} SortKeepsOrdered(rs: seq<seq<Field>>)
    requires Descending(rs)
    ensures Sort(rs) == rs
    decreases |rs|
  {
    if rs != [] {
      var t := rs[1..];
      DescendingTail(rs);
      SortKeepsOrdered(t);
      InsertFront(rs[0], t);
      assert [rs[0]] + t == rs;
    }
  }

  /** Dropping the first row keeps rows in order. */
  lemma DescendingTail(rs: seq<seq<Field>>)
    requires rs != [] && Descending(rs)
    ensures Descending(rs[1..])
  {
    var t := rs[1..];
    forall i | 0 <= i < |t| - 1 ensures LexLeq(DateText(t[i + 1]), DateText(t[i])) {
      assert t[i] == rs[i + 1] && t[i + 1] == rs[i + 2];
    }
  }

  /** A row no older than the first goes in front. */
  lemma InsertFront(x: seq<Field>, rs: seq<seq<Field>>)
    requires Descending(rs)
    requires rs == [] || LexLeq(DateText(rs[0]), DateText(x))
    ensures Insert(x, rs) == [x] + rs
  {
  }

  /** The rows of `rs` whose date text is `d`, in their order in `rs`. */
  function Only(rs: seq<seq<Field>>, d: string): (r: seq<seq<Field>>)
  {
    if rs == [] then []
    else
      assert rs == [rs[0]] + rs[1..];
      (if DateText(rs[0]) == d then [rs[0]] else []) + Only(rs[1..], d)
  }

  /** `Only` keeps rows of `rs` with date text `d`, and nothing else. */
  lemma {:induction false} OnlyFilters(rs: seq<seq<Field>>, d: string)
    ensures var r := Only(rs, d);
      && (forall i :: 0 <= i < |r| ==> DateText(r[i]) == d)
      && multiset(r) <= multiset(rs)
  {
    if rs != [] {
      assert rs == [rs[0]] + rs[1..];
      OnlyFilters(rs[1..], d);
    }
  }

  /** `Only` of a row followed by more rows. */
  lemma OnlyCons(y: seq<Field>, rs: seq<seq<Field>>, d: string)
    ensures Only([y] + rs, d) == (if DateText(y) == d then [y] else []) + Only(rs, d)
  {
    assert ([y] + rs)[1..] == rs;
    assert ([y] + rs)[0] == y;
  }

  /** Inserting a row puts it ahead of every row with the same date, and
      moves no row past another. */
  lemma {:induction false} InsertOnly(x: seq<Field>, rs: seq<seq<Field>>, d: string)
    requires Descending(rs)
    ensures Only(Insert(x, rs), d) == (if DateText(x) == d then [x] else []) + Only(rs, d)
    decreases |rs|
  {
    if rs == [] {
      OnlyCons(x, [], d);
    } else if LexLeq(DateText(rs[0]), DateText(x)) {
      OnlyCons(x, rs, d);
    } else {
      DescendingTail(rs);
      LexReflexive(DateText(x));
      InsertOnly(x, rs[1..], d);
      OnlyPast(x, Insert(x, rs[1..]), rs, d);
    }
  }

  /** Passing over a row with another date keeps `x` ahead of the rows
      with its own date. */
  lemma OnlyPast(x: seq<Field>, i: seq<seq<Field>>, rs: seq<seq<Field>>, d: string)
    requires rs != [] && DateText(rs[0]) != DateText(x)
    requires Only(i, d) == (if DateText(x) == d then [x] else []) + Only(rs[1..], d)
    ensures Only([rs[0]] + i, d) == (if DateText(x) == d then [x] else []) + Only(rs, d)
  {
    var y, t := rs[0], rs[1..];
    assert [y] + t == rs;
    OnlyCons(y, i, d);
    OnlyCons(y, t, d);
    var h := if DateText(y) == d then [y] else [];
    var e := if DateText(x) == d then [x] else [];
    assert Only([y] + i, d) == h + (e + Only(t, d));
    if DateText(x) == d {
      assert h == [];
      assert Only(rs, d) == Only(t, d);
      assert Only([y] + i, d) == [x] + Only(t, d);
    } else {
      assert e == [];
      assert Only(rs, d) == h + Only(t, d);
      assert Only([y] + i, d) == h + Only(t, d);
    }
  }

  /** The sort is stable: rows with equal dates leave it in the order they
      came in. */
  lemma {:induction false} SortIsStable(rs: seq<seq<Field>>, d: string)
    ensures Only(Sort(rs), d) == Only(rs, d)
    decreases |rs|
  {
    if rs != [] {
      var t := rs[1..];
      SortIsStable(t, d);
      InsertOnly(rs[0], Sort(t), d);
    }
  }

  /** Sorting twice is sorting once. */
  lemma SortIdempotent(rs: seq<seq<Field>>)
    ensures Sort(Sort(rs)) == Sort(rs)
  {
    SortKeepsOrdered(Sort(rs));
  }
}

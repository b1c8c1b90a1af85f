/** Strings and sequences: the JavaScript built-ins the application relies on
    (`toLowerCase`, `includes`, `indexOf`/`lastIndexOf`, `split`, `join`,
    the order-keeping de-duplication of `new Set(array)`, and the default
    `sort` of an array of strings), each with the property that defines it. */
module Text {

  /** `toLowerCase` on one character, for the letters A to Z. */
  function LowerChar(c: char): char {
    if 'A' <= c <= 'Z' then (c as int - 'A' as int + 'a' as int) as char else c
  }

  function Lower(s: string): string {
    seq(|s|, i requires 0 <= i < |s| => LowerChar(s[i]))
  }

  /** `s.includes(sub)`: `sub` occurs somewhere in `s` (the empty string occurs everywhere). */
  predicate Contains(s: string, sub: string) {
    sub <= s || (s != [] && Contains(s[1..], sub))
  }

  /** `sub` occurs in `s` starting at position `i`. */
  predicate OccursAt(s: string, sub: string, i: int) {
    0 <= i && i + |sub| <= |s| && s[i..i + |sub|] == sub
  }

  /** `includes` holds exactly when `sub` occurs at some position of `s`. */
  lemma {:induction false} ContainsOccurs(s: string, sub: string)
    ensures Contains(s, sub) <==> exists i :: OccursAt(s, sub, i)
    decreases |s|
  {
    if sub <= s {
      assert s[0..|sub|] == sub;
      assert OccursAt(s, sub, 0);
    }
    if s == [] {
      if exists i :: OccursAt(s, sub, i) {
        var i :| OccursAt(s, sub, i);
        assert sub <= s;
      }
    } else {
      ContainsOccurs(s[1..], sub);
      if exists i :: OccursAt(s[1..], sub, i) {
        var i :| OccursAt(s[1..], sub, i);
        assert s[1..][i..i + |sub|] == s[i + 1..i + 1 + |sub|];
        assert OccursAt(s, sub, i + 1);
      }
      if exists i :: OccursAt(s, sub, i) {
        var i :| OccursAt(s, sub, i);
        if i == 0 {
          assert s[..|sub|] == s[0..|sub|];
        } else {
          assert s[1..][i - 1..i - 1 + |sub|] == s[i..i + |sub|];
          assert OccursAt(s[1..], sub, i - 1);
        }
      }
    }
  }

  /** `s.indexOf(c)`: the first position of `c`, or -1. */
  function IndexOf(s: string, c: char): (r: int)
    ensures -1 <= r < |s|
    ensures r >= 0 ==> s[r] == c
  {
    if s == [] then -1
    else if s[0] == c then 0
    else
      var k := IndexOf(s[1..], c);
      if k < 0 then -1 else k + 1
  }

  /** `s.lastIndexOf(c)`: the last position of `c`, or -1. */
  function LastIndexOf(s: string, c: char): (r: int)
    ensures -1 <= r < |s|
    ensures r >= 0 ==> s[r] == c
  {
    if s == [] then -1
    else if s[|s| - 1] == c then |s| - 1
    else LastIndexOf(s[..|s| - 1], c)
  }

  /** No occurrence of `c` comes before the one `indexOf` reports, and
      there is none at all when it reports -1. */
  lemma {:induction false} IndexOfFirst(s: string, c: char)
    ensures forall k :: 0 <= k < |s| && (IndexOf(s, c) < 0 || k < IndexOf(s, c)) ==> s[k] != c
  {
    if s != [] && s[0] != c {
      IndexOfFirst(s[1..], c);
      forall k | 0 < k < |s| && (IndexOf(s, c) < 0 || k < IndexOf(s, c)) ensures s[k] != c {
        assert s[k] == s[1..][k - 1];
      }
    }
  }

  /** No occurrence of `c` comes after the one `lastIndexOf` reports, and
      there is none at all when it reports -1. */
  lemma {:induction false} LastIndexOfLast(s: string, c: char)
    ensures forall k :: LastIndexOf(s, c) < k < |s| ==> s[k] != c
  {
    if s != [] && s[|s| - 1] != c {
      var init := s[..|s| - 1];
      LastIndexOfLast(init, c);
      forall k | LastIndexOf(s, c) < k < |s| - 1 ensures s[k] != c {
        assert s[k] == init[k];
      }
    }
  }

  /** `s.split(sep)` for a one-character separator. */
  function Split(s: string, sep: char): (parts: seq<string>)
    ensures |parts| >= 1
    decreases |s|
  {
    var i := IndexOf(s, sep);
    if i < 0 then [s] else [s[..i]] + Split(s[i + 1..], sep)
  }

  /** `parts.join(sep)`. */
  function Join(parts: seq<string>, sep: string): string {
    if parts == [] then ""
    else if |parts| == 1 then parts[0]
    else parts[0] + sep + Join(parts[1..], sep)
  }

  /** One step of `split`: the text before the first separator, then the split of the rest. */
  lemma SplitStep(s: string, sep: char)
    requires IndexOf(s, sep) >= 0
    ensures Split(s, sep) == [s[..IndexOf(s, sep)]] + Split(s[IndexOf(s, sep) + 1..], sep)
  {
  }

  lemma JoinSplitStep(s: string, sep: char, i: int)
    requires 0 <= i == IndexOf(s, sep)
    requires Join(Split(s[i + 1..], sep), [sep]) == s[i + 1..]
    ensures Join(Split(s, sep), [sep]) == s
  {
    SplitStep(s, sep);
    JoinCons(s[..i], Split(s[i + 1..], sep), [sep]);
    assert s == s[..i] + [sep] + s[i + 1..];
  }

  /** The first separator after a stretch without one is at its end. */
  lemma {:induction false} IndexOfAt(a: string, c: char, rest: string)
    requires forall k :: 0 <= k < |a| ==> a[k] != c
    ensures IndexOf(a + [c] + rest, c) == |a|
  {
    if a != [] {
      assert (a + [c] + rest)[1..] == a[1..] + [c] + rest;
      IndexOfAt(a[1..], c, rest);
    }
  }

  /** A string without the separator has none to report. */
  lemma {:induction false} IndexOfAbsent(a: string, c: char)
    requires forall k :: 0 <= k < |a| ==> a[k] != c
    ensures IndexOf(a, c) == -1
  {
    if a != [] {
      IndexOfAbsent(a[1..], c);
    }
  }

  /** Splitting at a first separator: the stretch before it, then the rest split. */
  lemma SplitAt(a: string, c: char, rest: string)
    requires forall k :: 0 <= k < |a| ==> a[k] != c
    ensures Split(a + [c] + rest, c) == [a] + Split(rest, c)
  {
    var s := a + [c] + rest;
    IndexOfAt(a, c, rest);
    SplitStep(s, c);
    assert s[..|a|] == a && s[|a| + 1..] == rest;
  }

  /** A string without the separator splits into itself alone. */
  lemma SplitAbsent(a: string, c: char)
    requires forall k :: 0 <= k < |a| ==> a[k] != c
    ensures Split(a, c) == [a]
  {
    IndexOfAbsent(a, c);
  }

  /** No part of `split` holds the separator. */
  lemma {:induction false} SplitPartsFree(s: string, sep: char)
    ensures forall k :: 0 <= k < |Split(s, sep)| ==> sep !in Split(s, sep)[k]
    decreases |s|
  {
    var i := IndexOf(s, sep);
    IndexOfFirst(s, sep);
    if i >= 0 {
      var rest := s[i + 1..];
      SplitStep(s, sep);
      SplitPartsFree(rest, sep);
      forall k | 0 <= k < |Split(s, sep)| ensures sep !in Split(s, sep)[k] {
        if k == 0 {
          assert Split(s, sep)[0] == s[..i];
        } else {
          assert Split(s, sep)[k] == Split(rest, sep)[k - 1];
        }
      }
    }
  }

  /** Splitting and joining again with the same separator gives the string back. */
  lemma {:induction false} JoinSplit(s: string, sep: char)
    ensures Join(Split(s, sep), [sep]) == s
    decreases |s|
  {
    var i := IndexOf(s, sep);
    if i >= 0 {
      JoinSplit(s[i + 1..], sep);
      JoinSplitStep(s, sep, i);
    }
  }

  lemma JoinCons(head: string, tail: seq<string>, sep: string)
    requires tail != []
    ensures Join([head] + tail, sep) == head + sep + Join(tail, sep)
  {
    assert ([head] + tail)[1..] == tail;
  }

  /** The last position of `c` in `s`, seen from an occurrence at `i`. */
  lemma LastIndexOfAfter(s: string, c: char, i: int)
    requires 0 <= i < |s| && s[i] == c
    ensures LastIndexOf(s, c) == i + 1 + LastIndexOf(s[i + 1..], c)
  {
    var rest := s[i + 1..];
    var r, q := LastIndexOf(s, c), LastIndexOf(rest, c);
    var t := i + 1 + q;
    LastIndexOfLast(s, c);
    LastIndexOfLast(rest, c);
    assert s[t] == c by {
      if q >= 0 { assert s[t] == rest[q]; }
    }
  }

  /** The last element of a non-empty sequence (`pop()` of an array). */
  function Last(parts: seq<string>): string
    requires parts != []
  {
    parts[|parts| - 1]
  }

  lemma SplitLastStep(s: string, sep: char, i: int)
    requires 0 <= i == IndexOf(s, sep)
    requires Last(Split(s[i + 1..], sep)) == s[i + 1..][LastIndexOf(s[i + 1..], sep) + 1..]
    ensures Last(Split(s, sep)) == s[LastIndexOf(s, sep) + 1..]
  {
    SplitLastSkip(s, sep, i);
    AfterLastSkip(s, sep, i);
  }

  /** The last part of a split is the last part of the split after the first separator. */
  lemma SplitLastSkip(s: string, sep: char, i: int)
    requires 0 <= i == IndexOf(s, sep)
    ensures Last(Split(s, sep)) == Last(Split(s[i + 1..], sep))
  {
    SplitStep(s, sep);
    LastCons(s[..i], Split(s[i + 1..], sep));
  }

  /** What follows the last separator is the same seen from after any separator. */
  lemma AfterLastSkip(s: string, sep: char, i: int)
    requires 0 <= i < |s| && s[i] == sep
    ensures s[LastIndexOf(s, sep) + 1..] == s[i + 1..][LastIndexOf(s[i + 1..], sep) + 1..]
  {
    var rest := s[i + 1..];
    var q := LastIndexOf(rest, sep);
    var m := LastIndexOf(s, sep) + 1;
    LastIndexOfAfter(s, sep, i);
    assert m == i + 1 + q + 1;
    SliceOfSlice(s, i + 1, q + 1);
    assert s[m..] == s[i + 1 + q + 1..];
  }

  lemma LastCons(head: string, tail: seq<string>)
    requires tail != []
    ensures Last([head] + tail) == Last(tail)
  {
  }

  lemma SliceOfSlice(s: string, a: nat, b: nat)
    requires a <= |s| && b <= |s| - a
    ensures s[a..][b..] == s[a + b..]
  {
  }

  /** The last part of `split` is what follows the last separator. */
  lemma {:induction false} SplitLast(s: string, sep: char)
    ensures Last(Split(s, sep)) == s[LastIndexOf(s, sep) + 1..]
    decreases |s|
  {
    var i := IndexOf(s, sep);
    if i >= 0 {
      SplitLast(s[i + 1..], sep);
      SplitLastStep(s, sep, i);
    } else {
      IndexOfFirst(s, sep);
    }
  }

  /** The distinct elements of `s` in order of first occurrence, as
      `[...new Set(s)]` yields them. */
  function Dedup<T(==, !new)>(s: seq<T>): (r: seq<T>)
    ensures forall x :: x in r <==> x in s
    ensures forall i, j :: 0 <= i < j < |r| ==> r[i] != r[j]
  {
    if s == [] then []
    else
      var d := Dedup(s[..|s| - 1]);
      if s[|s| - 1] in d then d else d + [s[|s| - 1]]
  }

  /** De-duplicating a prefix gives a prefix of the de-duplicated whole. */
  lemma {:induction false} DedupPrefix<T(!new)>(s: seq<T>, n: nat)
    requires n <= |s|
    ensures Dedup(s[..n]) <= Dedup(s)
    decreases |s| - n
  {
    if n < |s| {
      var init := s[..|s| - 1];
      assert init[..n] == s[..n];
      DedupPrefix(init, n);
    } else {
      assert s[..n] == s;
    }
  }

  /** First-occurrence order: an element that occurs within the first `n`
      items comes before every element that does not. */
  lemma DedupOrder<T(!new)>(s: seq<T>, n: nat, a: nat, b: nat)
    requires n <= |s| && a < |Dedup(s)| && b < |Dedup(s)|
    requires Dedup(s)[a] in s[..n] && Dedup(s)[b] !in s[..n]
    ensures a < b
  {
    var d, p := Dedup(s), Dedup(s[..n]);
    DedupPrefix(s, n);
    var a' :| 0 <= a' < |p| && p[a'] == d[a];
    assert d[a'] == d[a];
  }

  /** `a` comes before or equals `b` in code-point order, the order the
      default `sort` puts strings in. */
  predicate Below(a: string, b: string) {
    if a == [] then true
    else if b == [] then false
    else if a[0] != b[0] then a[0] < b[0]
    else Below(a[1..], b[1..])
  }

  lemma {:induction false} BelowTotal(a: string, b: string)
    ensures Below(a, b) || Below(b, a)
  {
    if a != [] && b != [] && a[0] == b[0] {
      BelowTotal(a[1..], b[1..]);
    }
  }

  lemma {:induction false} BelowAntisymmetric(a: string, b: string)
    requires Below(a, b) && Below(b, a)
    ensures a == b
  {
    if a != [] && b != [] {
      BelowAntisymmetric(a[1..], b[1..]);
      assert a == [a[0]] + a[1..] && b == [b[0]] + b[1..];
    }
  }

  lemma {:induction false} BelowTransitive(a: string, b: string, c: string)
    requires Below(a, b) && Below(b, c)
    ensures Below(a, c)
  {
    if a != [] && b != [] && c != [] && a[0] == b[0] && b[0] == c[0] {
      BelowTransitive(a[1..], b[1..], c[1..]);
    }
  }

  /** Ascending and without repetitions. */
  ghost predicate StrictlySorted(s: seq<string>) {
    forall i, j :: 0 <= i < j < |s| ==> Below(s[i], s[j]) && s[i] != s[j]
  }

  lemma BelowAllFromHead(s: seq<string>, x: string)
    requires StrictlySorted(s) && s != [] && Below(x, s[0])
    ensures forall j :: 0 <= j < |s| ==> Below(x, s[j])
  {
    forall j | 0 < j < |s| ensures Below(x, s[j]) {
      BelowTransitive(x, s[0], s[j]);
    }
  }

  lemma SortedCons(h: string, r: seq<string>)
    requires StrictlySorted(r)
    requires forall y :: y in r ==> Below(h, y) && h != y
    ensures StrictlySorted([h] + r)
  {
    var hr := [h] + r;
    forall i, j | 0 <= i < j < |hr| ensures Below(hr[i], hr[j]) && hr[i] != hr[j] {
      if i == 0 {
        assert hr[j] == r[j - 1] && r[j - 1] in r;
      } else {
        assert hr[i] == r[i - 1] && hr[j] == r[j - 1];
      }
    }
  }

  /** Puts `x` into its place in a sorted sequence. */
  function Insert(s: seq<string>, x: string): (r: seq<string>)
    requires StrictlySorted(s) && x !in s
    ensures StrictlySorted(r)
    ensures forall y :: y in r <==> y in s || y == x
  {
    if s == [] then [x]
    else if Below(x, s[0]) then
      BelowAllFromHead(s, x);
      SortedCons(x, s);
      [x] + s
    else
      BelowTotal(x, s[0]);
      var tail := Insert(s[1..], x);
      InsertHead(s, x, tail);
      [s[0]] + tail
  }

  lemma InsertHead(s: seq<string>, x: string, tail: seq<string>)
    requires StrictlySorted(s) && s != [] && x !in s && Below(s[0], x)
    requires StrictlySorted(tail)
    requires forall y :: y in tail <==> y in s[1..] || y == x
    ensures StrictlySorted([s[0]] + tail)
  {
    forall y | y in tail ensures Below(s[0], y) && s[0] != y {
      if y != x {
        var k :| 0 <= k < |s[1..]| && s[1..][k] == y;
        assert s[k + 1] == y;
      }
    }
    SortedCons(s[0], tail);
  }

  /** `Array.from(items).sort()`: the items, ascending, each once. */
  method SortSet(items: set<string>) returns (sorted: seq<string>)
    ensures StrictlySorted(sorted)
    ensures forall x :: x in sorted <==> x in items
  {
    sorted := [];
    var rest := items;
    while rest != {}
      invariant rest <= items
      invariant StrictlySorted(sorted)
      invariant forall x :: x in sorted <==> x in items && x !in rest
      decreases |rest|
    {
      var x :| x in rest;
      sorted := Insert(sorted, x);
      rest := rest - {x};
    }
  }

  lemma {:induction false} BelowReflexive(a: string)
    ensures Below(a, a)
  {
    if a != [] {
      BelowReflexive(a[1..]);
    }
  }

  /** There is only one sorted arrangement of a set of strings. */
  lemma {:induction false} SortedUnique(a: seq<string>, b: seq<string>)
    requires StrictlySorted(a) && StrictlySorted(b)
    requires forall x :: x in a <==> x in b
    ensures a == b
    decreases |a|
  {
    assert a == [] <==> b == [] by {
      assert a != [] ==> a[0] in b;
      assert b != [] ==> b[0] in a;
    }
    if a != [] {
      assert a[0] in b && b[0] in a;
      var i :| 0 <= i < |b| && b[i] == a[0];
      var j :| 0 <= j < |a| && a[j] == b[0];
      BelowReflexive(a[0]);
      assert Below(a[0], b[0]) by { if j != 0 { assert Below(a[0], a[j]); } }
      assert Below(b[0], a[0]) by { if i != 0 { assert Below(b[0], b[i]); } }
      BelowAntisymmetric(a[0], b[0]);
      forall x ensures x in a[1..] <==> x in b[1..] {
        if x in a[1..] {
          var k :| 0 <= k < |a[1..]| && a[1..][k] == x;
          assert a[k + 1] == x && x != a[0];
          assert x in b;
          var m :| 0 <= m < |b| && b[m] == x;
          assert m != 0 && b[1..][m - 1] == x;
        }
        if x in b[1..] {
          var k :| 0 <= k < |b[1..]| && b[1..][k] == x;
          assert b[k + 1] == x && x != b[0];
          assert x in a;
          var m :| 0 <= m < |a| && a[m] == x;
          assert m != 0 && a[1..][m - 1] == x;
        }
      }
      assert StrictlySorted(a[1..]) && StrictlySorted(b[1..]);
      SortedUnique(a[1..], b[1..]);
      assert a == [a[0]] + a[1..] && b == [b[0]] + b[1..];
    }
  }

  /** `a` is `b` with some elements left out, the rest kept in order: the
      first element of `b` is either kept as the first of `a` or dropped. */
  ghost predicate IsSubsequence<T>(a: seq<T>, b: seq<T>)
    decreases |b|
  {
    if b == [] then a == []
    else (a != [] && a[0] == b[0] && IsSubsequence(a[1..], b[1..])) || IsSubsequence(a, b[1..])
  }

  lemma SubsequenceKeep<T>(x: T, a: seq<T>, b: seq<T>)
    requires IsSubsequence(a, b)
    ensures IsSubsequence([x] + a, [x] + b)
  {
    assert ([x] + a)[1..] == a && ([x] + b)[1..] == b;
  }

  lemma SubsequenceDrop<T>(x: T, a: seq<T>, b: seq<T>)
    requires IsSubsequence(a, b)
    ensures IsSubsequence(a, [x] + b)
  {
    assert ([x] + b)[1..] == b;
  }
}

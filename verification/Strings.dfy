// The string functions of the Go library that the modelled code uses, and the byte order it sorts by.
module Strings {

  // strings.ReplaceAll for a non-empty pattern.
  function ReplaceAll(s: string, pattern: string, put: string): string
    requires |pattern| > 0
  {
    if |s| < |pattern| then s
    else if pattern <= s then put + ReplaceAll(s[|pattern|..], pattern, put)
    else [s[0]] + ReplaceAll(s[1..], pattern, put)
  }

  lemma ReplaceHead(pattern: string, put: string, rest: string)
    requires |pattern| > 0
    ensures ReplaceAll(pattern + rest, pattern, put) == put + ReplaceAll(rest, pattern, put)
  {
    assert (pattern + rest)[|pattern|..] == rest;
  }

  lemma ReplaceSkip(c: char, rest: string, pattern: string, put: string)
    requires |pattern| > 0
    requires pattern[0] != c || (|pattern| > 1 && |rest| > 0 && pattern[1] != rest[0])
    ensures ReplaceAll([c] + rest, pattern, put) == [c] + ReplaceAll(rest, pattern, put)
  {
    var s := [c] + rest;
    assert s[0] == c && s[1..] == rest && (|rest| > 0 ==> s[1] == rest[0]);
    assert !(pattern <= s);
    if |rest| + 1 < |pattern| {
      assert ReplaceAll(rest, pattern, put) == rest;
    }
  }

  // strings.Split for a one-character separator.
  function Split(s: string, sep: char): (parts: seq<string>)
    ensures |parts| > 0
  {
    if |s| == 0 then [""]
    else
      var rest := Split(s[1..], sep);
      if s[0] == sep then [""] + rest else [[s[0]] + rest[0]] + rest[1..]
  }

  function TrimPrefix(s: string, prefix: string): string {
    if prefix <= s then s[|prefix|..] else s
  }

  // unicode.IsSpace
  predicate IsSpace(c: char) {
    || '\t' <= c <= '\r' || c == ' ' || c == '\U{85}' || c == '\U{a0}' || c == '\U{1680}'
    || '\U{2000}' <= c <= '\U{200a}' || c == '\U{2028}' || c == '\U{2029}' || c == '\U{202f}'
    || c == '\U{205f}' || c == '\U{3000}'
  }

  function TrimLeft(s: string): string {
    if |s| > 0 && IsSpace(s[0]) then TrimLeft(s[1..]) else s
  }

  function TrimRight(s: string): string {
    if |s| > 0 && IsSpace(s[|s| - 1]) then TrimRight(s[..|s| - 1]) else s
  }

  function TrimSpace(s: string): string {
    TrimRight(TrimLeft(s))
  }

  predicate Contains(s: string, word: string) {
    |word| <= |s| && (word <= s || (|s| > 0 && Contains(s[1..], word)))
  }

  // strings.ToUpper on ASCII letters.
  function ToUpper(s: string): string {
    seq(|s|, i requires 0 <= i < |s| => if 'a' <= s[i] <= 'z' then s[i] - 'a' + 'A' else s[i])
  }

  function ToLower(s: string): string {
    seq(|s|, i requires 0 <= i < |s| => if 'A' <= s[i] <= 'Z' then s[i] - 'A' + 'a' else s[i])
  }

  // ---- What these functions mean ----

  // A word is contained in a text exactly if it stands somewhere in it.
  lemma {:induction false} ContainsIff(s: string, word: string)
    ensures Contains(s, word) <==> exists a, b :: s == a + word + b
    decreases |s|
  {
    if word <= s {
      assert s == "" + word + s[|word|..];
    } else if |s| > 0 {
      ContainsIff(s[1..], word);
      if a, b :| s[1..] == a + word + b {
        assert s == ([s[0]] + a) + word + b;
      }
    }
    if a, b :| s == a + word + b {
      ContainsAt(s, a, word, b);
    }
  }

  lemma {:induction false} ContainsAt(s: string, a: string, word: string, b: string)
    requires s == a + word + b
    ensures Contains(s, word)
    decreases |a|
  {
    if |a| == 0 {
      assert word <= s;
    } else {
      assert s[1..] == a[1..] + word + b;
      ContainsAt(s[1..], a[1..], word, b);
    }
  }

  // The characters Go counts as white space.
  predicate SpelledSpace(c: char) {
    || c in {'\U{9}', '\U{a}', '\U{b}', '\U{c}', '\U{d}', '\U{20}', '\U{85}', '\U{a0}', '\U{1680}'}
    || c in {'\U{2028}', '\U{2029}', '\U{202f}', '\U{205f}', '\U{3000}'} || '\U{2000}' <= c <= '\U{200a}'
  }

  // Trimming takes away the spaces at both ends and nothing else.
  lemma TrimIs(before: string, s: string, after: string)
    requires forall i | 0 <= i < |before| :: SpelledSpace(before[i])
    requires forall i | 0 <= i < |after| :: SpelledSpace(after[i])
    requires |s| > 0 ==> !SpelledSpace(s[0]) && !SpelledSpace(s[|s| - 1])
    ensures TrimSpace(before + s + after) == s
  {
    assert before + s + after == before + (s + after);
    if |s| > 0 {
      TrimLeftIs(before, s + after);
    } else {
      assert s + after == after && before + after == (before + after) + "";
      TrimLeftIs(before + after, "");
    }
    TrimRightIs(s, after);
    assert "" + "" == "";
  }

  lemma {:induction false} TrimLeftIs(before: string, s: string)
    requires forall i | 0 <= i < |before| :: SpelledSpace(before[i])
    requires |s| > 0 ==> !SpelledSpace(s[0])
    ensures TrimLeft(before + s) == s
  {
    if |before| == 0 {
      assert before + s == s;
    } else {
      assert (before + s)[1..] == before[1..] + s;
      TrimLeftIs(before[1..], s);
    }
  }

  lemma {:induction false} TrimRightIs(s: string, after: string)
    requires forall i | 0 <= i < |after| :: SpelledSpace(after[i])
    requires |s| > 0 ==> !SpelledSpace(s[|s| - 1])
    ensures TrimRight(s + after) == s
  {
    if |after| == 0 {
      assert s + after == s;
    } else {
      assert (s + after)[..|s + after| - 1] == s + after[..|after| - 1];
      TrimRightIs(s, after[..|after| - 1]);
    }
  }

  // Letters between a and z change to those between A and Z at the same place, and back; nothing else does.
  lemma CaseIs(s: string, i: nat)
    requires i < |s|
    ensures |ToUpper(s)| == |ToLower(s)| == |s|
    ensures ToUpper(s)[i] as int == if 97 <= s[i] as int <= 122 then s[i] as int - 32 else s[i] as int
    ensures ToLower(s)[i] as int == if 65 <= s[i] as int <= 90 then s[i] as int + 32 else s[i] as int
  {
  }

  // The parts with a separator between any two.
  function Joined(parts: seq<string>, sep: char): string
    requires |parts| > 0
  {
    if |parts| == 1 then parts[0] else parts[0] + [sep] + Joined(parts[1..], sep)
  }

  // Splitting gives the stretches between the separators: without a separator in them, and together the text.
  lemma {:induction false} SplitIs(s: string, sep: char)
    ensures forall part | part in Split(s, sep) :: sep !in part
    ensures Joined(Split(s, sep), sep) == s
  {
    if |s| > 0 {
      SplitIs(s[1..], sep);
      var rest := Split(s[1..], sep);
      if s[0] == sep {
        assert ([""] + rest)[1..] == rest;
        assert "" + [sep] + s[1..] == s;
      } else {
        var parts := [[s[0]] + rest[0]] + rest[1..];
        assert parts[1..] == rest[1..];
        assert rest == [rest[0]] + rest[1..];
        assert Joined(parts, sep) == [s[0]] + Joined(rest, sep);
      }
    }
  }

  // ---- Order and sorting ----

  predicate Leq(a: string, b: string) {
    |a| == 0 || (|b| > 0 && (a[0] < b[0] || (a[0] == b[0] && Leq(a[1..], b[1..]))))
  }

  predicate Less(a: string, b: string) {
    a != b && Leq(a, b)
  }

  lemma {:induction false} LeqTotal(a: string, b: string)
    ensures Leq(a, b) || Leq(b, a)
  {
    if |a| > 0 && |b| > 0 && a[0] == b[0] {
      LeqTotal(a[1..], b[1..]);
    }
  }

  lemma {:induction false} LeqAntisymmetric(a: string, b: string)
    requires Leq(a, b) && Leq(b, a)
    ensures a == b
  {
    if |a| > 0 {
      LeqAntisymmetric(a[1..], b[1..]);
      assert a == [a[0]] + a[1..] && b == [b[0]] + b[1..];
    }
  }

  lemma {:induction false} LeqTransitive(a: string, b: string, c: string)
    requires Leq(a, b) && Leq(b, c)
    ensures Leq(a, c)
  {
    if |a| > 0 && a[0] == b[0] == c[0] {
      LeqTransitive(a[1..], b[1..], c[1..]);
    }
  }

  // The order of bytes: a text comes before another if it is a beginning of it, or has the smaller character where
  // they first differ.
  lemma {:induction false} LessIs(a: string, b: string)
    ensures Less(a, b) <==> a < b || DiffersAbove(a, b)
  {
    if |a| > 0 && |b| > 0 && a[0] == b[0] {
      LessIs(a[1..], b[1..]);
      assert a == [a[0]] + a[1..] && b == [b[0]] + b[1..];
      DiffersTail(a, b);
      assert a < b <==> a[1..] < b[1..];
    } else if |a| > 0 && |b| > 0 {
      assert forall n | 0 < n <= |a| && n <= |b| :: a[..n][0] == a[0] && b[..n][0] == b[0];
      assert a[..0] == b[..0];
    }
  }

  predicate DiffersAbove(a: string, b: string) {
    exists n | 0 <= n < |a| :: n < |b| && a[..n] == b[..n] && a[n] < b[n]
  }

  lemma DiffersTail(a: string, b: string)
    requires |a| > 0 && |b| > 0 && a[0] == b[0]
    ensures DiffersAbove(a, b) <==> DiffersAbove(a[1..], b[1..])
  {
    if DiffersAbove(a, b) {
      var n :| 0 <= n < |a| && n < |b| && a[..n] == b[..n] && a[n] < b[n];
      assert n > 0;
      assert a[1..][..n - 1] == a[..n][1..] && b[1..][..n - 1] == b[..n][1..];
      assert a[1..][n - 1] < b[1..][n - 1];
    }
    if DiffersAbove(a[1..], b[1..]) {
      DiffersBefore(a[0], a[1..], b[1..]);
      assert a == [a[0]] + a[1..] && b == [a[0]] + b[1..];
    }
  }

  lemma DiffersBefore(c: char, a: string, b: string)
    requires DiffersAbove(a, b)
    ensures DiffersAbove([c] + a, [c] + b)
  {
    var n :| 0 <= n < |a| && n < |b| && a[..n] == b[..n] && a[n] < b[n];
    assert ([c] + a)[..n + 1] == [c] + a[..n] && ([c] + b)[..n + 1] == [c] + b[..n];
    assert ([c] + a)[n + 1] < ([c] + b)[n + 1];
  }

  ghost predicate Sorted(s: seq<string>) {
    forall i, j | 0 <= i < j < |s| :: Leq(s[i], s[j])
  }

  ghost predicate StrictlySorted(s: seq<string>) {
    forall i, j | 0 <= i < j < |s| :: Less(s[i], s[j])
  }

  ghost predicate Distinct(s: seq<string>) {
    forall i, j | 0 <= i < j < |s| :: s[i] != s[j]
  }

  lemma LeastFirst(x: string, s: seq<string>)
    requires Sorted(s) && |s| > 0 && Leq(x, s[0])
    ensures Sorted([x] + s)
  {
    forall i | 0 <= i < |s| ensures Leq(x, s[i]) {
      if i > 0 {
        LeqTransitive(x, s[0], s[i]);
      }
    }
  }

  lemma LeastOfBoth(first: string, x: string, s: seq<string>, rest: seq<string>)
    requires Leq(first, x) && (forall y | y in s :: Leq(first, y))
    requires Sorted(rest) && multiset(rest) == multiset(s) + multiset{x}
    ensures Sorted([first] + rest)
  {
    forall y | y in rest ensures Leq(first, y) {
      assert y in multiset(rest);
      assert y == x || y in s;
    }
  }

  function Insert(x: string, s: seq<string>): (r: seq<string>)
    requires Sorted(s)
    ensures Sorted(r) && multiset(r) == multiset(s) + multiset{x}
  {
    if |s| == 0 then [x]
    else if Leq(x, s[0]) then
      LeastFirst(x, s);
      [x] + s
    else
      LeqTotal(x, s[0]);
      assert s == [s[0]] + s[1..];
      var rest := Insert(x, s[1..]);
      LeastOfBoth(s[0], x, s[1..], rest);
      [s[0]] + rest
  }

  // sort.Strings
  function Sort(s: seq<string>): (r: seq<string>)
    ensures Sorted(r) && multiset(r) == multiset(s)
  {
    if |s| == 0 then []
    else
      assert s == [s[0]] + s[1..];
      Insert(s[0], Sort(s[1..]))
  }

  lemma SortDistinct(s: seq<string>)
    requires Distinct(s)
    ensures StrictlySorted(Sort(s))
    ensures forall x :: x in Sort(s) <==> x in s
  {
    var r := Sort(s);
    forall x ensures x in r <==> x in s {
      assert x in multiset(r) <==> x in multiset(s);
    }
    DistinctOnce(s);
    forall i, j | 0 <= i < j < |r| ensures r[i] != r[j] {
      Twice(r, i, j);
      assert multiset(s)[r[i]] <= 1;
    }
  }

  lemma {:induction false} DistinctOnce(s: seq<string>)
    requires Distinct(s)
    ensures forall x :: multiset(s)[x] <= 1
  {
    if |s| > 0 {
      DistinctOnce(s[1..]);
      assert s == [s[0]] + s[1..];
      assert s[0] !in s[1..];
      assert multiset(s) == multiset{s[0]} + multiset(s[1..]);
    }
  }

  lemma Twice(r: seq<string>, i: nat, j: nat)
    requires i < j < |r|
    ensures r[i] == r[j] ==> multiset(r)[r[i]] >= 2
  {
    assert r == r[..j] + r[j..];
    assert r[i] in r[..j] && r[j] == r[j..][0];
    assert r[i] in multiset(r[..j]) && r[j] in multiset(r[j..]);
  }

  // A strictly sorted list is determined by its elements.
  lemma {:induction false} SortedUnique(a: seq<string>, b: seq<string>)
    requires StrictlySorted(a) && StrictlySorted(b)
    requires forall x :: x in a <==> x in b
    ensures a == b
  {
    if |b| > 0 {
      assert b[0] in b;
    }
    if |a| > 0 {
      assert a[0] in b && b[0] in a;
      var i :| 0 <= i < |b| && b[i] == a[0];
      var j :| 0 <= j < |a| && a[j] == b[0];
      if i > 0 && j > 0 {
        LeqAntisymmetric(a[0], b[0]);
      }
      assert a[0] == b[0];
      assert a == [a[0]] + a[1..] && b == [b[0]] + b[1..];
      forall x ensures x in a[1..] <==> x in b[1..] {
        if x in a[1..] {
          assert x in a && x != a[0];
        }
        if x in b[1..] {
          assert x in b && x != b[0];
        }
      }
      SortedUnique(a[1..], b[1..]);
    }
  }

  // ---- Keys in order ----

  function ToSet(keys: seq<string>): set<string> {
    set k | k in keys
  }

  ghost predicate IsInOrder(r: seq<string>, keys: set<string>) {
    StrictlySorted(r) && ToSet(r) == keys && |r| == |keys|
  }

  lemma OrderExists(keys: set<string>)
    ensures exists r :: IsInOrder(r, keys)
  {
    var list: seq<string> := [];
    var todo := keys;
    while todo != {}
      invariant todo <= keys && Distinct(list) && |list| + |todo| == |keys|
      invariant forall k :: k in list <==> k in keys && k !in todo
      decreases todo
    {
      var k :| k in todo;
      var was := list;
      todo := todo - {k};
      list := list + [k];
      assert forall x :: x in list <==> x in was || x == k;
    }
    SortDistinct(list);
    var r := Sort(list);
    assert |multiset(r)| == |multiset(list)|;
    assert IsInOrder(r, keys);
  }

  // The elements of a set, strictly sorted.
  ghost function InOrder(keys: set<string>): (r: seq<string>)
    ensures IsInOrder(r, keys)
  {
    OrderExists(keys);
    var r :| IsInOrder(r, keys);
    r
  }

  method SortedKeys(keys: set<string>) returns (sorted: seq<string>)
    ensures sorted == InOrder(keys)
  {
    var list: seq<string> := [];
    var todo := keys;
    while todo != {}
      invariant todo <= keys && Distinct(list) && |list| + |todo| == |keys|
      invariant forall k :: k in list <==> k in keys && k !in todo
      decreases todo
    {
      var k :| k in todo;
      ghost var was := list;
      todo := todo - {k};
      list := list + [k];
      assert forall x :: x in list <==> x in was || x == k;
    }
    SortDistinct(list);
    sorted := Sort(list);
    forall x ensures x in sorted <==> x in InOrder(keys) {
      assert x in ToSet(InOrder(keys)) <==> x in keys;
    }
    SortedUnique(sorted, InOrder(keys));
  }
}

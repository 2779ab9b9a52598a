// Taking a docs page apart: fenced code blocks, lines, and the code spans, links and bold spans of a line.
module PageParts {
  import opened Strings
  import opened TextEdits
  import opened Wrappers

  function Concat(parts: seq<string>): string {
    if |parts| == 0 then "" else parts[0] + Concat(parts[1..])
  }

  function Join(lines: seq<string>): string
    requires |lines| > 0
  {
    if |lines| == 1 then lines[0] else lines[0] + "\n" + Join(lines[1..])
  }

  // What may stand before a phrase: nothing, or a text that does not end inside a path or word.
  predicate EndsClosed(s: string) {
    |s| > 0 ==> !SlugChar(s[|s| - 1])
  }

  // Python's str.lstrip also takes the separators from file to unit.
  function LStrip(s: string): string {
    if |s| > 0 && (IsSpace(s[0]) || '\U{1c}' <= s[0] <= '\U{1f}') then LStrip(s[1..]) else s
  }

  // Headings, HTML, tables, quotes, images, and lines with an HTML link.
  predicate Protected(line: string) {
    var s := LStrip(line);
    (|s| > 0 && (s[0] == '#' || s[0] == '<' || s[0] == '|' || s[0] == '>' || s[0] == '!')) || Contains(line, "href=")
  }

  // The characters str.lstrip takes away.
  predicate Stripped(c: char) {
    || c in {'\t', '\n', '\U{b}', '\U{c}', '\r', '\U{1c}', '\U{1d}', '\U{1e}', '\U{1f}', ' ', '\U{85}', '\U{a0}'}
    || c in {'\U{1680}', '\U{2028}', '\U{2029}', '\U{202f}', '\U{205f}', '\U{3000}'}
    || '\U{2000}' <= c <= '\U{200a}'
  }

  // The first character that is not stripped is one of these five.
  ghost predicate BeginsMarked(line: string) {
    exists n: nat |
      n < |line| && (forall i | 0 <= i < n :: Stripped(line[i])) :: line[n] in {'#', '<', '|', '>', '!'}
  }

  // A heading, HTML, a table, a quote or an image, or a line with an HTML link.
  ghost predicate Marked(line: string) {
    BeginsMarked(line) || exists a, b :: line == a + "href=" + b
  }

  lemma {:induction false} LStripSkips(line: string, n: nat)
    requires n < |line| && (forall i | 0 <= i < n :: Stripped(line[i])) && !Stripped(line[n])
    ensures LStrip(line) == line[n..]
  {
    if n > 0 {
      LStripSkips(line[1..], n - 1);
    }
  }

  lemma {:induction false} LStripKeeps(line: string) returns (n: nat)
    ensures n <= |line| && LStrip(line) == line[n..] && forall i | 0 <= i < n :: Stripped(line[i])
    ensures n < |line| ==> !Stripped(line[n])
  {
    n := 0;
    if |line| > 0 && Stripped(line[0]) {
      var m := LStripKeeps(line[1..]);
      n := m + 1;
    }
  }

  lemma BeginsMarkedIff(line: string)
    ensures BeginsMarked(line) <==> |LStrip(line)| > 0 && LStrip(line)[0] in {'#', '<', '|', '>', '!'}
  {
    if BeginsMarked(line) {
      var m: nat :| m < |line| && (forall i | 0 <= i < m :: Stripped(line[i]))
                    && line[m] in {'#', '<', '|', '>', '!'};
      assert !Stripped(line[m]);
      LStripSkips(line, m);
    } else {
      var n := LStripKeeps(line);
    }
  }

  lemma MarkedIsProtected(line: string)
    ensures Marked(line) <==> Protected(line)
  {
    ContainsIff(line, "href=");
    BeginsMarkedIff(line);
  }

  // ---- The two patterns ----

  datatype Pattern = Fences | Spans

  // ``` to the next ```.
  predicate IsFence(s: string) {
    && |s| >= 6
    && StandsAt(s, 0, "```") && StandsAt(s, |s| - 3, "```")
    && forall k | 3 <= k < |s| - 3 :: !StandsAt(s, k, "```")
  }

  predicate IsCodeSpan(s: string) {
    |s| >= 2 && s[0] == '`' && s[|s| - 1] == '`' && '`' !in s[1..|s| - 1]
  }

  // The text of the link ends at m.
  predicate IsLinkAt(s: string, m: nat) {
    && 1 <= m && m + 3 <= |s|
    && s[0] == '[' && s[m] == ']' && ']' !in s[1..m]
    && s[m + 1] == '(' && s[|s| - 1] == ')' && ')' !in s[m + 2..|s| - 1]
  }

  predicate IsLink(s: string) {
    exists m | 0 <= m < |s| :: IsLinkAt(s, m)
  }

  predicate IsBold(s: string) {
    && |s| >= 4
    && s[0] == '*' && s[1] == '*' && s[|s| - 2] == '*' && s[|s| - 1] == '*'
    && '*' !in s[2..|s| - 2]
  }

  predicate IsPiece(pattern: Pattern, s: string) {
    match pattern
    case Fences => IsFence(s)
    case Spans => IsCodeSpan(s) || IsLink(s) || IsBold(s)
  }

  // A piece of the pattern begins at k.
  predicate BeginsAt(pattern: Pattern, s: string, k: nat) {
    exists e | k <= e <= |s| :: IsPiece(pattern, s[k..e])
  }

  predicate NoneBefore(pattern: Pattern, s: string, n: nat) {
    forall k: nat | k < n :: !BeginsAt(pattern, s, k)
  }

  // The two patterns spelled out.
  lemma PiecesSpelled(s: string)
    ensures IsPiece(Spans, s) <==> CodeSpelled(s) || LinkSpelled(s) || BoldSpelled(s)
    ensures IsPiece(Fences, s) <==>
              |s| >= 6 && TicksAt(s, 0) && TicksAt(s, |s| - 3) && forall k | 3 <= k < |s| - 3 :: !TicksAt(s, k)
  {
    CodeIs(s);
    LinkIs(s);
    BoldIs(s);
    forall k: nat | k + 3 <= |s| ensures StandsAt(s, k, "```") <==> TicksAt(s, k) {
      assert StandsAt(s, k, "```") <==> s[k..k + 3] == ['`', '`', '`'];
      assert s[k..k + 3] == [s[k], s[k + 1], s[k + 2]];
    }
  }

  // Three backticks.
  predicate TicksAt(s: string, k: nat)
    requires k + 3 <= |s|
  {
    s[k] == s[k + 1] == s[k + 2] == '`'
  }

  ghost predicate CodeSpelled(s: string) {
    exists x :: s == "`" + x + "`" && '`' !in x
  }

  ghost predicate LinkSpelled(s: string) {
    exists a, b :: s == "[" + a + "](" + b + ")" && ']' !in a && ')' !in b
  }

  ghost predicate BoldSpelled(s: string) {
    exists x :: s == "**" + x + "**" && '*' !in x
  }

  lemma CodeIs(s: string)
    ensures IsCodeSpan(s) <==> CodeSpelled(s)
  {
    if IsCodeSpan(s) {
      assert s == "`" + s[1..|s| - 1] + "`";
    }
    if x :| s == "`" + x + "`" && '`' !in x {
      assert s[1..|s| - 1] == x;
    }
  }

  lemma LinkIs(s: string)
    ensures IsLink(s) <==> LinkSpelled(s)
  {
    if m :| 0 <= m < |s| && IsLinkAt(s, m) {
      LinkFrom(s, m);
    }
    if a, b :| s == "[" + a + "](" + b + ")" && ']' !in a && ')' !in b {
      LinkWith(s, a, b);
    }
  }

  lemma LinkFrom(s: string, m: nat)
    requires IsLinkAt(s, m)
    ensures LinkSpelled(s)
  {
    var a, b := s[1..m], s[m + 2..|s| - 1];
    assert s == "[" + a + "](" + b + ")";
  }

  lemma LinkWith(s: string, a: string, b: string)
    requires s == "[" + a + "](" + b + ")" && ']' !in a && ')' !in b
    ensures IsLink(s)
  {
    var m := 1 + |a|;
    assert s[1..m] == a && s[m + 2..|s| - 1] == b;
    assert s[m] == ']' && s[m + 1] == '(' && s[|s| - 1] == ')';
    assert IsLinkAt(s, m);
  }

  lemma BoldIs(s: string)
    ensures IsBold(s) <==> BoldSpelled(s)
  {
    if IsBold(s) {
      assert s == "**" + s[2..|s| - 2] + "**";
    }
    if x :| s == "**" + x + "**" && '*' !in x {
      assert s[2..|s| - 2] == x;
    }
  }

  lemma PieceClosed(pattern: Pattern, s: string)
    requires IsPiece(pattern, s)
    ensures s != "" && EndsClosed(s)
  {
    if pattern.Fences? {
      CharAt(s, |s| - 3, "```", 2);
    }
  }

  // ---- Reading a piece ----

  // The first position of c in s at or after i.
  function IndexOf(s: string, c: char, i: nat): (r: Option<nat>)
    ensures r.Some? ==> i <= r.value < |s| && s[r.value] == c && c !in s[i..r.value]
    ensures r.None? && i <= |s| ==> c !in s[i..]
    decreases |s| - i
  {
    if i >= |s| then None
    else if s[i] == c then Some(i)
    else
      var r := IndexOf(s, c, i + 1);
      assert s[i..] == [s[i]] + s[i + 1..];
      assert r.Some? ==> s[i..r.value] == [s[i]] + s[i + 1..r.value];
      r
  }

  // The first ``` in s at or after i.
  function TicksFrom(s: string, i: nat): (r: Option<nat>)
    ensures r.Some? ==> i <= r.value && StandsAt(s, r.value, "```")
    ensures forall k: nat | i <= k && (r.Some? ==> k < r.value) :: !StandsAt(s, k, "```")
    decreases |s| - i
  {
    if i >= |s| then None
    else if StandsAt(s, i, "```") then Some(i)
    else TicksFrom(s, i + 1)
  }

  // Where the piece that begins at i ends.
  function PieceEnd(pattern: Pattern, s: string, i: nat): Option<nat>
    requires i <= |s|
  {
    match pattern
    case Fences =>
      var close := if StandsAt(s, i, "```") then TicksFrom(s, i + 3) else None;
      if close.Some? then Some(close.value + 3) else None
    case Spans =>
      if i >= |s| then None
      else if s[i] == '`' then CodeEnd(s, i)
      else if s[i] == '[' then LinkEnd(s, i)
      else if s[i] == '*' then BoldEnd(s, i)
      else None
  }

  function CodeEnd(s: string, i: nat): Option<nat> {
    var close := IndexOf(s, '`', i + 1);
    if close.Some? then Some(close.value + 1) else None
  }

  function LinkEnd(s: string, i: nat): Option<nat> {
    var text := IndexOf(s, ']', i + 1);
    if text.Some? && text.value + 1 < |s| && s[text.value + 1] == '(' then
      var url := IndexOf(s, ')', text.value + 2);
      if url.Some? then Some(url.value + 1) else None
    else None
  }

  function BoldEnd(s: string, i: nat): Option<nat> {
    if i + 1 < |s| && s[i + 1] == '*' then
      var close := IndexOf(s, '*', i + 2);
      if close.Some? && close.value + 1 < |s| && s[close.value + 1] == '*' then Some(close.value + 2) else None
    else None
  }

  lemma {:induction false} FirstIs(s: string, c: char, i: nat, r: nat)
    requires i <= r < |s| && s[r] == c && c !in s[i..r]
    ensures IndexOf(s, c, i) == Some(r)
    decreases r - i
  {
    if i < r {
      assert s[i..r] == [s[i]] + s[i + 1..r];
      FirstIs(s, c, i + 1, r);
    }
  }

  lemma {:induction false} TicksIs(s: string, i: nat, r: nat)
    requires i <= r && StandsAt(s, r, "```") && forall k: nat | i <= k < r :: !StandsAt(s, k, "```")
    ensures TicksFrom(s, i) == Some(r)
    decreases r - i
  {
    if i < r {
      TicksIs(s, i + 1, r);
    }
  }

  lemma SliceOfSlice(s: string, i: nat, e: nat, a: nat, b: nat)
    requires i <= e <= |s| && a <= b <= e - i
    ensures s[i..e][a..b] == s[i + a..i + b]
  {
    forall k | 0 <= k < b - a ensures s[i..e][a..b][k] == s[i + a..i + b][k] {
      assert s[i..e][a..b][k] == s[i..e][a + k] == s[i + (a + k)];
    }
  }

  lemma StandsInSlice(s: string, i: nat, e: nat, k: nat, word: string)
    requires i <= e <= |s| && k + |word| <= e - i
    ensures StandsAt(s[i..e], k, word) <==> StandsAt(s, i + k, word)
  {
    SliceOfSlice(s, i, e, k, k + |word|);
  }

  lemma FenceEndExact(s: string, i: nat, e: nat)
    requires i <= |s|
    ensures PieceEnd(Fences, s, i) == Some(e) <==> i <= e <= |s| && IsFence(s[i..e])
  {
    if i <= e <= |s| && e - i >= 6 {
      forall k: nat | k + 3 <= e - i ensures StandsAt(s[i..e], k, "```") <==> StandsAt(s, i + k, "```") {
        StandsInSlice(s, i, e, k, "```");
      }
      if IsFence(s[i..e]) {
        forall k: nat | i + 3 <= k < e - 3 ensures !StandsAt(s, k, "```") {
          assert !StandsAt(s[i..e], k - i, "```");
        }
        TicksIs(s, i + 3, e - 3);
      }
      if PieceEnd(Fences, s, i) == Some(e) {
        forall k | 3 <= k < e - i - 3 ensures !StandsAt(s[i..e], k, "```") {
          assert !StandsAt(s, i + k, "```");
        }
      }
    }
  }

  lemma CodeEndExact(s: string, i: nat, e: nat)
    requires i < |s| && s[i] == '`'
    ensures CodeEnd(s, i) == Some(e) <==> i <= e <= |s| && IsCodeSpan(s[i..e])
  {
    if i + 2 <= e <= |s| {
      SliceOfSlice(s, i, e, 1, e - i - 1);
      if IsCodeSpan(s[i..e]) {
        FirstIs(s, '`', i + 1, e - 1);
      }
    }
  }

  lemma BoldEndExact(s: string, i: nat, e: nat)
    requires i < |s| && s[i] == '*'
    ensures BoldEnd(s, i) == Some(e) <==> i <= e <= |s| && IsBold(s[i..e])
  {
    if i + 4 <= e <= |s| {
      SliceOfSlice(s, i, e, 2, e - i - 2);
      if IsBold(s[i..e]) {
        FirstIs(s, '*', i + 2, e - 2);
      }
    }
  }

  lemma LinkParts(s: string, i: nat, e: nat, m: nat)
    requires i <= e <= |s| && 1 <= m && m + 3 <= e - i
    ensures IsLinkAt(s[i..e], m) <==>
              && s[i] == '[' && s[i + m] == ']' && ']' !in s[i + 1..i + m]
              && s[i + m + 1] == '(' && s[e - 1] == ')' && ')' !in s[i + m + 2..e - 1]
  {
    SliceOfSlice(s, i, e, 1, m);
    SliceOfSlice(s, i, e, m + 2, e - i - 1);
  }

  lemma LinkIsRead(s: string, i: nat, e: nat, m: nat)
    requires i <= e <= |s| && IsLinkAt(s[i..e], m)
    ensures LinkEnd(s, i) == Some(e)
  {
    LinkParts(s, i, e, m);
    FirstIs(s, ']', i + 1, i + m);
    FirstIs(s, ')', i + m + 2, e - 1);
  }

  lemma ReadIsLink(s: string, i: nat, e: nat)
    requires i < |s| && s[i] == '[' && LinkEnd(s, i) == Some(e)
    ensures i <= e <= |s| && IsLink(s[i..e])
  {
    var m := IndexOf(s, ']', i + 1).value - i;
    LinkParts(s, i, e, m);
    assert IsLinkAt(s[i..e], m);
  }

  lemma LinkEndExact(s: string, i: nat, e: nat)
    requires i < |s| && s[i] == '['
    ensures LinkEnd(s, i) == Some(e) <==> i <= e <= |s| && IsLink(s[i..e])
  {
    if i <= e <= |s| && IsLink(s[i..e]) {
      var m :| 0 <= m < e - i && IsLinkAt(s[i..e], m);
      LinkIsRead(s, i, e, m);
    }
    if LinkEnd(s, i) == Some(e) {
      ReadIsLink(s, i, e);
    }
  }

  // The piece read at i is the only one that begins there; without one, none begins there.
  lemma PieceEndExact(pattern: Pattern, s: string, i: nat, e: nat)
    requires i <= |s|
    ensures PieceEnd(pattern, s, i) == Some(e) <==> i <= e <= |s| && IsPiece(pattern, s[i..e])
  {
    if pattern.Fences? {
      FenceEndExact(s, i, e);
    } else if i < |s| {
      if i < e <= |s| {
        assert s[i..e][0] == s[i];
      }
      if s[i] == '`' {
        CodeEndExact(s, i, e);
      } else if s[i] == '[' {
        LinkEndExact(s, i, e);
      } else if s[i] == '*' {
        BoldEndExact(s, i, e);
      }
    }
  }

  // ---- Splitting ----

  // The first piece at or after i.
  function NextPiece(pattern: Pattern, s: string, i: nat): (piece: Option<(nat, nat)>)
    requires i <= |s|
    decreases |s| - i
  {
    var end := PieceEnd(pattern, s, i);
    if end.Some? then Some((i, end.value))
    else if i < |s| then NextPiece(pattern, s, i + 1)
    else None
  }

  lemma BeginsIffRead(pattern: Pattern, s: string, i: nat)
    requires i <= |s|
    ensures BeginsAt(pattern, s, i) <==> PieceEnd(pattern, s, i).Some?
    ensures PieceEnd(pattern, s, i).Some? ==>
              var end := PieceEnd(pattern, s, i).value; i < end <= |s| && IsPiece(pattern, s[i..end])
  {
    var end := PieceEnd(pattern, s, i);
    if end.Some? {
      PieceEndExact(pattern, s, i, end.value);
      PieceClosed(pattern, s[i..end.value]);
    }
    forall e: nat | i <= e <= |s| && IsPiece(pattern, s[i..e]) ensures end.Some? {
      PieceEndExact(pattern, s, i, e);
    }
  }

  lemma {:induction false} NextPieceExact(pattern: Pattern, s: string, i: nat)
    requires i <= |s|
    ensures NextPiece(pattern, s, i).None? ==> forall k: nat | i <= k <= |s| :: !BeginsAt(pattern, s, k)
    ensures NextPiece(pattern, s, i).Some? ==>
              var (start, end) := NextPiece(pattern, s, i).value;
              && i <= start < end <= |s| && IsPiece(pattern, s[start..end])
              && forall k: nat | i <= k < start :: !BeginsAt(pattern, s, k)
    decreases |s| - i
  {
    BeginsIffRead(pattern, s, i);
    if PieceEnd(pattern, s, i).None? && i < |s| {
      NextPieceExact(pattern, s, i + 1);
    }
  }

  // re.split with the pattern in a group: text and pieces in turn, beginning and ending with text.
  function SplitAt(pattern: Pattern, s: string): seq<string>
    decreases |s|
  {
    NextPieceExact(pattern, s, 0);
    var piece := NextPiece(pattern, s, 0);
    if piece.None? then [s]
    else
      var (start, end) := piece.value;
      [s[..start], s[start..end]] + SplitAt(pattern, s[end..])
  }

  // The parts make up s; every other one, from the second on, is a piece, and none begins in the others.
  ghost predicate IsSplit(pattern: Pattern, s: string, parts: seq<string>)
    decreases |parts|
  {
    if |parts| == 0 || |parts| == 2 then false
    else if |parts| == 1 then parts[0] == s && NoneBefore(pattern, s, |s| + 1)
    else
      && s == parts[0] + (parts[1] + Concat(parts[2..]))
      && IsPiece(pattern, parts[1])
      && NoneBefore(pattern, s, |parts[0]|)
      && IsSplit(pattern, Concat(parts[2..]), parts[2..])
  }

  lemma CutThree(s: string, i: nat, j: nat)
    requires i <= j <= |s|
    ensures s == s[..i] + (s[i..j] + s[j..])
  {
  }

  lemma {:induction false} SplitIsSplit(pattern: Pattern, s: string)
    ensures IsSplit(pattern, s, SplitAt(pattern, s)) && Concat(SplitAt(pattern, s)) == s
    decreases |s|
  {
    NextPieceExact(pattern, s, 0);
    var piece := NextPiece(pattern, s, 0);
    if piece.Some? {
      var (start, end) := piece.value;
      var rest := SplitAt(pattern, s[end..]);
      SplitIsSplit(pattern, s[end..]);
      CutThree(s, start, end);
      var parts := [s[..start], s[start..end]] + rest;
      assert parts[1..][1..] == parts[2..] == rest && parts[1..][0] == s[start..end];
      assert Concat(parts[1..]) == s[start..end] + Concat(rest);
    }
  }

  lemma OnePieceAt(pattern: Pattern, s: string, i: nat, e: nat, e': nat)
    requires i <= e <= |s| && i <= e' <= |s| && IsPiece(pattern, s[i..e]) && IsPiece(pattern, s[i..e'])
    ensures e == e'
  {
    PieceEndExact(pattern, s, i, e);
    PieceEndExact(pattern, s, i, e');
  }

  lemma CutApart(s: string, text: string, piece: string, rest: string)
    requires s == text + (piece + rest)
    ensures var a, b := |text|, |text| + |piece|;
            b <= |s| && s[..a] == text && s[a..b] == piece && s[b..] == rest
  {
    assert s == (text + piece) + rest;
  }

  // The first piece is found where the first text ends.
  lemma PieceFirst(pattern: Pattern, s: string, a: nat, b: nat)
    requires a <= b <= |s| && IsPiece(pattern, s[a..b]) && NoneBefore(pattern, s, a)
    ensures NextPiece(pattern, s, 0) == Some((a, b))
  {
    assert BeginsAt(pattern, s, a);
    NextPieceExact(pattern, s, 0);
    var (start, end) := NextPiece(pattern, s, 0).value;
    assert BeginsAt(pattern, s, start);
    OnePieceAt(pattern, s, a, b, end);
  }

  lemma SplitFirst(pattern: Pattern, s: string, text: string, piece: string, rest: string)
    requires s == text + (piece + rest) && IsPiece(pattern, piece) && NoneBefore(pattern, s, |text|)
    ensures SplitAt(pattern, s) == [text, piece] + SplitAt(pattern, rest)
  {
    CutApart(s, text, piece, rest);
    PieceClosed(pattern, piece);
    PieceFirst(pattern, s, |text|, |text| + |piece|);
  }

  // There is one way to split a text, and SplitAt finds it.
  lemma {:induction false} SplitExact(pattern: Pattern, s: string, parts: seq<string>)
    ensures IsSplit(pattern, s, parts) <==> parts == SplitAt(pattern, s)
    decreases |parts|
  {
    SplitIsSplit(pattern, s);
    if IsSplit(pattern, s, parts) {
      if |parts| == 1 {
        WholeSplit(pattern, s);
      } else {
        SplitFirst(pattern, s, parts[0], parts[1], Concat(parts[2..]));
        SplitExact(pattern, Concat(parts[2..]), parts[2..]);
      }
    }
  }

  lemma WholeSplit(pattern: Pattern, s: string)
    requires NoneBefore(pattern, s, |s| + 1)
    ensures SplitAt(pattern, s) == [s]
  {
    NextPieceExact(pattern, s, 0);
    if NextPiece(pattern, s, 0).Some? {
      assert BeginsAt(pattern, s, NextPiece(pattern, s, 0).value.0);
    }
  }

  // Text and protected pieces in turn, beginning and ending with text.
  ghost predicate Alternates(parts: seq<string>) {
    && |parts| % 2 == 1
    && forall j | 0 <= j < |parts| && j % 2 == 1 :: parts[j] != "" && EndsClosed(parts[j])
  }

  lemma {:induction false} SplitAlternates(pattern: Pattern, s: string, parts: seq<string>)
    requires IsSplit(pattern, s, parts)
    ensures Alternates(parts) && Concat(parts) == s
    ensures forall j | 0 <= j < |parts| && j % 2 == 1 :: IsPiece(pattern, parts[j])
    decreases |parts|
  {
    if |parts| > 1 {
      SplitAlternates(pattern, Concat(parts[2..]), parts[2..]);
      assert parts[1..][1..] == parts[2..] && parts[1..][0] == parts[1];
      assert Concat(parts[1..]) == parts[1] + Concat(parts[2..]);
      PieceClosed(pattern, parts[1]);
      forall j | 0 <= j < |parts| && j % 2 == 1
        ensures IsPiece(pattern, parts[j]) && parts[j] != "" && EndsClosed(parts[j])
      {
        if j > 1 {
          assert parts[j] == parts[2..][j - 2];
        }
      }
    } else {
      assert Concat(parts) == parts[0];
    }
  }

  // Fenced code blocks and the prose between them.
  function SplitFences(body: string): (parts: seq<string>)
    ensures IsSplit(Fences, body, parts) && Alternates(parts) && Concat(parts) == body
  {
    SplitIsSplit(Fences, body);
    SplitAlternates(Fences, body, SplitAt(Fences, body));
    SplitAt(Fences, body)
  }

  // Code spans, links and bold spans, and the plain text between them.
  function SplitSpans(line: string): (segs: seq<string>)
    ensures IsSplit(Spans, line, segs) && Alternates(segs) && Concat(segs) == line
  {
    SplitIsSplit(Spans, line);
    SplitAlternates(Spans, line, SplitAt(Spans, line));
    SplitAt(Spans, line)
  }

  lemma {:induction false} JoinSplit(s: string)
    ensures Join(Split(s, '\n')) == s
  {
    if |s| > 0 {
      JoinSplit(s[1..]);
      var rest := Split(s[1..], '\n');
      if s[0] == '\n' {
        assert ([""] + rest)[1..] == rest;
      } else {
        assert ([[s[0]] + rest[0]] + rest[1..])[1..] == rest[1..];
      }
    }
  }
}

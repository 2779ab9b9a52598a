// Placeholders `${{ env.NAME }}` in resource files: the grammar and the scan that finds them.
module Placeholders {
  import opened Strings
  import opened Wrappers

  // \s in the placeholder pattern, narrower than unicode.IsSpace.
  predicate Blank(c: char) {
    c == '\t' || c == '\n' || c == '\U{c}' || c == '\r' || c == ' '
  }

  predicate NameStart(c: char) {
    'A' <= c <= 'Z' || 'a' <= c <= 'z' || c == '_'
  }

  predicate NameChar(c: char) {
    NameStart(c) || '0' <= c <= '9'
  }

  predicate ValidName(name: string) {
    |name| > 0 && NameStart(name[0]) && forall i | 0 <= i < |name| :: NameChar(name[i])
  }

  predicate AllBlank(s: string) {
    forall i | 0 <= i < |s| :: Blank(s[i])
  }

  // The text of one placeholder with its two stretches of blanks.
  function Render(before: string, name: string, after: string): string {
    "${{" + (before + ("env." + (name + (after + "}}"))))
  }

  ghost predicate IsPlaceholder(text: string, name: string) {
    exists before, after ::
      AllBlank(before) && AllBlank(after) && ValidName(name) && text == Render(before, name, after)
  }

  // A placeholder for name stands at s[i..j].
  ghost predicate Placed(s: string, i: int, j: int, name: string) {
    0 <= i <= j <= |s| && IsPlaceholder(s[i..j], name)
  }

  datatype Hit = Hit(start: nat, end: nat, name: string)

  predicate OpensAt(s: string, i: nat) {
    i + 3 <= |s| && s[i] == '$' && s[i + 1] == '{' && s[i + 2] == '{'
  }

  predicate EnvAt(s: string, i: nat) {
    i + 4 <= |s| && s[i] == 'e' && s[i + 1] == 'n' && s[i + 2] == 'v' && s[i + 3] == '.'
  }

  predicate ClosesAt(s: string, i: nat) {
    i + 2 <= |s| && s[i] == '}' && s[i + 1] == '}'
  }

  function SkipBlanks(s: string, i: nat): (j: nat)
    requires i <= |s|
    ensures i <= j <= |s| && AllBlank(s[i..j])
    ensures j < |s| ==> !Blank(s[j])
    decreases |s| - i
  {
    if i < |s| && Blank(s[i]) then SkipBlanks(s, i + 1) else i
  }

  function NameEnd(s: string, i: nat): (j: nat)
    requires i <= |s|
    ensures i <= j <= |s| && forall k | i <= k < j :: NameChar(s[k])
    ensures j < |s| ==> !NameChar(s[j])
    decreases |s| - i
  {
    if i < |s| && NameChar(s[i]) then NameEnd(s, i + 1) else i
  }

  // The one way to read a placeholder at i: every part takes as much as it can.
  function ParseAt(s: string, i: nat): Option<Hit>
    requires i <= |s|
  {
    if !OpensAt(s, i) then None
    else
      var a := SkipBlanks(s, i + 3);
      if !EnvAt(s, a) || a + 4 >= |s| || !NameStart(s[a + 4]) then None
      else
        var c := NameEnd(s, a + 5);
        var d := SkipBlanks(s, c);
        if !ClosesAt(s, d) then None else Some(Hit(i, d + 2, s[a + 4..c]))
  }

  lemma {:induction false} SkipBlanksIs(s: string, i: nat, j: nat)
    requires i <= j <= |s| && AllBlank(s[i..j]) && (j < |s| ==> !Blank(s[j]))
    ensures SkipBlanks(s, i) == j
    decreases j - i
  {
    if i < j {
      assert s[i] == s[i..j][0];
      assert s[i + 1..j] == s[i..j][1..];
      SkipBlanksIs(s, i + 1, j);
    }
  }

  lemma {:induction false} NameEndIs(s: string, i: nat, j: nat)
    requires i <= j <= |s| && (forall k | i <= k < j :: NameChar(s[k])) && (j < |s| ==> !NameChar(s[j]))
    ensures NameEnd(s, i) == j
    decreases j - i
  {
    if i < j {
      NameEndIs(s, i + 1, j);
    }
  }

  lemma Cut(s: string, i: nat, j: nat, x: string, y: string)
    requires i <= j <= |s| && s[i..j] == x + y
    ensures i + |x| + |y| == j && s[i..i + |x|] == x && s[i + |x|..j] == y
  {
    assert s[i..i + |x|] == s[i..j][..|x|];
    assert s[i + |x|..j] == s[i..j][|x|..];
  }

  lemma BlanksThen(s: string, i: nat, j: nat)
    requires i <= j < |s| && AllBlank(s[i..j]) && !Blank(s[j])
    ensures SkipBlanks(s, i) == j
  {
    SkipBlanksIs(s, i, j);
  }

  // Where the parts of a placeholder lie.
  lemma Parts(s: string, i: nat, j: nat, before: string, name: string, after: string)
    returns (a: nat, c: nat, d: nat)
    requires i <= j <= |s| && s[i..j] == Render(before, name, after)
    ensures i + 3 <= a && a + 4 + |name| == c <= d && d + 2 == j
    ensures OpensAt(s, i) && EnvAt(s, a) && ClosesAt(s, d)
    ensures s[i + 3..a] == before && s[a + 4..c] == name && s[c..d] == after
  {
    a := CutHead(s, i, j, before, name + (after + "}}"));
    c, d := a + 4 + |name|, j - 2;
    CutTail(s, a + 4, j, name, after);
  }

  lemma CutHead(s: string, i: nat, j: nat, before: string, tail: string) returns (a: nat)
    requires i <= j <= |s| && s[i..j] == "${{" + (before + ("env." + tail))
    ensures i + 3 + |before| == a && a + 4 + |tail| == j
    ensures OpensAt(s, i) && EnvAt(s, a) && s[i + 3..a] == before && s[a + 4..j] == tail
  {
    a := i + 3 + |before|;
    Cut(s, i, j, "${{", before + ("env." + tail));
    Cut(s, i + 3, j, before, "env." + tail);
    Cut(s, a, j, "env.", tail);
    Chars(s, i, i + 3);
    Chars(s, a, a + 4);
  }

  lemma CutTail(s: string, i: nat, j: nat, name: string, after: string)
    requires i <= j <= |s| && s[i..j] == name + (after + "}}")
    ensures i + |name| <= j - 2 && s[i..i + |name|] == name && s[i + |name|..j - 2] == after && ClosesAt(s, j - 2)
  {
    Cut(s, i, j, name, after + "}}");
    Cut(s, i + |name|, j, after, "}}");
    Chars(s, j - 2, j);
  }

  lemma Chars(s: string, i: nat, j: nat)
    requires i <= j <= |s|
    ensures forall k | i <= k < j :: s[k] == s[i..j][k - i]
  {
  }

  lemma NameSpan(s: string, b: nat, c: nat, name: string)
    requires b <= c < |s| && s[b..c] == name && ValidName(name) && !NameChar(s[c])
    ensures NameStart(s[b]) && NameEnd(s, b + 1) == c
  {
    forall k | b <= k < c ensures s[k] == name[k - b] {
      assert s[k] == s[b..c][k - b];
    }
    NameEndIs(s, b + 1, c);
  }

  lemma ParseFinds(s: string, i: nat, j: nat, before: string, name: string, after: string)
    requires i <= j <= |s| && AllBlank(before) && AllBlank(after) && ValidName(name)
    requires s[i..j] == Render(before, name, after)
    ensures ParseAt(s, i) == Some(Hit(i, j, name))
  {
    var a, c, d := Parts(s, i, j, before, name, after);
    ParseParts(s, i, a, c, d);
  }

  lemma ParseParts(s: string, i: nat, a: nat, c: nat, d: nat)
    requires i + 3 <= a && a + 4 < c <= d && d + 2 <= |s|
    requires OpensAt(s, i) && EnvAt(s, a) && ClosesAt(s, d)
    requires AllBlank(s[i + 3..a]) && AllBlank(s[c..d]) && ValidName(s[a + 4..c])
    ensures ParseAt(s, i) == Some(Hit(i, d + 2, s[a + 4..c]))
  {
    BlanksThen(s, i + 3, a);
    NameThenBlanks(s, a + 4, c, d);
  }

  // The name ends where the blanks or the closing braces begin.
  lemma NameThenBlanks(s: string, b: nat, c: nat, d: nat)
    requires b < c <= d && d + 2 <= |s| && ClosesAt(s, d) && AllBlank(s[c..d]) && ValidName(s[b..c])
    ensures NameStart(s[b]) && NameEnd(s, b + 1) == c && SkipBlanks(s, c) == d
  {
    BlanksThen(s, c, d);
    if c < d {
      FirstChar(s, c, d);
    }
    assert !NameChar(s[c]);
    NameSpan(s, b, c, s[b..c]);
  }

  lemma FirstChar(s: string, i: nat, j: nat)
    requires i < j <= |s|
    ensures s[i] == s[i..j][0]
  {
  }

  // The parts of what was read at i.
  lemma ReadParts(s: string, i: nat) returns (a: nat, c: nat, d: nat)
    requires i <= |s| && ParseAt(s, i).Some?
    ensures i + 3 <= a && a + 4 < c <= d && d + 2 <= |s|
    ensures OpensAt(s, i) && EnvAt(s, a) && ClosesAt(s, d)
    ensures AllBlank(s[i + 3..a]) && AllBlank(s[c..d])
    ensures NameStart(s[a + 4]) && forall k | a + 4 < k < c :: NameChar(s[k])
    ensures ParseAt(s, i) == Some(Hit(i, d + 2, s[a + 4..c]))
  {
    a := SkipBlanks(s, i + 3);
    c := NameEnd(s, a + 5);
    d := SkipBlanks(s, c);
  }

  lemma ParseSound(s: string, i: nat)
    requires i <= |s| && ParseAt(s, i).Some?
    ensures var hit := ParseAt(s, i).value;
            hit.start == i && i < hit.end && Placed(s, i, hit.end, hit.name)
  {
    var a, c, d := ReadParts(s, i);
    NameFrom(s, a + 4, c);
    Assemble(s, i, a, c, d);
  }

  lemma Assemble(s: string, i: nat, a: nat, c: nat, d: nat)
    requires i + 3 <= a && a + 4 <= c <= d && d + 2 <= |s|
    requires OpensAt(s, i) && EnvAt(s, a) && ClosesAt(s, d)
    requires AllBlank(s[i + 3..a]) && AllBlank(s[c..d]) && ValidName(s[a + 4..c])
    ensures Placed(s, i, d + 2, s[a + 4..c])
  {
    GlueAll(s, i, a, c, d);
    assert s[i..i + 3] == "${{" && s[a..a + 4] == "env." && s[d..d + 2] == "}}";
    assert s[i..d + 2] == Render(s[i + 3..a], s[a + 4..c], s[c..d]);
  }

  lemma GlueAll(s: string, i: nat, a: nat, c: nat, d: nat)
    requires i + 3 <= a && a + 4 <= c <= d && d + 2 <= |s|
    ensures s[i..d + 2] ==
            s[i..i + 3] + (s[i + 3..a] + (s[a..a + 4] + (s[a + 4..c] + (s[c..d] + s[d..d + 2]))))
  {
    Glue(s, c, d, d + 2);
    Glue(s, a + 4, c, d + 2);
    Glue(s, a, a + 4, d + 2);
    Glue(s, i + 3, a, d + 2);
    Glue(s, i, i + 3, d + 2);
  }

  lemma Glue(s: string, i: nat, k: nat, j: nat)
    requires i <= k <= j <= |s|
    ensures s[i..j] == s[i..k] + s[k..j]
  {
  }

  lemma NameFrom(s: string, b: nat, c: nat)
    requires b < c <= |s| && NameStart(s[b]) && forall k | b < k < c :: NameChar(s[k])
    ensures ValidName(s[b..c])
  {
  }

  // Reading at i finds a placeholder exactly when there is one at i, and there is at most one.
  lemma ParseExact(s: string, i: nat, j: nat, name: string)
    requires i <= |s|
    ensures ParseAt(s, i) == Some(Hit(i, j, name)) <==> Placed(s, i, j, name)
  {
    if Placed(s, i, j, name) {
      var before, after :|
        AllBlank(before) && AllBlank(after) && ValidName(name) && s[i..j] == Render(before, name, after);
      ParseFinds(s, i, j, before, name, after);
    }
    if ParseAt(s, i) == Some(Hit(i, j, name)) {
      ParseSound(s, i);
    }
  }

  // A placeholder starts with the only dollar sign in it.
  lemma OneDollar(text: string, name: string)
    requires IsPlaceholder(text, name)
    ensures |text| > 0 && text[0] == '$' && '$' !in text[1..]
  {
    var before, after :|
      AllBlank(before) && AllBlank(after) && ValidName(name) && text == Render(before, name, after);
    assert text[1..] == "{{" + (before + ("env." + (name + (after + "}}"))));
  }

  // No two placeholders overlap.
  lemma NoOverlap(s: string, i: int, j: int, name: string, i': int, j': int, name': string)
    requires Placed(s, i, j, name) && Placed(s, i', j', name') && i < i'
    ensures j <= i'
  {
    OneDollar(s[i..j], name);
    OneDollar(s[i'..j'], name');
    assert s[i'] == s[i'..j'][0] == '$';
    forall k | i < k < j ensures s[k] != '$' {
      assert s[k] == s[i..j][1..][k - i - 1];
    }
  }

  // FindAll: left to right, going on after each match.
  method FindAll(line: string) returns (hits: seq<Hit>)
    ensures forall i, j, name :: Placed(line, i, j, name) <==> 0 <= i && 0 <= j && Hit(i, j, name) in hits
    ensures forall m, n | 0 <= m < n < |hits| :: hits[m].end <= hits[n].start
  {
    hits := [];
    var pos := 0;
    while pos < |line|
      invariant pos <= |line|
      invariant forall h | h in hits :: Placed(line, h.start, h.end, h.name) && h.end <= pos
      invariant forall i, j, name | Placed(line, i, j, name) && i < pos :: Hit(i, j, name) in hits
      invariant forall m, n | 0 <= m < n < |hits| :: hits[m].end <= hits[n].start
      decreases |line| - pos
    {
      var found := ParseAt(line, pos);
      ghost var was := hits;
      forall i, j, name | Placed(line, i, j, name) && i == pos ensures found == Some(Hit(i, j, name)) {
        ParseExact(line, pos, j, name);
      }
      if found.Some? {
        var hit := found.value;
        ParseSound(line, pos);
        forall i, j, name | Placed(line, i, j, name) && pos < i ensures hit.end <= i {
          NoOverlap(line, pos, hit.end, hit.name, i, j, name);
        }
        hits := hits + [hit];
        pos := hit.end;
      } else {
        pos := pos + 1;
      }
    }
    forall i, j, name | Placed(line, i, j, name) ensures i < pos {
      OneDollar(line[i..j], name);
    }
  }

  // The grammar spelled out: blanks are tab, line feed, form feed, carriage return and space; a name begins with a
  // letter or an underscore and goes on with letters, digits and underscores.
  predicate SpelledBlanks(s: string) {
    forall i | 0 <= i < |s| :: s[i] in {'\U{9}', '\U{a}', '\U{c}', '\U{d}', ' '}
  }

  predicate SpelledName(name: string) {
    && |name| > 0 && !('0' <= name[0] <= '9')
    && forall i | 0 <= i < |name| ::
         'a' <= name[i] <= 'z' || 'A' <= name[i] <= 'Z' || '0' <= name[i] <= '9' || name[i] == '_'
  }

  lemma GrammarSpelled(text: string, name: string)
    ensures IsPlaceholder(text, name) <==>
            exists before, after ::
              && SpelledBlanks(before) && SpelledBlanks(after) && SpelledName(name)
              && text == "${{" + before + "env." + name + after + "}}"
  {
    forall before, after
      ensures AllBlank(before) <==> SpelledBlanks(before)
      ensures Render(before, name, after) == "${{" + before + "env." + name + after + "}}"
    {
      RenderFlat(before, name, after);
    }
    assert ValidName(name) <==> SpelledName(name);
    if IsPlaceholder(text, name) {
      var before, after :|
        AllBlank(before) && AllBlank(after) && ValidName(name) && text == Render(before, name, after);
      assert SpelledBlanks(before) && SpelledBlanks(after);
      RenderFlat(before, name, after);
    }
    if before, after :|
      && SpelledBlanks(before) && SpelledBlanks(after) && SpelledName(name)
      && text == "${{" + before + "env." + name + after + "}}"
    {
      RenderFlat(before, name, after);
      assert AllBlank(before) && AllBlank(after);
    }
  }

  lemma RenderFlat(before: string, name: string, after: string)
    ensures Render(before, name, after) == "${{" + before + "env." + name + after + "}}"
  {
    assert Render(before, name, after) == "${{" + (before + ("env." + (name + (after + "}}"))));
  }

  // ---- Names in a set of files ----

  predicate IsComment(line: string) {
    "#" <= TrimSpace(line)
  }

  // A comment line: a hash sign after nothing but spaces.
  lemma CommentIs(line: string)
    ensures IsComment(line) <==> exists n | 0 <= n < |line| ::
              line[n] == '#' && forall i | 0 <= i < n :: SpelledSpace(line[i])
  {
    var n := TrimmedTo(line);
    if n < |line| {
      TrimRightKeepsFirst(line[n..]);
    }
    assert forall m | 0 <= m < |line| && line[m] == '#' && (forall i | 0 <= i < m :: SpelledSpace(line[i])) :: m == n;
  }

  // Where what is left after trimming on the left begins.
  lemma {:induction false} TrimmedTo(line: string) returns (n: nat)
    ensures n <= |line| && TrimLeft(line) == line[n..] && forall i | 0 <= i < n :: SpelledSpace(line[i])
    ensures n < |line| ==> !SpelledSpace(line[n])
  {
    n := 0;
    if |line| > 0 && SpelledSpace(line[0]) {
      var m := TrimmedTo(line[1..]);
      n := m + 1;
    }
  }

  lemma {:induction false} TrimRightKeepsFirst(s: string)
    requires |s| > 0 && !SpelledSpace(s[0])
    ensures |TrimRight(s)| > 0 && TrimRight(s)[0] == s[0]
  {
    if IsSpace(s[|s| - 1]) {
      TrimRightKeepsFirst(s[..|s| - 1]);
    }
  }

  ghost predicate OccursIn(line: string, name: string) {
    !IsComment(line) && Stands(line, name)
  }

  // The name stands in some line that is not a comment, of some file.
  ghost predicate OccursInFile(content: string, name: string) {
    OccursBefore(Split(content, '\n'), |Split(content, '\n')|, name)
  }

  ghost predicate Occurs(files: seq<string>, name: string) {
    exists f | 0 <= f < |files| :: OccursInFile(files[f], name)
  }

  ghost predicate Collected(names: seq<string>, seen: set<string>) {
    Distinct(names) && forall x :: x in seen <==> x in names
  }

  ghost predicate Names(hits: seq<Hit>, n: nat, x: string)
    requires n <= |hits|
  {
    exists m | 0 <= m < n :: hits[m].name == x
  }

  ghost predicate Stands(line: string, x: string) {
    exists i, j :: Placed(line, i, j, x)
  }

  method CollectLine(line: string, seen: set<string>, names: seq<string>)
    returns (seen': set<string>, names': seq<string>)
    requires Collected(names, seen)
    ensures Collected(names', seen')
    ensures forall x :: x in seen' <==> x in seen || OccursIn(line, x)
  {
    seen', names' := seen, names;
    if IsComment(line) {
      return;
    }
    var hits := FindAll(line);
    for h := 0 to |hits|
      invariant Collected(names', seen')
      invariant forall x :: x in seen' <==> x in seen || Names(hits, h, x)
    {
      var name := hits[h].name;
      if name !in seen' {
        ghost var was := names';
        seen' := seen' + {name};
        names' := names' + [name];
        assert forall x :: x in names' <==> x in was || x == name;
      }
    }
    forall x ensures Names(hits, |hits|, x) <==> Stands(line, x) {
      if Names(hits, |hits|, x) {
        var m :| 0 <= m < |hits| && hits[m].name == x;
        assert hits[m] in hits && hits[m] == Hit(hits[m].start, hits[m].end, x);
        assert Placed(line, hits[m].start, hits[m].end, x);
      }
      if Stands(line, x) {
        var i, j :| Placed(line, i, j, x);
        assert Hit(i, j, x) in hits;
      }
    }
  }

  method CollectFile(content: string, seen: set<string>, names: seq<string>)
    returns (seen': set<string>, names': seq<string>)
    requires Collected(names, seen)
    ensures Collected(names', seen')
    ensures forall x :: x in seen' <==> x in seen || OccursInFile(content, x)
  {
    seen', names' := seen, names;
    var lines := Split(content, '\n');
    for l := 0 to |lines|
      invariant Collected(names', seen')
      invariant forall x :: x in seen' <==> x in seen || OccursBefore(lines, l, x)
    {
      seen', names' := CollectLine(lines[l], seen', names');
    }
  }

  ghost predicate OccursBefore(lines: seq<string>, n: nat, x: string)
    requires n <= |lines|
  {
    exists l | 0 <= l < n :: OccursIn(lines[l], x)
  }

  // All names that occur, sorted, each once.
  method PlaceholderNames(files: seq<string>) returns (names: seq<string>)
    ensures StrictlySorted(names)
    ensures forall x :: x in names <==> Occurs(files, x)
  {
    var seen: set<string> := {};
    names := [];
    for f := 0 to |files|
      invariant Collected(names, seen)
      invariant forall x :: x in seen <==> Occurs(files[..f], x)
    {
      seen, names := CollectFile(files[f], seen, names);
      assert files[..f + 1] == files[..f] + [files[f]];
      forall x ensures Occurs(files[..f + 1], x) <==> Occurs(files[..f], x) || OccursInFile(files[f], x) {
        OccursNext(files[..f], files[f], x);
      }
    }
    assert files[..|files|] == files;
    SortDistinct(names);
    names := Sort(names);
  }

  lemma OccursNext(files: seq<string>, content: string, x: string)
    ensures Occurs(files + [content], x) <==> Occurs(files, x) || OccursInFile(content, x)
  {
    assert (files + [content])[|files|] == content;
    forall f | 0 <= f < |files| ensures (files + [content])[f] == files[f] {
    }
  }
}

// One run of the docs script on a page, and many: which targets count as linked, and how that changes.
module DocsRuns {
  import opened DocsLinks
  import opened FirstMentions
  import opened PageParts
  import opened Strings
  import opened TextEdits
  import opened Wrappers

  // ---- Mentions: links to a target with or without a fragment ----

  // The characters beyond ASCII that Python counts as word characters.
  type WordChars = char -> bool

  // [\w-]
  predicate FragmentChar(word: WordChars, c: char) {
    (SlugChar(c) && c != '/') || (c >= '\U{80}' && word(c))
  }

  predicate IsFragment(word: WordChars, f: string) {
    f == "" || (|f| >= 2 && f[0] == '#' && forall k | 1 <= k < |f| :: FragmentChar(word, f[k]))
  }

  // The closing part of a link to the target.
  predicate IsMention(word: WordChars, s: string, target: string) {
    var end := 3 + |target|;
    && |s| > end
    && s[..end] == "](/" + target
    && IsFragment(word, s[end..|s| - 1])
    && s[|s| - 1] == ')'
  }

  predicate SpelledFragment(word: WordChars, f: string) {
    |f| > 0 && forall k | 0 <= k < |f| ::
      || 'a' <= f[k] <= 'z' || 'A' <= f[k] <= 'Z' || '0' <= f[k] <= '9' || f[k] == '_' || f[k] == '-'
      || (f[k] as int >= 128 && word(f[k]))
  }

  // A mention spelled out: the closing part of a link to the target, with a fragment of letters, digits, underscores
  // and hyphens or without one.
  lemma MentionSpelled(word: WordChars, s: string, target: string)
    ensures IsMention(word, s, target) <==>
              || s == "](/" + target + ")"
              || exists f :: SpelledFragment(word, f) && s == "](/" + target + ("#" + f) + ")"
  {
    if IsMention(word, s, target) {
      FragmentOfMention(word, s, target);
    }
    if s == "](/" + target + ")" {
      assert s == "](/" + target + "" + ")";
      MentionWith(word, s, target, "");
    }
    if f :| SpelledFragment(word, f) && s == "](/" + target + ("#" + f) + ")" {
      FragmentSpelled(word, f);
      MentionWith(word, s, target, "#" + f);
    }
  }

  lemma FragmentSpelled(word: WordChars, f: string)
    ensures IsFragment(word, "#" + f) <==> SpelledFragment(word, f)
  {
    forall k | 1 <= k < |"#" + f| ensures ("#" + f)[k] == f[k - 1] {
    }
    assert forall k | 0 <= k < |f| :: ("#" + f)[k + 1] == f[k];
  }

  lemma FragmentOfMention(word: WordChars, s: string, target: string)
    requires IsMention(word, s, target)
    ensures || s == "](/" + target + ")"
            || exists f :: SpelledFragment(word, f) && s == "](/" + target + ("#" + f) + ")"
  {
    var end := 3 + |target|;
    var f := s[end..|s| - 1];
    assert s == s[..end] + f + [s[|s| - 1]];
    if f == "" {
      assert s == "](/" + target + ")";
    } else {
      assert f == "#" + f[1..];
      FragmentSpelled(word, f[1..]);
    }
  }

  lemma MentionWith(word: WordChars, s: string, target: string, f: string)
    requires IsFragment(word, f) && s == "](/" + target + f + ")"
    ensures IsMention(word, s, target)
  {
    var end := 3 + |target|;
    assert s[..end] == "](/" + target && s[end..|s| - 1] == f && s[|s| - 1] == ')';
  }

  predicate MentionAt(word: WordChars, text: string, i: nat, j: nat, target: string) {
    i <= j <= |text| && IsMention(word, text[i..j], target)
  }

  predicate Mentions(word: WordChars, text: string, target: string) {
    exists i: nat, j: nat | i <= j <= |text| :: MentionAt(word, text, i, j, target)
  }

  lemma LinksAreMentions(word: WordChars, text: string, target: string)
    requires LinksTo(text, target)
    ensures Mentions(word, text, target)
  {
    var i: nat :| ClosesAt(text, i, target);
    var s := Close(target);
    assert s == ("](/" + target) + ")";
    assert s[..3 + |target|] == "](/" + target && s[3 + |target|..|s| - 1] == "" && s[3 + |target|] == ')';
    assert MentionAt(word, text, i, i + |s|, target);
  }

  // The characters of a mention.
  lemma MentionChars(word: WordChars, s: string, t: string)
    requires IsMention(word, s, t) && IsSlug(t)
    ensures s[0] == ']' && s[1] == '(' && s[2] == '/'
    ensures forall k | 0 <= k < |t| :: s[3 + k] == t[k] && SlugChar(s[3 + k])
    ensures s[3 + |t|] == if |s| == 4 + |t| then ')' else '#'
    ensures forall k | 3 + |t| < k < |s| - 1 :: FragmentChar(word, s[k])
    ensures s[|s| - 1] == ')'
  {
    var end, head := 3 + |t|, "](/" + t;
    forall k | 0 <= k < end ensures s[k] == head[k] {
      assert s[..end][k] == s[k];
    }
    forall k | 0 <= k < |t| ensures s[3 + k] == t[k] {
      assert head[3 + k] == t[k];
    }
    var f := s[end..|s| - 1];
    forall k | end <= k < |s| - 1 ensures s[k] == f[k - end] {
    }
  }

  // ---- What one insertion does to mentions ----

  // The edit lies between the mention's # and its closing parenthesis.
  predicate InFragment(e: Edit, i: nat, j: nat) {
    i < e.start && e.end <= j
  }

  // A phrase overlaps a mention only inside the fragment.
  lemma PhraseMissesMention(word: WordChars, text: string, e: Edit, i: nat, j: nat, t: string)
    requires PhraseAt(text, e.start, e.end) && MentionAt(word, text, i, j, t) && IsSlug(t)
    ensures j <= e.start || e.end <= i || (i + 3 + |t| < e.start && e.end < j)
  {
    var s := text[i..j];
    MentionChars(word, s, t);
    forall k | 0 <= k < |s| ensures text[i + k] == s[k] {
    }
    forall k | i + 2 <= k < i + 3 + |t| ensures SlugChar(text[k]) {
      assert text[k] == s[k - i];
    }
    assert text[i] == ']' && text[i + 1] == '(' && text[i + 2] == '/' && text[j - 1] == ')';
    assert text[i + 3 + |t|] == s[3 + |t|];
  }

  function Shift(e: Edit): nat {
    1 + |Close(e.target)|
  }

  lemma CharsBefore(text: string, e: Edit)
    requires e.start <= e.end <= |text|
    ensures |Apply(text, e)| == |text| + Shift(e)
    ensures forall k | 0 <= k < e.start :: Apply(text, e)[k] == text[k]
  {
    ApplyParts(text, e);
    SameChars(Apply(text, e), 0, text, 0, e.start);
  }

  lemma CharsAfter(text: string, e: Edit)
    requires e.start <= e.end <= |text|
    ensures |Apply(text, e)| == |text| + Shift(e)
    ensures forall k | e.end <= k < |text| :: Apply(text, e)[k + Shift(e)] == text[k]
  {
    ApplyParts(text, e);
    SameChars(Apply(text, e), e.end + Shift(e), text, e.end, |text| - e.end);
  }

  lemma CharsOfLink(text: string, e: Edit)
    requires e.start <= e.end <= |text|
    ensures |Apply(text, e)| == |text| + Shift(e) && Apply(text, e)[e.start] == '['
    ensures forall k | e.start < k <= e.end :: Apply(text, e)[k] == text[k - 1]
    ensures ClosesAt(Apply(text, e), e.end + 1, e.target)
  {
    ApplyParts(text, e);
    SameChars(Apply(text, e), e.start + 1, text, e.start, e.end - e.start);
  }

  lemma SameChars(x: string, i: nat, y: string, j: nat, n: nat)
    requires i + n <= |x| && j + n <= |y| && x[i..i + n] == y[j..j + n]
    ensures forall k | i <= k < i + n :: x[k] == y[k - i + j]
    ensures forall k | j <= k < j + n :: x[k - j + i] == y[k]
  {
    forall k | i <= k < i + n ensures x[k] == y[k - i + j] {
      assert x[i..i + n][k - i] == y[j..j + n][k - i];
    }
    forall k | j <= k < j + n ensures x[k - j + i] == y[k] {
      assert x[i..i + n][k - j] == y[j..j + n][k - j];
    }
  }

  // A mention the phrase does not lie in is still one, moved if it comes after.
  lemma MentionKept(word: WordChars, text: string, e: Edit, i: nat, j: nat, t: string)
    requires PhraseAt(text, e.start, e.end) && MentionAt(word, text, i, j, t) && IsSlug(t) && !InFragment(e, i, j)
    ensures if j <= e.start then MentionAt(word, Apply(text, e), i, j, t)
            else e.end <= i && MentionAt(word, Apply(text, e), i + Shift(e), j + Shift(e), t)
  {
    PhraseMissesMention(word, text, e, i, j, t);
    CharsBefore(text, e);
    CharsAfter(text, e);
    var out := Apply(text, e);
    if j <= e.start {
      assert out[i..j] == text[i..j];
    } else {
      assert out[i + Shift(e)..j + Shift(e)] == text[i..j];
    }
  }

  lemma MentionOpens(word: WordChars, out: string, i: nat, j: nat, t: string)
    requires MentionAt(word, out, i, j, t) && IsSlug(t)
    ensures i + 4 <= j && out[i] == ']' && forall k | i < k < j :: out[k] != '[' && out[k] != ']'
  {
    var s := out[i..j];
    MentionChars(word, s, t);
    forall k | i < k < j ensures out[k] != '[' && out[k] != ']' {
      assert out[k] == s[k - i];
      assert k - i < 3 || k - i == 3 + |t| || k - i == |s| - 1 || SlugChar(s[k - i]) || FragmentChar(word, s[k - i]);
    }
  }

  // A mention that is not clear of the insertion begins where the inserted link closes.
  lemma MentionAtInsert(word: WordChars, text: string, e: Edit, i: nat, j: nat, t: string)
    requires PhraseAt(text, e.start, e.end) && IsSlug(e.target) && IsSlug(t) && MentionAt(word, Apply(text, e), i, j, t)
    requires e.start < j && i < e.end + Shift(e)
    ensures i == e.end + 1
  {
    CharsOfLink(text, e);
    MentionOpens(word, Apply(text, e), i, j, t);
    OneBracket(text, e);
  }

  // The link put in has one closing bracket, after its text.
  lemma OneBracket(text: string, e: Edit)
    requires PhraseAt(text, e.start, e.end) && IsSlug(e.target)
    ensures forall k | e.start <= k < e.end + Shift(e) && k != e.end + 1 :: Apply(text, e)[k] != ']'
  {
    var out, close := Apply(text, e), Close(e.target);
    CharsOfLink(text, e);
    CloseHasOneBracket(e.target);
    forall k | e.start <= k < e.end + Shift(e) && k != e.end + 1 ensures out[k] != ']' {
      if e.start < k <= e.end {
        assert out[k] == text[k - 1] && !MarkupChar(text[k - 1]);
      } else if e.end + 1 < k {
        CharAt(out, e.end + 1, close, k - (e.end + 1));
      }
    }
  }

  lemma CloseHasOneBracket(t: string)
    requires IsSlug(t)
    ensures forall k | 0 < k < |Close(t)| :: Close(t)[k] != ']'
  {
    var close := Close(t);
    forall k | 0 < k < |close| ensures close[k] != ']' {
      assert close[k] == if k == 1 then '(' else if k == 2 then '/' else if k == 3 + |t| then ')' else t[k - 3];
    }
  }

  // Every mention in the new text was one before, or is the inserted link.
  lemma MentionFrom(word: WordChars, text: string, e: Edit, i: nat, j: nat, t: string)
    requires PhraseAt(text, e.start, e.end) && IsSlug(e.target) && IsSlug(t) && MentionAt(word, Apply(text, e), i, j, t)
    ensures || t == e.target
            || (j <= e.start && MentionAt(word, text, i, j, t))
            || (e.end + Shift(e) <= i && MentionAt(word, text, i - Shift(e), j - Shift(e), t))
  {
    var out := Apply(text, e);
    CharsBefore(text, e);
    CharsAfter(text, e);
    CharsOfLink(text, e);
    if j <= e.start {
      assert out[i..j] == text[i..j];
    } else if e.end + Shift(e) <= i {
      assert out[i..j] == text[i - Shift(e)..j - Shift(e)];
    } else {
      MentionAtInsert(word, text, e, i, j, t);
      SameTarget(word, out, i, j, t, e.target);
    }
  }

  lemma SlugRun(out: string, from: nat, m: nat, n: nat)
    requires from + m < |out| && (forall k | from <= k < from + m :: SlugChar(out[k])) && !SlugChar(out[from + m])
    requires from + n < |out| && (forall k | from <= k < from + n :: SlugChar(out[k])) && !SlugChar(out[from + n])
    ensures m == n
  {
  }

  // What closes at i is a link to one target only.
  lemma SameTarget(word: WordChars, out: string, i: nat, j: nat, t: string, u: string)
    requires MentionAt(word, out, i, j, t) && ClosesAt(out, i, u) && IsSlug(t) && IsSlug(u)
    ensures t == u
  {
    MentionChars(word, out[i..j], t);
    CloseChars(out, i, u);
    forall k | i <= k < j ensures out[k] == out[i..j][k - i] {
    }
    forall k | i + 3 <= k < i + 3 + |t| ensures out[k] == t[k - i - 3] && SlugChar(out[k]) {
      assert out[k] == out[i..j][3 + (k - i - 3)];
    }
    forall k | i + 3 <= k < i + 3 + |u| ensures out[k] == u[k - i - 3] && SlugChar(out[k]) {
    }
    SlugRun(out, i + 3, |t|, |u|);
    forall k | 0 <= k < |t| ensures t[k] == u[k] {
      assert out[i + 3 + k] == t[k];
    }
  }

  // After an insertion a target is mentioned exactly if it is the one inserted, or if some mention of it does
  // not have the insertion inside its fragment.
  lemma MentionedAfterInsert(word: WordChars, text: string, e: Edit, t: string)
    requires PhraseAt(text, e.start, e.end) && IsSlug(e.target) && IsSlug(t)
    ensures Mentions(word, Apply(text, e), t) <==>
            t == e.target || exists i: nat, j: nat :: MentionAt(word, text, i, j, t) && !InFragment(e, i, j)
  {
    if t == e.target {
      InsertLinks(text, e);
      LinksAreMentions(word, Apply(text, e), t);
    } else {
      if Mentions(word, Apply(text, e), t) {
        var i: nat, j: nat :| MentionAt(word, Apply(text, e), i, j, t);
        MentionFrom(word, text, e, i, j, t);
      }
      if i: nat, j: nat :| MentionAt(word, text, i, j, t) && !InFragment(e, i, j) {
        MentionKept(word, text, e, i, j, t);
      }
    }
  }

  // ---- What a run does to mentions ----

  // None of the edits, made one after the other, lies inside the fragment of the mention at i..j.
  predicate LeftWhole(i: nat, j: nat, edits: seq<Edit>)
    decreases |edits|
  {
    if |edits| == 0 then true
    else if j <= edits[0].start then LeftWhole(i, j, edits[1..])
    else edits[0].end <= i && LeftWhole(i + Shift(edits[0]), j + Shift(edits[0]), edits[1..])
  }

  ghost predicate StaysWhole(word: WordChars, text: string, edits: seq<Edit>, t: string) {
    exists i: nat, j: nat :: MentionAt(word, text, i, j, t) && LeftWhole(i, j, edits)
  }

  lemma WholeToNext(word: WordChars, text: string, e: Edit, rest: seq<Edit>, i: nat, j: nat, t: string)
    requires PhraseAt(text, e.start, e.end) && IsSlug(t)
    requires MentionAt(word, text, i, j, t) && LeftWhole(i, j, [e] + rest)
    ensures StaysWhole(word, Apply(text, e), rest, t)
  {
    assert ([e] + rest)[1..] == rest;
    MentionKept(word, text, e, i, j, t);
  }

  lemma WholeFromNext(word: WordChars, text: string, e: Edit, rest: seq<Edit>, i: nat, j: nat, t: string)
    requires PhraseAt(text, e.start, e.end) && IsSlug(e.target) && IsSlug(t) && t != e.target
    requires MentionAt(word, Apply(text, e), i, j, t) && LeftWhole(i, j, rest)
    ensures StaysWhole(word, text, [e] + rest, t)
  {
    assert ([e] + rest)[1..] == rest;
    MentionFrom(word, text, e, i, j, t);
    if j <= e.start {
      assert LeftWhole(i, j, [e] + rest);
    } else {
      assert LeftWhole(i - Shift(e), j - Shift(e), [e] + rest);
    }
  }

  lemma WholeAfterOne(word: WordChars, text: string, e: Edit, rest: seq<Edit>, t: string)
    requires PhraseAt(text, e.start, e.end) && IsSlug(e.target) && IsSlug(t) && t != e.target
    ensures StaysWhole(word, text, [e] + rest, t) <==> StaysWhole(word, Apply(text, e), rest, t)
  {
    if StaysWhole(word, text, [e] + rest, t) {
      var i: nat, j: nat :| MentionAt(word, text, i, j, t) && LeftWhole(i, j, [e] + rest);
      WholeToNext(word, text, e, rest, i, j, t);
    }
    if StaysWhole(word, Apply(text, e), rest, t) {
      var i: nat, j: nat :| MentionAt(word, Apply(text, e), i, j, t) && LeftWhole(i, j, rest);
      WholeFromNext(word, text, e, rest, i, j, t);
    }
  }

  // After a run a target is mentioned exactly if the run linked it, or if some mention of it was left whole by
  // all its edits.
  lemma {:induction false} MentionedAfterRun(
      word: WordChars, before: string, edits: seq<Edit>, after: string, t: string)
    requires Edited(before, edits, after) && IsSlug(t)
    ensures Mentions(word, after, t) <==> t in TargetsOf(edits) || StaysWhole(word, before, edits, t)
    decreases |edits|
  {
    if |edits| == 0 {
      if Mentions(word, before, t) {
        var i: nat, j: nat :| MentionAt(word, before, i, j, t);
        assert LeftWhole(i, j, edits);
      }
    } else {
      var e, mid := edits[0], Apply(before, edits[0]);
      if t == e.target {
        InsertLinks(before, e);
        EditedLinks(mid, edits[1..], after, t);
        LinksAreMentions(word, after, t);
      } else {
        MentionedAfterRun(word, mid, edits[1..], after, t);
        WholeAfterOne(word, before, e, edits[1..], t);
        assert [e] + edits[1..] == edits;
      }
    }
  }

  // ---- Mentions in protected text ----

  lemma MentionsInside(word: WordChars, a: string, x: string, b: string, t: string)
    requires Mentions(word, x, t)
    ensures Mentions(word, a + (x + b), t)
  {
    var i: nat, j: nat :| i <= j <= |x| && MentionAt(word, x, i, j, t);
    assert (a + (x + b))[|a| + i..|a| + j] == x[i..j];
    assert MentionAt(word, a + (x + b), |a| + i, |a| + j, t);
  }

  // t is mentioned in a piece that is not text.
  predicate ShieldedInSpans(word: WordChars, spans: seq<string>, t: string) {
    |spans| > 1 && (Mentions(word, spans[1], t) || ShieldedInSpans(word, spans[2..], t))
  }

  predicate ShieldedInLine(word: WordChars, line: string, t: string) {
    if Protected(line) then Mentions(word, line, t) else ShieldedInSpans(word, SplitSpans(line), t)
  }

  predicate ShieldedInLines(word: WordChars, lines: seq<string>, t: string) {
    |lines| > 0 && (ShieldedInLine(word, lines[0], t) || ShieldedInLines(word, lines[1..], t))
  }

  predicate ShieldedInParts(word: WordChars, parts: seq<string>, t: string) {
    || (|parts| > 0 && ShieldedInLines(word, Split(parts[0], '\n'), t))
    || (|parts| > 1 && (Mentions(word, parts[1], t) || ShieldedInParts(word, parts[2..], t)))
  }

  // t is mentioned in fenced code, on a protected line, or in a code span, link or bold span.
  predicate Shielded(word: WordChars, body: string, t: string) {
    ShieldedInParts(word, SplitFences(body), t)
  }

  lemma MentionsEither(word: WordChars, a: string, x: string, b: string, t: string)
    requires Mentions(word, x, t) || Mentions(word, b, t)
    ensures Mentions(word, a + (x + b), t)
  {
    if Mentions(word, x, t) {
      MentionsInside(word, a, x, b, t);
    } else {
      MentionsInside(word, a + x, b, "", t);
      assert (a + x) + (b + "") == a + (x + b);
    }
  }

  lemma {:induction false} SpansKeepMention(word: WordChars, job: Job, done: set<string>, spans: seq<string>, t: string)
    requires ShieldedInSpans(word, spans, t)
    ensures Mentions(word, Concat(SpansRun(job, done, spans).0), t)
    decreases |spans|
  {
    var (segs, _) := SpansRun(job, done, spans);
    var (seg, done') := SegRun(job, done, spans[0]);
    SpansRunRest(job, done, spans);
    if !Mentions(word, spans[1], t) {
      SpansKeepMention(word, job, done', spans[2..], t);
    }
    MentionsEither(word, seg, spans[1], Concat(segs[2..]), t);
  }

  lemma {:induction false} LinesKeepMention(word: WordChars, job: Job, done: set<string>, lines: seq<string>, t: string)
    requires ShieldedInLines(word, lines, t)
    ensures Mentions(word, Join(LinesRun(job, done, lines).0), t)
    decreases |lines|
  {
    var (lines', _) := LinesRun(job, done, lines);
    var (line, done') := LineRun(job, done, lines[0]);
    LinesRunRest(job, done, lines);
    JoinOneMore(lines');
    var rest := if |lines| == 1 then "" else "\n" + Join(lines'[1..]);
    if ShieldedInLine(word, lines[0], t) {
      if !Protected(lines[0]) {
        SpansKeepMention(word, job, done, SplitSpans(lines[0]), t);
      }
      MentionsInside(word, "", line, rest, t);
      assert "" + (line + rest) == Join(lines');
    } else {
      LinesKeepMention(word, job, done', lines[1..], t);
      MentionsInside(word, line + "\n", Join(lines'[1..]), "", t);
      assert (line + "\n") + (Join(lines'[1..]) + "") == line + ("\n" + Join(lines'[1..]));
    }
  }

  lemma ProseKeepsMention(word: WordChars, job: Job, done: set<string>, part: string, t: string)
    requires ShieldedInLines(word, Split(part, '\n'), t)
    ensures Mentions(word, ProseRun(job, done, part).0, t)
  {
    LinesKeepMention(word, job, done, Split(part, '\n'), t);
  }

  lemma {:induction false} PartsKeepMention(word: WordChars, job: Job, done: set<string>, parts: seq<string>, t: string)
    requires ShieldedInParts(word, parts, t)
    ensures Mentions(word, Concat(PartsRun(job, done, parts).0), t)
    decreases |parts|
  {
    var (part, done') := ProseRun(job, done, parts[0]);
    if ShieldedInLines(word, Split(parts[0], '\n'), t) {
      ProseKeepsMention(word, job, done, parts[0], t);
    }
    if |parts| == 1 {
      ConcatOneTwo([part]);
    } else {
      PartsRunRest(job, done, parts);
      var rest := Concat(PartsRun(job, done, parts).0[2..]);
      if ShieldedInLines(word, Split(parts[0], '\n'), t) {
        MentionsInside(word, "", part, parts[1] + rest, t);
        assert "" + (part + (parts[1] + rest)) == part + (parts[1] + rest);
      } else {
        if !Mentions(word, parts[1], t) {
          PartsKeepMention(word, job, done', parts[2..], t);
        }
        MentionsEither(word, part, parts[1], rest, t);
      }
    }
  }

  // A target mentioned in protected text, or linked without a fragment, stays mentioned.
  lemma SafeMentionsStay(word: WordChars, job: Job, body: string, t: string)
    requires IsSlug(t) && (Shielded(word, body, t) || LinksTo(body, t))
    ensures Mentions(word, BodyRun(job, body).0, t)
  {
    if Shielded(word, body, t) {
      PartsKeepMention(word, job, {}, SplitFences(body), t);
    } else {
      var edits := BodyEdits(job, body);
      EditedLinks(body, edits, BodyRun(job, body).0, t);
      LinksAreMentions(word, BodyRun(job, body).0, t);
    }
  }

  // ---- One run ----

  function JobFor(word: WordChars, terms: CompiledTerms, slug: string, pages: set<string>, body: string): Job {
    Job(terms, set t | t in terms.targets && t != slug && t in pages && !Mentions(word, body, t))
  }

  // What a run does to the links of a page.
  ghost predicate RunStep(word: WordChars, 
      terms: Terms, slug: string, pages: set<string>, body: string, body': string, done: set<string>)
  {
    && |done| <= MAX_PER_PAGE
    && (done == {} <==> body' == body)
    && (forall t | t in done ::
          t in terms.targets && t in pages && t != slug && !Mentions(word, body, t) && LinksTo(body', t))
    && (forall t | IsSlug(t) && LinksTo(body, t) :: LinksTo(body', t))
  }

  // Unless eight links were made, no term was found for another page that the body does not mention and that was
  // not linked.
  ghost predicate NoneMissed(
      word: WordChars, terms: CompiledTerms, slug: string, pages: set<string>, body: string, done: set<string>)
  {
    |done| < 8 ==> forall i: nat, k: nat | i < |Plain(body)| && k < |terms.targets| ::
      var t := terms.targets[k];
      t != slug && t in pages && !Mentions(word, body, t) && t !in done ==>
        terms.find(k, FormAt(JobFor(word, terms, slug, pages, body), Plain(body), i, k)).None?
  }

  lemma NothingMissed(word: WordChars, terms: CompiledTerms, slug: string, pages: set<string>, body: string)
    ensures NoneMissed(word, terms, slug, pages, body, BodyRun(JobFor(word, terms, slug, pages, body), body).1)
  {
    var job := JobFor(word, terms, slug, pages, body);
    var done := BodyRun(job, body).1;
    forall i: nat, k: nat |
      i < |Plain(body)| && k < |terms.targets| && terms.targets[k] in job.linkable - done && |done| < 8
      ensures terms.find(k, FormAt(job, Plain(body), i, k)).None?
    {
      NothingLeft(job, body, i, k);
    }
  }

  method RunPage(word: WordChars, terms: CompiledTerms, slug: string, pages: set<string>, body: string)
    returns (body': string, done: set<string>, ghost edits: seq<Edit>)
    ensures (body', done) == BodyRun(JobFor(word, terms, slug, pages, body), body)
    ensures RunStep(word, terms, slug, pages, body, body', done)
    ensures Edited(body, edits, body') && Links(edits, done) && Erase(body', edits) == Some(body)
    ensures forall t :: t in done <==>
              exists i, k :: LinkedAt(JobFor(word, terms, slug, pages, body), Plain(body), i, k, t)
    ensures done == {} <==> Quiet(JobFor(word, terms, slug, pages, body), body)
    ensures |done| <= 8
    ensures NoneMissed(word, terms, slug, pages, body, done)
  {
    ghost var job := JobFor(word, terms, slug, pages, body);
    var already := set t | t in pages && Mentions(word, body, t);
    var page := new PageRewriter(terms, slug, pages, already);
    assert page.Task().linkable == job.linkable;
    body' := page.RewriteBody(body);
    done := page.done;
    edits := BodyEdits(job, body);
    RunSteps(word, terms, slug, pages, body);
    QuietIffUnchanged(job, body);
    forall t ensures t in done <==> exists i, k :: LinkedAt(job, Plain(body), i, k, t) {
      FirstMentionLinked(job, body, t);
    }
    NothingMissed(word, terms, slug, pages, body);
  }

  lemma RunSteps(word: WordChars, terms: CompiledTerms, slug: string, pages: set<string>, body: string)
    ensures var (body', done) := BodyRun(JobFor(word, terms, slug, pages, body), body);
            RunStep(word, terms, slug, pages, body, body', done)
  {
    var job := JobFor(word, terms, slug, pages, body);
    var (body', done) := BodyRun(job, body);
    var edits := BodyEdits(job, body);
    QuietIffUnchanged(job, body);
    DoneIsLinkable(job, body);
    forall t | IsSlug(t) && (LinksTo(body, t) || t in done) ensures LinksTo(body', t) {
      EditedLinks(body, edits, body', t);
    }
  }

  lemma DoneIsLinkable(job: Job, body: string)
    ensures BodyRun(job, body).1 <= job.linkable && |BodyRun(job, body).1| <= MAX_PER_PAGE
  {
    BodyDone(job, body);
    SegsWithin(job, {}, Plain(body));
  }

  lemma {:induction false} SegsWithin(job: Job, done: set<string>, segs: seq<string>)
    requires done <= job.linkable && |done| <= MAX_PER_PAGE
    ensures SegsRun(job, done, segs) <= job.linkable && |SegsRun(job, done, segs)| <= MAX_PER_PAGE
    decreases |segs|
  {
    if |segs| > 0 {
      SegWithin(job, done, segs[0], |job.terms.targets|);
      SegsWithin(job, SegRun(job, done, segs[0]).1, segs[1..]);
    }
  }

  lemma {:induction false} SegWithin(job: Job, done: set<string>, seg: string, k: nat)
    requires done <= job.linkable && |done| <= MAX_PER_PAGE && k <= |job.terms.targets|
    ensures SegUpTo(job, done, seg, k).1 <= job.linkable && |SegUpTo(job, done, seg, k).1| <= MAX_PER_PAGE
    decreases k
  {
    if k > 0 {
      SegWithin(job, done, seg, k - 1);
      var (seg', done') := SegUpTo(job, done, seg, k - 1);
      TermWithin(job, done', seg', k - 1);
    }
  }

  lemma TermWithin(job: Job, done: set<string>, seg: string, k: nat)
    requires done <= job.linkable && |done| <= MAX_PER_PAGE && k < |job.terms.targets|
    ensures TermStep(job, done, seg, k).1 <= job.linkable && |TermStep(job, done, seg, k).1| <= MAX_PER_PAGE
  {
  }

  // ---- Many runs ----

  // The pages linked to without a fragment.
  ghost function Linked(terms: Terms, body: string): set<string> {
    set t | t in terms.targets && LinksTo(body, t)
  }

  lemma StepLinksMore(word: WordChars, 
      terms: Terms, slug: string, pages: set<string>, body: string, body': string, done: set<string>)
    requires terms.Valid() && RunStep(word, terms, slug, pages, body, body', done) && done != {}
    ensures |Linked(terms, body)| + |done| <= |Linked(terms, body')|
  {
    var before, after := Linked(terms, body), Linked(terms, body');
    forall t | t in done ensures t in after && t !in before {
      if LinksTo(body, t) {
        LinksAreMentions(word, body, t);
      }
    }
    assert before + done <= after;
    SubsetSize(before + done, after);
  }

  // Run after run on one page: there are no more changing runs than there are targets.
  lemma {:induction false} ChangingRunsEnd(word: WordChars, 
      terms: Terms, slug: string, pages: set<string>, bodies: seq<string>, dones: seq<set<string>>)
    requires terms.Valid() && |bodies| == |dones| + 1
    requires forall i | 0 <= i < |dones| ::
               RunStep(word, terms, slug, pages, bodies[i], bodies[i + 1], dones[i]) && dones[i] != {}
    ensures |dones| + |Linked(terms, bodies[0])| <= |set t | t in terms.targets|
    decreases |dones|
  {
    SubsetSize(Linked(terms, bodies[0]), set t | t in terms.targets);
    if |dones| > 0 {
      assert RunStep(word, terms, slug, pages, bodies[0], bodies[1], dones[0]);
      StepLinksMore(word, terms, slug, pages, bodies[0], bodies[1], dones[0]);
      assert |dones[0]| > 0;
      ChangingRunsEnd(word, terms, slug, pages, bodies[1..], dones[1..]);
    }
  }

  // ---- Targets not mentioned ----

  function Unmentioned(word: WordChars, terms: Terms, body: string): set<string> {
    set t | t in terms.targets && !Mentions(word, body, t)
  }

  // The targets whose mentions a run broke, every one of them.
  function Broken(word: WordChars, terms: Terms, body: string, body': string): set<string> {
    set t | t in terms.targets && Mentions(word, body, t) && !Mentions(word, body', t)
  }

  // No target comes to be mentioned but those the run links.
  lemma MentionedOnlyIfLinked(word: WordChars, terms: CompiledTerms, slug: string, pages: set<string>, body: string)
    ensures var (body', done) := BodyRun(JobFor(word, terms, slug, pages, body), body);
            && done <= Unmentioned(word, terms, body)
            && forall t | t in terms.targets :: (t in done ==> Mentions(word, body', t))
                                               && (t !in done && Mentions(word, body', t) ==> Mentions(word, body, t))
  {
    var job := JobFor(word, terms, slug, pages, body);
    var (body', done) := BodyRun(job, body);
    var edits := BodyEdits(job, body);
    DoneIsLinkable(job, body);
    forall t | t in terms.targets
      ensures t in done ==> Mentions(word, body', t)
      ensures t !in done && Mentions(word, body', t) ==> Mentions(word, body, t)
    {
      MentionedAfterRun(word, body, edits, body', t);
    }
  }

  // A run takes exactly the targets it links from those not mentioned, and adds those whose mentions it broke.
  lemma UnmentionedAfterRun(word: WordChars, terms: CompiledTerms, slug: string, pages: set<string>, body: string)
    ensures var (body', done) := BodyRun(JobFor(word, terms, slug, pages, body), body);
            var before, after := Unmentioned(word, terms, body), Unmentioned(word, terms, body');
            && after == (before - done) + Broken(word, terms, body, body')
            && |after| == |before| - |done| + |Broken(word, terms, body, body')|
  {
    var (body', done) := BodyRun(JobFor(word, terms, slug, pages, body), body);
    MentionedOnlyIfLinked(word, terms, slug, pages, body);
    var left, broken := Unmentioned(word, terms, body) - done, Broken(word, terms, body, body');
    assert Unmentioned(word, terms, body) == left + done;
    assert Unmentioned(word, terms, body') == left + broken;
    assert left !! broken;
  }

  // Where every mention is a plain link or lies in protected text, nothing breaks, so the number of targets not
  // mentioned falls by the number linked.
  lemma SafePagesConverge(word: WordChars, terms: CompiledTerms, slug: string, pages: set<string>, body: string)
    requires forall t | t in terms.targets && Mentions(word, body, t) :: Shielded(word, body, t) || LinksTo(body, t)
    ensures var (body', done) := BodyRun(JobFor(word, terms, slug, pages, body), body);
            |Unmentioned(word, terms, body')| == |Unmentioned(word, terms, body)| - |done|
  {
    var job := JobFor(word, terms, slug, pages, body);
    var body' := BodyRun(job, body).0;
    UnmentionedAfterRun(word, terms, slug, pages, body);
    forall t | t in terms.targets && Mentions(word, body, t) ensures Mentions(word, body', t) {
      SafeMentionsStay(word, job, body, t);
    }
    assert Broken(word, terms, body, body') == {};
  }

  // ---- A page on which a run breaks a mention ----

  lemma {:induction false} OneLine(s: string)
    requires '\n' !in s
    ensures Split(s, '\n') == [s]
    decreases |s|
  {
    if |s| > 0 {
      OneLine(s[1..]);
      assert s == [s[0]] + s[1..];
    }
  }

  lemma {:induction false} ContainsFirst(s: string, word: string)
    requires |word| > 0 && Contains(s, word)
    ensures word[0] in s
    decreases |s|
  {
    if word <= s {
      assert s[0] == word[0];
    } else {
      ContainsFirst(s[1..], word);
    }
  }

  // Without a backtick, an opening bracket or an asterisk there is nothing to split at.
  lemma NothingToSplit(pattern: Pattern, s: string)
    requires '`' !in s && '[' !in s && '*' !in s
    ensures SplitAt(pattern, s) == [s]
  {
    forall k: nat | k <= |s| ensures !BeginsAt(pattern, s, k) {
      assert k < |s| ==> s[k] in s;
      forall e | k <= e <= |s| ensures !IsPiece(pattern, s[k..e]) {
        if IsPiece(pattern, s[k..e]) {
          PieceOpens(pattern, s[k..e]);
        }
      }
    }
    WholeSplit(pattern, s);
  }

  lemma PieceOpens(pattern: Pattern, s: string)
    requires IsPiece(pattern, s)
    ensures |s| > 0 && (s[0] == '`' || s[0] == '[' || s[0] == '*')
  {
    if pattern.Fences? {
      CharAt(s, 0, "```", 0);
    }
  }

  // The end of a link to p with a fragment, as when its text began on the line before.
  const TAIL := "](/p#m)"

  lemma TailWhole()
    ensures SplitFences(TAIL) == [TAIL] && SplitSpans(TAIL) == [TAIL] && Split(TAIL, '\n') == [TAIL]
  {
    NothingToSplit(Fences, TAIL);
    NothingToSplit(Spans, TAIL);
    OneLine(TAIL);
    SplitExact(Fences, TAIL, SplitFences(TAIL));
    SplitExact(Spans, TAIL, SplitSpans(TAIL));
  }

  lemma TailUnprotected()
    ensures !Protected(TAIL)
  {
    assert LStrip(TAIL) == TAIL;
    if Contains(TAIL, "href=") {
      ContainsFirst(TAIL, "href=");
    }
  }

  lemma OnlySegment(s: string)
    requires SplitFences(s) == [s] && SplitSpans(s) == [s] && Split(s, '\n') == [s] && !Protected(s)
    ensures Plain(s) == [s]
  {
    assert Texts([s]) == [s] + [];
    assert [s][1..] == [] && PlainOfLines([s]) == [s] + PlainOfLines([]);
    assert PlainOfParts([s]) == PlainOfLines([s]) + [];
  }

  lemma TailIsPlain()
    ensures Plain(TAIL) == [TAIL]
  {
    TailWhole();
    TailUnprotected();
    OnlySegment(TAIL);
  }

  lemma TailMentions(word: WordChars, i: nat, j: nat, t: string)
    requires IsSlug(t) && MentionAt(word, TAIL, i, j, t)
    ensures i == 0 && j == 7 && t == "p"
  {
    var s := TAIL[i..j];
    MentionChars(word, s, t);
    assert s[0] == TAIL[i] && s[|s| - 1] == TAIL[j - 1];
    assert i == 0 && j == 7 && s == TAIL;
    forall k | 3 <= k < 3 + |t| ensures SlugChar(TAIL[k]) {
      assert s[3 + (k - 3)] == t[k - 3];
    }
    assert !SlugChar(TAIL[4]);
    SlugRun(TAIL, 3, |t|, 1);
    assert t[0] == s[3 + 0] == 'p';
  }

  lemma TailMentionsP(word: WordChars)
    ensures Mentions(word, TAIL, "p") && !Mentions(word, TAIL, "m")
  {
    assert TAIL[0..7] == TAIL && TAIL[..4] == "](/" + "p" && TAIL[4..6] == "#m";
    assert FragmentChar(word, TAIL[4..6][1]);
    assert MentionAt(word, TAIL, 0, 7, "p");
    if Mentions(word, TAIL, "m") {
      var i: nat, j: nat :| MentionAt(word, TAIL, i, j, "m");
      TailMentions(word, i, j, "m");
    }
  }

  predicate TailTerms(terms: CompiledTerms, slug: string, pages: set<string>) {
    terms.targets == ["m", "p"] && slug != "m" && "m" in pages && terms.find(0, TAIL) == Some((5, 6))
  }

  lemma OnlyM(word: WordChars, terms: CompiledTerms, slug: string, pages: set<string>, text: string)
    requires terms.targets == ["m", "p"] && slug != "m" && "m" in pages
    requires Mentions(word, text, "p") && !Mentions(word, text, "m")
    ensures JobFor(word, terms, slug, pages, text).linkable == {"m"} && Unmentioned(word, terms, text) == {"m"}
  {
    assert forall t :: t in terms.targets <==> t == "m" || t == "p";
  }

  lemma OneSegmentLinks(job: Job, text: string, t: string)
    requires Plain(text) == [text] && job.linkable == {t}
    requires |job.terms.targets| > 0 && job.terms.targets[0] == t && job.terms.find(0, text).Some?
    ensures BodyRun(job, text).1 == {t}
  {
    assert Plain(text)[..0] == [];
    assert LinkedAt(job, Plain(text), 0, 0, t);
    FirstMentionLinked(job, text, t);
    DoneIsLinkable(job, text);
  }

  lemma TailLosesP(word: WordChars, edits: seq<Edit>, body': string)
    requires Edited(TAIL, edits, body') && Links(edits, {"m"})
    ensures !Mentions(word, body', "p")
  {
    TailEdit(edits[0]);
    assert IsSlug("p") && "p" !in TargetsOf(edits);
    MentionedAfterRun(word, TAIL, edits, body', "p");
    if StaysWhole(word, TAIL, edits, "p") {
      var i: nat, j: nat :| MentionAt(word, TAIL, i, j, "p") && LeftWhole(i, j, edits);
      TailMentions(word, i, j, "p");
    }
  }

  // A run on that page links m inside the fragment: m is mentioned now, but p no longer is, so as many targets
  // are not mentioned as before.
  lemma FragmentLinkBroken(word: WordChars, terms: CompiledTerms, slug: string, pages: set<string>)
    requires TailTerms(terms, slug, pages)
    ensures var (body', done) := BodyRun(JobFor(word, terms, slug, pages, TAIL), TAIL);
            && done == {"m"}
            && Unmentioned(word, terms, TAIL) == {"m"} && Unmentioned(word, terms, body') == {"p"}
  {
    var text, job := TAIL, JobFor(word, terms, slug, pages, TAIL);
    TailMentionsP(word);
    TailIsPlain();
    OnlyM(word, terms, slug, pages, text);
    OneSegmentLinks(job, text, "m");
    var edits := BodyEdits(job, text);
    TailLosesP(word, edits, BodyRun(job, text).0);
    LostForGained(word, terms, slug, pages, text);
  }

  lemma LostForGained(word: WordChars, terms: CompiledTerms, slug: string, pages: set<string>, text: string)
    requires terms.targets == ["m", "p"]
    requires Unmentioned(word, terms, text) == {"m"}
    requires BodyRun(JobFor(word, terms, slug, pages, text), text).1 == {"m"}
    requires !Mentions(word, BodyRun(JobFor(word, terms, slug, pages, text), text).0, "p")
    ensures Unmentioned(word, terms, BodyRun(JobFor(word, terms, slug, pages, text), text).0) == {"p"}
  {
    UnmentionedAfterRun(word, terms, slug, pages, text);
    OnlyPBroken(word, terms, text, BodyRun(JobFor(word, terms, slug, pages, text), text).0);
  }

  lemma OnlyPBroken(word: WordChars, terms: Terms, text: string, text': string)
    requires terms.targets == ["m", "p"]
    requires Unmentioned(word, terms, text) == {"m"} && !Mentions(word, text', "p")
    ensures Broken(word, terms, text, text') == {"p"}
  {
    assert forall t :: t in terms.targets <==> t == "m" || t == "p";
    assert "p" !in Unmentioned(word, terms, text) && "m" in Unmentioned(word, terms, text);
  }

  // The only phrase on that page.
  lemma TailEdit(e: Edit)
    requires PhraseAt(TAIL, e.start, e.end)
    ensures e.start == 5 && e.end == 6
  {
    assert !MarkupChar(TAIL[e.start]) && !MarkupChar(TAIL[e.end - 1]);
    assert SlugChar(TAIL[2]);
    assert forall k | e.start <= k < e.end :: !MarkupChar(TAIL[k]);
    assert MarkupChar(TAIL[4]);
  }
}

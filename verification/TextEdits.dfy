// Inserting Markdown links into a text, and what that does to the links already there.
module TextEdits {
  import opened Wrappers

  // text[start..end] becomes the text of a link to target.
  datatype Edit = Edit(start: nat, end: nat, target: string)

  predicate SlugChar(c: char) {
    'a' <= c <= 'z' || 'A' <= c <= 'Z' || '0' <= c <= '9' || c == '_' || c == '-' || c == '/'
  }

  predicate IsSlug(t: string) {
    |t| > 0 && forall i | 0 <= i < |t| :: SlugChar(t[i])
  }

  predicate MarkupChar(c: char) {
    c == '[' || c == ']' || c == '(' || c == ')' || c == '/' || c == '`' || c == '*' || c == '#' || c == '\n'
  }

  // A whole phrase: no markup in it, and not the tail of a path or word.
  predicate PhraseAt(text: string, start: nat, end: nat) {
    && start < end <= |text|
    && (forall k | start <= k < end :: !MarkupChar(text[k]))
    && (start > 0 ==> !SlugChar(text[start - 1]))
  }

  // The compiled terms, each with the page it links to. find(k, s) is the span of the first match of
  // term k in s, which is a whole phrase.
  datatype Terms = Terms(targets: seq<string>, find: (nat, string) -> Option<(nat, nat)>) {
    ghost predicate Valid() {
      && (forall k | 0 <= k < |targets| :: IsSlug(targets[k]))
      && (forall k: nat, s: string | k < |targets| && find(k, s).Some? ::
            find(k, s).value.0 < find(k, s).value.1 <= |s| && PhraseAt(s, find(k, s).value.0, find(k, s).value.1))
    }
  }

  type CompiledTerms = terms: Terms | terms.Valid() witness Terms([], (k, s) => None)

  function Close(target: string): string {
    "](/" + target + ")"
  }

  function Apply(text: string, e: Edit): string
    requires e.start <= e.end <= |text|
  {
    text[..e.start] + ("[" + (text[e.start..e.end] + (Close(e.target) + text[e.end..])))
  }

  // Deletes the brackets and the target of one link.
  function Delete(text: string, e: Edit): string
    requires FitsIn(text, e)
  {
    text[..e.start] + text[e.start + 1..e.end + 1] + text[e.end + 1 + |Close(e.target)|..]
  }

  lemma DeleteApply(text: string, e: Edit)
    requires e.start <= e.end <= |text|
    ensures FitsIn(Apply(text, e), e)
    ensures Delete(Apply(text, e), e) == text
  {
    ApplyParts(text, e);
    assert Delete(Apply(text, e), e) == text[..e.start] + text[e.start..e.end] + text[e.end..];
    ThreeParts(text, e.start, e.end);
  }

  lemma ThreeParts(text: string, i: nat, j: nat)
    requires i <= j <= |text|
    ensures text[..i] + text[i..j] + text[j..] == text
  {
  }

  lemma ApplyParts(text: string, e: Edit)
    requires e.start <= e.end <= |text|
    ensures var out, c := Apply(text, e), |Close(e.target)|;
            && |out| == |text| + 1 + c
            && out[..e.start] == text[..e.start]
            && out[e.start + 1..e.end + 1] == text[e.start..e.end]
            && out[e.end + 1..e.end + 1 + c] == Close(e.target)
            && out[e.end + 1 + c..] == text[e.end..]
  {
    var a, m, c, z := text[..e.start], text[e.start..e.end], Close(e.target), text[e.end..];
    var tail := m + (c + z);
    var out := a + ("[" + tail);
    assert out[..|a|] == a && out[|a| + 1..] == tail;
    assert tail[..|m|] == m && tail[|m|..] == c + z;
    assert (c + z)[..|c|] == c && (c + z)[|c|..] == z;
    assert out[|a| + 1..][|m|..] == out[|a| + 1 + |m|..];
    assert out[|a| + 1 + |m|..][|c|..] == out[|a| + 1 + |m| + |c|..];
  }

  // after is before with the edits made one after the other, each on a phrase of the text it meets.
  ghost predicate Edited(before: string, edits: seq<Edit>, after: string)
    decreases |edits|
  {
    if |edits| == 0 then before == after
    else
      && PhraseAt(before, edits[0].start, edits[0].end)
      && IsSlug(edits[0].target)
      && Edited(Apply(before, edits[0]), edits[1..], after)
  }

  lemma {:induction false} EditedConcat(
      a: string, first: seq<Edit>, b: string, second: seq<Edit>, c: string)
    requires Edited(a, first, b) && Edited(b, second, c)
    ensures Edited(a, first + second, c)
    decreases |first|
  {
    if |first| == 0 {
      assert first + second == second;
    } else {
      EditedConcat(Apply(a, first[0]), first[1..], b, second, c);
      EditedCons(a, first[0], first[1..] + second, c);
      assert [first[0]] + (first[1..] + second) == first + second;
    }
  }

  lemma EditedCons(before: string, e: Edit, rest: seq<Edit>, after: string)
    requires PhraseAt(before, e.start, e.end) && IsSlug(e.target)
    requires Edited(Apply(before, e), rest, after)
    ensures Edited(before, [e] + rest, after)
  {
    assert ([e] + rest)[1..] == rest;
  }

  // There is room for the link that the edit put in.
  predicate FitsIn(text: string, e: Edit) {
    e.start <= e.end && e.end + 1 + |Close(e.target)| <= |text|
  }

  // Deletes the inserted links, the last one first; None if one of them is not there.
  function Erase(text: string, edits: seq<Edit>): Option<string>
    decreases |edits|
  {
    if |edits| == 0 then Some(text)
    else
      var rest := Erase(text, edits[1..]);
      if rest.Some? && FitsIn(rest.value, edits[0]) then Some(Delete(rest.value, edits[0])) else None
  }

  // Taking the inserted links out again gives back the text, character for character.
  lemma {:induction false} EraseEdited(before: string, edits: seq<Edit>, after: string)
    requires Edited(before, edits, after)
    ensures Erase(after, edits) == Some(before)
    decreases |edits|
  {
    if |edits| > 0 {
      EraseEdited(Apply(before, edits[0]), edits[1..], after);
      DeleteApply(before, edits[0]);
    }
  }

  // ---- Links on a page ----

  predicate StandsAt(text: string, i: nat, word: string) {
    i + |word| <= |text| && text[i..i + |word|] == word
  }

  lemma CharAt(text: string, i: nat, word: string, k: nat)
    requires StandsAt(text, i, word) && k < |word|
    ensures text[i + k] == word[k]
  {
    assert text[i..i + |word|][k] == text[i + k];
  }

  // A link to target without a fragment closes here.
  predicate ClosesAt(text: string, i: nat, target: string) {
    StandsAt(text, i, Close(target))
  }

  ghost predicate LinksTo(text: string, target: string) {
    exists i: nat :: ClosesAt(text, i, target)
  }

  lemma CloseChars(text: string, i: nat, t: string)
    requires ClosesAt(text, i, t)
    ensures i + |t| + 4 <= |text|
    ensures text[i] == ']' && text[i + 1] == '(' && text[i + 2] == '/' && text[i + 3 + |t|] == ')'
    ensures forall k | 0 <= k < |t| :: text[i + 3 + k] == t[k]
  {
    var word := Close(t);
    forall k | 0 <= k < |word| ensures text[i + k] == word[k] {
      assert text[i..i + |word|][k] == word[k];
    }
    forall k | 0 <= k < |t| ensures text[i + 3 + k] == t[k] {
      assert word[3 + k] == t[k];
    }
  }

  // A phrase never lies in the closing part of a link.
  lemma PhraseMissesClose(text: string, start: nat, end: nat, i: nat, t: string)
    requires PhraseAt(text, start, end) && ClosesAt(text, i, t) && IsSlug(t)
    ensures end <= i || i + |Close(t)| <= start
  {
    CloseChars(text, i, t);
    assert forall k | i + 2 <= k < i + |t| + 3 :: SlugChar(text[k]);
  }

  lemma InsertKeepsLink(text: string, e: Edit, t: string)
    requires PhraseAt(text, e.start, e.end) && IsSlug(t) && LinksTo(text, t)
    ensures LinksTo(Apply(text, e), t)
  {
    var i: nat :| ClosesAt(text, i, t);
    PhraseMissesClose(text, e.start, e.end, i, t);
    if e.end <= i {
      KeptAfter(text, e, i, Close(t));
      assert ClosesAt(Apply(text, e), i + 1 + |Close(e.target)|, t);
    } else {
      KeptBefore(text, e, i, Close(t));
      assert ClosesAt(Apply(text, e), i, t);
    }
  }

  lemma KeptBefore(text: string, e: Edit, i: nat, word: string)
    requires e.start <= e.end <= |text| && StandsAt(text, i, word) && i + |word| <= e.start
    ensures StandsAt(Apply(text, e), i, word)
  {
    ApplyParts(text, e);
    var out, n := Apply(text, e), |word|;
    assert out[i..i + n] == out[..e.start][i..i + n];
    assert text[i..i + n] == text[..e.start][i..i + n];
  }

  lemma KeptAfter(text: string, e: Edit, i: nat, word: string)
    requires e.start <= e.end <= i && StandsAt(text, i, word)
    ensures StandsAt(Apply(text, e), i + 1 + |Close(e.target)|, word)
  {
    ApplyParts(text, e);
    var out, shift := Apply(text, e), 1 + |Close(e.target)|;
    SliceOfRest(text, e.end, i - e.end, |word|);
    SliceOfRest(out, e.end + shift, i - e.end, |word|);
  }

  lemma SliceOfRest(s: string, from: nat, i: nat, n: nat)
    requires from + i + n <= |s|
    ensures s[from..][i..i + n] == s[from + i..from + i + n]
  {
  }

  lemma InsertLinks(text: string, e: Edit)
    requires e.start <= e.end <= |text|
    ensures LinksTo(Apply(text, e), e.target)
  {
    ApplyParts(text, e);
    assert ClosesAt(Apply(text, e), e.end + 1, e.target);
  }

  function TargetsOf(edits: seq<Edit>): set<string> {
    if |edits| == 0 then {} else {edits[0].target} + TargetsOf(edits[1..])
  }

  lemma {:induction false} TargetsConcat(a: seq<Edit>, b: seq<Edit>)
    ensures TargetsOf(a + b) == TargetsOf(a) + TargetsOf(b)
  {
    if |a| == 0 {
      assert a + b == b;
    } else {
      assert (a + b)[1..] == a[1..] + b;
      TargetsConcat(a[1..], b);
    }
  }

  // Links are only ever added: what was linked stays linked, and every target inserted is linked.
  lemma {:induction false} EditedLinks(before: string, edits: seq<Edit>, after: string, t: string)
    requires Edited(before, edits, after) && IsSlug(t)
    requires LinksTo(before, t) || t in TargetsOf(edits)
    ensures LinksTo(after, t)
    decreases |edits|
  {
    if |edits| > 0 {
      var next := Apply(before, edits[0]);
      InsertLinks(before, edits[0]);
      if LinksTo(before, t) {
        InsertKeepsLink(before, edits[0], t);
      }
      EditedLinks(next, edits[1..], after, t);
    }
  }
}

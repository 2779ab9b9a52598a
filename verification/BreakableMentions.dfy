// Which mentions on a page a run of the docs script can break, for one term search or another.
module BreakableMentions {
  import opened DocsLinks
  import opened DocsRuns
  import opened FirstMentions
  import opened Numbers
  import opened PageParts
  import opened Strings
  import opened TextEdits
  import opened Wrappers

  // ---- Counting mentions ----

  predicate BeginsMention(word: WordChars, text: string, i: nat, t: string) {
    exists j: nat | i <= j <= |text| :: MentionAt(word, text, i, j, t)
  }

  function Begins(word: WordChars, text: string, t: string): set<nat> {
    set i: nat | i < |text| && BeginsMention(word, text, i, t)
  }

  function Count(word: WordChars, text: string, t: string): nat {
    |Begins(word, text, t)|
  }

  lemma MentionCounted(word: WordChars, text: string, i: nat, j: nat, t: string)
    requires MentionAt(word, text, i, j, t)
    ensures i in Begins(word, text, t)
  {
    assert BeginsMention(word, text, i, t);
  }

  lemma CountZero(word: WordChars, text: string, t: string)
    ensures Count(word, text, t) == 0 <==> !Mentions(word, text, t)
  {
    if Mentions(word, text, t) {
      var i: nat, j: nat :| i <= j <= |text| && MentionAt(word, text, i, j, t);
      MentionCounted(word, text, i, j, t);
    }
    if i :| i in Begins(word, text, t) {
      assert BeginsMention(word, text, i, t);
    }
  }

  function Move(i: nat, n: nat): nat {
    i + n
  }

  // x, moved to the right by n.
  function Moved(x: set<nat>, n: nat): set<nat> {
    set i | i in x :: Move(i, n)
  }

  lemma {:induction false} MovedSize(x: set<nat>, n: nat)
    ensures |Moved(x, n)| == |x|
    decreases x
  {
    if i :| i in x {
      MovedSize(x - {i}, n);
      assert Moved(x, n) == Moved(x - {i}, n) + {Move(i, n)};
    }
  }

  // The characters of a mention before its last, and after its first.
  lemma MentionInside(word: WordChars, text: string, i: nat, j: nat, t: string)
    requires MentionAt(word, text, i, j, t) && IsSlug(t)
    ensures i + 4 + |t| <= j
    ensures forall k | i <= k < j - 1 :: !Ends(text[k]) && text[k] != ')'
    ensures forall k | i < k < j :: !Starts(text[k])
    ensures text[j - 1] == ')' && text[i] == ']'
  {
    var s := text[i..j];
    MentionChars(word, s, t);
    forall k | 0 <= k < |s| ensures text[i + k] == s[k] {
    }
    forall k | i <= k < j ensures
        text[k] == ']' || text[k] == '(' || text[k] == '/' || text[k] == '#' || text[k] == ')'
        || SlugChar(text[k]) || FragmentChar(word, text[k])
    {
      assert text[k] == s[k - i];
    }
    MentionOpens(word, text, i, j, t);
    forall k | i <= k < j - 1 ensures text[k] != ')' {
      assert text[k] == s[k - i];
    }
  }

  // A character that a piece other than text may begin with, or a line break.
  predicate Starts(c: char) {
    c == '`' || c == '[' || c == '*' || c == '\n'
  }

  // A character that such a piece may end with, or a line break.
  predicate Ends(c: char) {
    c == '`' || c == ')' || c == '*' || c == '\n'
  }

  lemma SameEnd(word: WordChars, text: string, i: nat, j: nat, j': nat, t: string)
    requires MentionAt(word, text, i, j, t) && MentionAt(word, text, i, j', t) && IsSlug(t)
    ensures j == j'
  {
    MentionInside(word, text, i, j, t);
    MentionInside(word, text, i, j', t);
  }

  // ---- One insertion breaks at most one mention ----

  // The insertion lies in the fragment of the mention that begins at i.
  predicate Hits(word: WordChars, text: string, e: Edit, i: nat, t: string) {
    exists j: nat | i <= j <= |text| :: MentionAt(word, text, i, j, t) && InFragment(e, i, j)
  }

  lemma OneHit(word: WordChars, text: string, e: Edit, i: nat, k: nat, t: string)
    requires IsSlug(t) && e.start < e.end && Hits(word, text, e, i, t) && Hits(word, text, e, k, t)
    ensures i == k
  {
    var j: nat :| i <= j <= |text| && MentionAt(word, text, i, j, t) && InFragment(e, i, j);
    var l: nat :| k <= l <= |text| && MentionAt(word, text, k, l, t) && InFragment(e, k, l);
    MentionOpens(word, text, i, j, t);
    MentionOpens(word, text, k, l, t);
  }

  // Where a mention begins after the insertion.
  function NewBegin(e: Edit, i: nat): nat {
    if i < e.start then i else i + Shift(e)
  }

  lemma BeginsBefore(word: WordChars, text: string, e: Edit, i: nat, t: string)
    requires PhraseAt(text, e.start, e.end) && IsSlug(t) && i in Begins(word, text, t)
    ensures i < e.start || e.end <= i
    ensures Hits(word, text, e, i, t) ==> i < e.start
    ensures !Hits(word, text, e, i, t) ==> NewBegin(e, i) in Begins(word, Apply(text, e), t)
  {
    var j: nat :| i <= j <= |text| && MentionAt(word, text, i, j, t);
    PhraseMissesMention(word, text, e, i, j, t);
    MentionInside(word, text, i, j, t);
    if !Hits(word, text, e, i, t) {
      KeptIsCounted(word, text, e, i, j, t);
    }
  }

  lemma KeptIsCounted(word: WordChars, text: string, e: Edit, i: nat, j: nat, t: string)
    requires PhraseAt(text, e.start, e.end) && IsSlug(t) && MentionAt(word, text, i, j, t) && !InFragment(e, i, j)
    requires i < j
    ensures NewBegin(e, i) in Begins(word, Apply(text, e), t)
  {
    MentionKept(word, text, e, i, j, t);
    if j <= e.start {
      MentionCounted(word, Apply(text, e), i, j, t);
    } else {
      MentionCounted(word, Apply(text, e), i + Shift(e), j + Shift(e), t);
    }
  }

  lemma BeginsAfter(word: WordChars, text: string, e: Edit, k: nat, t: string)
    requires PhraseAt(text, e.start, e.end) && IsSlug(e.target) && IsSlug(t) && t != e.target
    requires k in Begins(word, Apply(text, e), t)
    ensures if k < e.start then k in Begins(word, text, t) && !Hits(word, text, e, k, t)
            else k >= e.end + Shift(e) && k - Shift(e) in Begins(word, text, t)
  {
    var out := Apply(text, e);
    var l: nat :| k <= l <= |out| && MentionAt(word, out, k, l, t);
    MentionFrom(word, text, e, k, l, t);
    MentionInside(word, out, k, l, t);
    WasCounted(word, text, e, k, l, t);
  }

  lemma WasCounted(word: WordChars, text: string, e: Edit, k: nat, l: nat, t: string)
    requires IsSlug(t) && e.start < e.end && k < l
    requires || (l <= e.start && MentionAt(word, text, k, l, t))
             || (e.end + Shift(e) <= k && MentionAt(word, text, k - Shift(e), l - Shift(e), t))
    ensures if k < e.start then k in Begins(word, text, t) && !Hits(word, text, e, k, t)
            else k >= e.end + Shift(e) && k - Shift(e) in Begins(word, text, t)
  {
    if l <= e.start {
      MentionCounted(word, text, k, l, t);
      NotHit(word, text, e, k, l, t);
    } else {
      MentionCounted(word, text, k - Shift(e), l - Shift(e), t);
    }
  }

  lemma NotHit(word: WordChars, text: string, e: Edit, i: nat, j: nat, t: string)
    requires MentionAt(word, text, i, j, t) && IsSlug(t) && j <= e.start < e.end
    ensures !Hits(word, text, e, i, t)
  {
    if Hits(word, text, e, i, t) {
      var l: nat :| i <= l <= |text| && MentionAt(word, text, i, l, t) && InFragment(e, i, l);
      SameEnd(word, text, i, j, l, t);
    }
  }

  function HitSet(word: WordChars, text: string, e: Edit, t: string): set<nat> {
    set i | i in Begins(word, text, t) && Hits(word, text, e, i, t)
  }

  lemma HitSize(word: WordChars, text: string, e: Edit, t: string)
    requires IsSlug(t) && e.start < e.end
    ensures |HitSet(word, text, e, t)| <= 1
  {
    var hits := HitSet(word, text, e, t);
    if i :| i in hits {
      forall k | k in hits ensures k == i {
        OneHit(word, text, e, i, k, t);
      }
      assert hits == {i};
    }
  }

  // Exactly the mention the insertion lies in is gone.
  lemma CountAfterInsert(word: WordChars, text: string, e: Edit, t: string)
    requires PhraseAt(text, e.start, e.end) && IsSlug(e.target) && IsSlug(t) && t != e.target
    ensures Count(word, Apply(text, e), t) == Count(word, text, t) - |HitSet(word, text, e, t)|
    ensures Count(word, Apply(text, e), t) + 1 >= Count(word, text, t)
  {
    var was, hits := Begins(word, text, t), HitSet(word, text, e, t);
    var left := set i | i in was && i < e.start && i !in hits;
    var right := set i | i in was && i >= e.end;
    AllBegins(word, text, e, t, left, right);
    SplitBegins(word, text, e, t, left, right);
    MovedSize(right, Shift(e));
    assert left !! Moved(right, Shift(e));
    HitSize(word, text, e, t);
  }

  lemma AllBegins(word: WordChars, text: string, e: Edit, t: string, left: set<nat>, right: set<nat>)
    requires PhraseAt(text, e.start, e.end) && IsSlug(t)
    requires left == set i | i in Begins(word, text, t) && i < e.start && i !in HitSet(word, text, e, t)
    requires right == set i | i in Begins(word, text, t) && i >= e.end
    ensures Begins(word, text, t) == left + right + HitSet(word, text, e, t)
    ensures left !! right && left + right !! HitSet(word, text, e, t)
  {
    forall i | i in Begins(word, text, t)
      ensures i in left + right + HitSet(word, text, e, t)
      ensures i in HitSet(word, text, e, t) ==> i !in right
    {
      BeginsBefore(word, text, e, i, t);
    }
  }

  lemma SplitBegins(word: WordChars, text: string, e: Edit, t: string, left: set<nat>, right: set<nat>)
    requires PhraseAt(text, e.start, e.end) && IsSlug(e.target) && IsSlug(t) && t != e.target
    requires left == set i | i in Begins(word, text, t) && i < e.start && i !in HitSet(word, text, e, t)
    requires right == set i | i in Begins(word, text, t) && i >= e.end
    ensures Begins(word, Apply(text, e), t) == left + Moved(right, Shift(e))
  {
    var now := Begins(word, Apply(text, e), t);
    forall k | k in now ensures k in left + Moved(right, Shift(e)) {
      BeginsAfter(word, text, e, k, t);
      if k >= e.start {
        assert k - Shift(e) in right && Move(k - Shift(e), Shift(e)) == k;
      }
    }
    forall i | i in left ensures i in now {
      BeginsBefore(word, text, e, i, t);
    }
    forall i | i in right ensures Move(i, Shift(e)) in now {
      BeginsBefore(word, text, e, i, t);
    }
  }

  // A run breaks at most as many mentions as it makes links.
  lemma {:induction false} CountAfterRun(
      word: WordChars, before: string, edits: seq<Edit>, after: string, t: string)
    requires Edited(before, edits, after) && IsSlug(t) && t !in TargetsOf(edits)
    ensures Count(word, after, t) + |edits| >= Count(word, before, t)
    decreases |edits|
  {
    if |edits| > 0 {
      CountAfterInsert(word, before, edits[0], t);
      CountAfterRun(word, Apply(before, edits[0]), edits[1..], after, t);
    }
  }

  // ---- Mentions lie in one piece of the page ----

  // No mention goes across from a to b.
  predicate Separate(a: string, b: string) {
    (|a| > 0 && |b| > 0) ==> Ends(a[|a| - 1]) || Starts(b[0])
  }

  lemma NotAcross(word: WordChars, a: string, b: string, i: nat, j: nat, t: string)
    requires Separate(a, b) && MentionAt(word, a + b, i, j, t) && IsSlug(t)
    ensures if i < |a| then j <= |a| && MentionAt(word, a, i, j, t)
            else MentionAt(word, b, i - |a|, j - |a|, t)
  {
    MentionInside(word, a + b, i, j, t);
    assert |a| > 0 ==> (a + b)[|a| - 1] == a[|a| - 1];
    assert |b| > 0 ==> (a + b)[|a|] == b[0];
    if i < |a| {
      assert (a + b)[i..j] == a[i..j];
    } else {
      assert (a + b)[i..j] == b[i - |a|..j - |a|];
    }
  }

  lemma BeginsInOne(word: WordChars, a: string, b: string, i: nat, t: string)
    requires Separate(a, b) && IsSlug(t) && i in Begins(word, a + b, t)
    ensures i in Begins(word, a, t) + Moved(Begins(word, b, t), |a|)
  {
    var j: nat :| i <= j <= |a + b| && MentionAt(word, a + b, i, j, t);
    NotAcross(word, a, b, i, j, t);
    MentionInside(word, a + b, i, j, t);
    if i < |a| {
      MentionCounted(word, a, i, j, t);
    } else {
      MentionCounted(word, b, i - |a|, j - |a|, t);
      assert Move(i - |a|, |a|) == i;
    }
  }

  lemma BeginsInFirst(word: WordChars, a: string, b: string, i: nat, t: string)
    requires i in Begins(word, a, t)
    ensures i in Begins(word, a + b, t)
  {
    var j: nat :| i <= j <= |a| && MentionAt(word, a, i, j, t);
    assert (a + b)[i..j] == a[i..j];
    assert MentionAt(word, a + b, i, j, t);
    assert BeginsMention(word, a + b, i, t);
  }

  lemma BeginsInSecond(word: WordChars, a: string, b: string, i: nat, t: string)
    requires i in Begins(word, b, t)
    ensures Move(i, |a|) in Begins(word, a + b, t)
  {
    var j: nat :| i <= j <= |b| && MentionAt(word, b, i, j, t);
    assert (a + b)[i + |a|..j + |a|] == b[i..j];
    assert MentionAt(word, a + b, i + |a|, j + |a|, t);
    assert BeginsMention(word, a + b, i + |a|, t);
  }

  lemma BeginsConcat(word: WordChars, a: string, b: string, t: string)
    requires Separate(a, b) && IsSlug(t)
    ensures Begins(word, a + b, t) == Begins(word, a, t) + Moved(Begins(word, b, t), |a|)
  {
    var all := Begins(word, a + b, t);
    forall i | i in all ensures i in Begins(word, a, t) + Moved(Begins(word, b, t), |a|) {
      BeginsInOne(word, a, b, i, t);
    }
    forall i | i in Begins(word, a, t) ensures i in all {
      BeginsInFirst(word, a, b, i, t);
    }
    forall i | i in Begins(word, b, t) ensures Move(i, |a|) in all {
      BeginsInSecond(word, a, b, i, t);
    }
  }

  lemma CountConcat(word: WordChars, a: string, b: string, t: string)
    requires Separate(a, b) && IsSlug(t)
    ensures Count(word, a + b, t) == Count(word, a, t) + Count(word, b, t)
  {
    BeginsConcat(word, a, b, t);
    MovedSize(Begins(word, b, t), |a|);
    assert Begins(word, a, t) !! Moved(Begins(word, b, t), |a|);
  }

  lemma PieceStarts(pattern: Pattern, s: string)
    requires IsPiece(pattern, s)
    ensures |s| > 0 && Starts(s[0]) && Ends(s[|s| - 1])
  {
    PieceOpens(pattern, s);
    if pattern.Fences? {
      CharAt(s, |s| - 3, "```", 2);
    }
  }

  // A text, a piece without a mention, and the rest.
  lemma CountAround(word: WordChars, pattern: Pattern, text: string, piece: string, rest: string, t: string)
    requires IsPiece(pattern, piece) && !Mentions(word, piece, t) && IsSlug(t)
    ensures Count(word, text + (piece + rest), t) == Count(word, text, t) + Count(word, rest, t)
  {
    PieceStarts(pattern, piece);
    CountZero(word, piece, t);
    CountConcat(word, piece, rest, t);
    CountConcat(word, text, piece + rest, t);
  }

  lemma CountLines(word: WordChars, line: string, rest: string, t: string)
    requires IsSlug(t)
    ensures Count(word, line + ("\n" + rest), t) == Count(word, line, t) + Count(word, rest, t)
  {
    var br := "\n";
    CountConcat(word, br, rest, t);
    CountConcat(word, line, br + rest, t);
    CountZero(word, br, t);
    forall i: nat, j: nat | i <= j <= |br| ensures !MentionAt(word, br, i, j, t) {
      if MentionAt(word, br, i, j, t) {
        MentionInside(word, br, i, j, t);
      }
    }
  }

  // ---- A search that breaks every mention it can ----

  // The fragment of some mention.
  ghost function FragmentOf(word: WordChars, s: string, t: string): (r: Option<(nat, nat)>)
    requires IsSlug(t)
    ensures r.Some? ==> exists i: nat, j: nat ::
                          MentionAt(word, s, i, j, t) && r.value == (i + 4 + |t|, j - 1) && i + 4 + |t| < j - 1
    ensures r.None? ==> forall i: nat, j: nat :: MentionAt(word, s, i, j, t) ==> j - 1 <= i + 4 + |t|
  {
    if exists i: nat, j: nat :: MentionAt(word, s, i, j, t) && i + 4 + |t| < j - 1 then
      var i: nat, j: nat :| MentionAt(word, s, i, j, t) && i + 4 + |t| < j - 1;
      Some((i + 4 + |t|, j - 1))
    else None
  }

  lemma FragmentIsPhrase(word: WordChars, s: string, t: string, i: nat, j: nat)
    requires IsSlug(t) && MentionAt(word, s, i, j, t) && i + 4 + |t| < j - 1
    ensures PhraseAt(s, i + 4 + |t|, j - 1)
  {
    var m := s[i..j];
    MentionChars(word, m, t);
    forall k | i + 4 + |t| <= k < j - 1 ensures !MarkupChar(s[k]) {
      assert s[k] == m[k - i];
    }
    assert s[i + 3 + |t|] == m[3 + |t|] == '#';
  }

  ghost function Breaker(word: WordChars, targets: seq<string>, t: string): (terms: CompiledTerms)
    requires IsSlug(t) && forall k | 0 <= k < |targets| :: IsSlug(targets[k])
    ensures terms.targets == targets
    ensures forall k: nat, s: string :: terms.find(k, s) == FragmentOf(word, s, t)
  {
    var terms := Terms(targets, (k: nat, s: string) => FragmentOf(word, s, t));
    BreakerValid(word, targets, t);
    terms
  }

  lemma BreakerValid(word: WordChars, targets: seq<string>, t: string)
    requires IsSlug(t) && forall k | 0 <= k < |targets| :: IsSlug(targets[k])
    ensures Terms(targets, (k: nat, s: string) => FragmentOf(word, s, t)).Valid()
  {
    forall s | FragmentOf(word, s, t).Some?
      ensures var (start, end) := FragmentOf(word, s, t).value; start < end <= |s| && PhraseAt(s, start, end)
    {
      FragmentFound(word, s, t);
    }
  }

  lemma FragmentFound(word: WordChars, s: string, t: string)
    requires IsSlug(t) && FragmentOf(word, s, t).Some?
    ensures var (start, end) := FragmentOf(word, s, t).value; start < end <= |s| && PhraseAt(s, start, end)
  {
    var i: nat, j: nat :|
      MentionAt(word, s, i, j, t) && FragmentOf(word, s, t).value == (i + 4 + |t|, j - 1) && i + 4 + |t| < j - 1;
    FragmentIsPhrase(word, s, t, i, j);
  }

  // ---- A run with that search ----

  // For each link made one mention fewer; and none is left, or no target can be linked any more.
  ghost predicate Broke(
      word: WordChars, job: Job, t: string, was: set<string>, before: string, done: set<string>, after: string)
  {
    && was <= done
    && Count(word, after, t) + |done| == Count(word, before, t) + |was|
    && (Count(word, after, t) == 0 || Open(job, done) == {})
  }

  // The search of the run, for a target that is not linked in it.
  ghost predicate Breaking(word: WordChars, job: Job, t: string) {
    && IsSlug(t) && t !in job.linkable
    && (forall u | u in job.linkable :: u in job.terms.targets)
    && forall k: nat, s: string :: job.terms.find(k, s) == FragmentOf(word, s, t)
  }

  lemma BrokeBoth(
      word: WordChars, job: Job, t: string, a: set<string>, x: string, b: set<string>, x': string,
      y: string, c: set<string>, y': string, before: string, after: string)
    requires Broke(word, job, t, a, x, b, x') && Broke(word, job, t, b, y, c, y')
    requires Count(word, before, t) == Count(word, x, t) + Count(word, y, t)
    requires Count(word, after, t) == Count(word, x', t) + Count(word, y', t)
    ensures Broke(word, job, t, a, before, c, after)
  {
    SubsetSize(b, c);
    OpenShrinks(job, b, c);
  }

  lemma OpenShrinks(job: Job, a: set<string>, b: set<string>)
    requires a <= b
    ensures Open(job, b) <= Open(job, a)
  {
    SubsetSize(a, b);
  }

  lemma PlainMention(word: WordChars, text: string, i: nat, j: nat, t: string)
    requires MentionAt(word, text, i, j, t) && j <= i + 4 + |t| && IsSlug(t)
    ensures LinksTo(text, t)
  {
    var m := text[i..j];
    MentionInside(word, text, i, j, t);
    assert m[..3 + |t|] == "](/" + t;
    assert m == m[..3 + |t|] + [m[3 + |t|]];
    assert ("](/" + t) + ")" == Close(t);
    assert ClosesAt(text, i, t);
  }

  lemma NoNewPlainLink(word: WordChars, text: string, e: Edit, t: string)
    requires PhraseAt(text, e.start, e.end) && IsSlug(e.target) && IsSlug(t) && t != e.target && !LinksTo(text, t)
    ensures !LinksTo(Apply(text, e), t)
  {
    var out := Apply(text, e);
    if LinksTo(out, t) {
      var i: nat :| ClosesAt(out, i, t);
      var j := PlainIsMention(word, out, i, t);
      MentionFrom(word, text, e, i, j, t);
      if j <= e.start {
        PlainMention(word, text, i, j, t);
      } else {
        PlainMention(word, text, i - Shift(e), j - Shift(e), t);
      }
    }
  }

  lemma PlainIsMention(word: WordChars, text: string, i: nat, t: string) returns (j: nat)
    requires ClosesAt(text, i, t)
    ensures j == i + 4 + |t| && MentionAt(word, text, i, j, t)
  {
    var s := Close(t);
    j := i + |s|;
    assert s == ("](/" + t) + ")";
    assert s[..3 + |t|] == "](/" + t && s[3 + |t|..|s| - 1] == "" && s[3 + |t|] == ')';
  }

  lemma TermBreaks(word: WordChars, job: Job, done: set<string>, seg: string, k: nat, t: string)
    requires Breaking(word, job, t) && k < |job.terms.targets| && !LinksTo(seg, t)
    ensures var (seg', done') := TermStep(job, done, seg, k);
            && done <= done' && !LinksTo(seg', t)
            && Count(word, seg', t) + |done'| == Count(word, seg, t) + |done|
            && (Count(word, seg', t) == 0 || job.terms.targets[k] !in Open(job, done'))
  {
    var target, m := job.terms.targets[k], job.terms.find(k, seg);
    if m.None? {
      NoFragment(word, seg, t);
    } else if target in Open(job, done) {
      var e := Edit(m.value.0, m.value.1, target);
      NoNewPlainLink(word, seg, e, t);
      FragmentHit(word, seg, e, t);
      CountAfterInsert(word, seg, e, t);
    }
  }

  lemma NoFragment(word: WordChars, seg: string, t: string)
    requires IsSlug(t) && FragmentOf(word, seg, t).None? && !LinksTo(seg, t)
    ensures Count(word, seg, t) == 0
  {
    if Mentions(word, seg, t) {
      var i: nat, j: nat :| i <= j <= |seg| && MentionAt(word, seg, i, j, t);
      PlainMention(word, seg, i, j, t);
    }
    CountZero(word, seg, t);
  }

  lemma FragmentHit(word: WordChars, seg: string, e: Edit, t: string)
    requires IsSlug(t) && FragmentOf(word, seg, t) == Some((e.start, e.end))
    ensures e.start < e.end && |HitSet(word, seg, e, t)| == 1
  {
    var i: nat, j: nat :| MentionAt(word, seg, i, j, t) && (e.start, e.end) == (i + 4 + |t|, j - 1)
                          && i + 4 + |t| < j - 1;
    MentionCounted(word, seg, i, j, t);
    assert Hits(word, seg, e, i, t);
    HitSize(word, seg, e, t);
    assert i in HitSet(word, seg, e, t);
  }

  // None of the first k terms can be linked any more.
  predicate Spent(job: Job, k: nat, done: set<string>)
    requires k <= |job.terms.targets|
  {
    forall i | 0 <= i < k :: job.terms.targets[i] !in Open(job, done)
  }

  // What the first k terms leave of a segment.
  ghost predicate BrokeUpTo(
      word: WordChars, job: Job, t: string, was: set<string>, before: string, done: set<string>, after: string, k: nat)
    requires k <= |job.terms.targets|
  {
    && was <= done && !LinksTo(after, t)
    && Count(word, after, t) + |done| == Count(word, before, t) + |was|
    && (Count(word, after, t) == 0 || Spent(job, k, done))
  }

  lemma {:induction false} SegBreaks(word: WordChars, job: Job, done: set<string>, seg: string, k: nat, t: string)
    requires Breaking(word, job, t) && k <= |job.terms.targets| && !LinksTo(seg, t)
    ensures var (seg', done') := SegUpTo(job, done, seg, k); BrokeUpTo(word, job, t, done, seg, done', seg', k)
    decreases k
  {
    if k > 0 {
      SegBreaks(word, job, done, seg, k - 1, t);
      var (seg', done') := SegUpTo(job, done, seg, k - 1);
      TermBreaks(word, job, done', seg', k - 1, t);
      var (seg'', done'') := TermStep(job, done', seg', k - 1);
      OneMoreSpent(job, k, done', done'');
    }
  }

  lemma OneMoreSpent(job: Job, k: nat, a: set<string>, b: set<string>)
    requires 0 < k <= |job.terms.targets| && a <= b
    ensures |a| <= |b|
    ensures Spent(job, k - 1, a) && job.terms.targets[k - 1] !in Open(job, b) ==> Spent(job, k, b)
  {
    SubsetSize(a, b);
    OpenShrinks(job, a, b);
  }

  lemma WholeSegBreaks(word: WordChars, job: Job, done: set<string>, seg: string, t: string)
    requires Breaking(word, job, t) && !LinksTo(seg, t)
    ensures var (seg', done') := SegRun(job, done, seg); Broke(word, job, t, done, seg, done', seg')
  {
    SegBreaks(word, job, done, seg, |job.terms.targets|, t);
    AllSpent(word, job, SegRun(job, done, seg).1, t);
  }

  lemma AllSpent(word: WordChars, job: Job, done: set<string>, t: string)
    requires Breaking(word, job, t)
    ensures Spent(job, |job.terms.targets|, done) ==> Open(job, done) == {}
  {
    if u :| u in Open(job, done) {
      var k :| 0 <= k < |job.terms.targets| && job.terms.targets[k] == u;
    }
  }

  lemma LinksWithin(a: string, x: string, b: string, t: string)
    requires LinksTo(x, t)
    ensures LinksTo(a + (x + b), t)
  {
    var i: nat :| ClosesAt(x, i, t);
    var n := |Close(t)|;
    assert (a + (x + b))[|a| + i..|a| + i + n] == x[i..i + n];
    assert ClosesAt(a + (x + b), |a| + i, t);
  }

  lemma LinksInParts(a: string, x: string, b: string, t: string)
    requires !LinksTo(a + (x + b), t)
    ensures !LinksTo(a, t) && !LinksTo(x, t) && !LinksTo(b, t)
  {
    assert "" + (a + (x + b)) == a + (x + b);
    assert (a + x) + (b + "") == a + (x + b);
    if LinksTo(a, t) {
      LinksWithin("", a, x + b, t);
    }
    if LinksTo(x, t) {
      LinksWithin(a, x, b, t);
    }
    if LinksTo(b, t) {
      LinksWithin(a + x, b, "", t);
    }
  }

  lemma {:induction false} SpansBreak(
      word: WordChars, job: Job, done: set<string>, line: string, spans: seq<string>, t: string)
    requires Breaking(word, job, t) && IsSplit(Spans, line, spans)
    requires !LinksTo(line, t) && !ShieldedInSpans(word, spans, t)
    ensures var (segs, done') := SpansRun(job, done, spans);
            line == Concat(spans) && Broke(word, job, t, done, line, done', Concat(segs))
    decreases |spans|
  {
    var (seg, done') := SegRun(job, done, spans[0]);
    if |spans| == 1 {
      ConcatOneTwo(spans);
      ConcatOneTwo([seg]);
      WholeSegBreaks(word, job, done, spans[0], t);
    } else {
      var rest := Concat(spans[2..]);
      var (segs, done'') := SpansRun(job, done, spans);
      SpansRunRest(job, done, spans);
      LinksInParts(spans[0], spans[1], rest, t);
      WholeSegBreaks(word, job, done, spans[0], t);
      SpansBreak(word, job, done', rest, spans[2..], t);
      CountAround(word, Spans, spans[0], spans[1], rest, t);
      CountAround(word, Spans, seg, spans[1], Concat(segs[2..]), t);
      BrokeBoth(word, job, t, done, spans[0], done', seg, rest, done'', Concat(segs[2..]), line, Concat(segs));
    }
  }

  lemma LineBreaks(word: WordChars, job: Job, done: set<string>, line: string, t: string)
    requires Breaking(word, job, t) && !LinksTo(line, t) && !ShieldedInLine(word, line, t)
    ensures var (line', done') := LineRun(job, done, line); Broke(word, job, t, done, line, done', line')
  {
    if Protected(line) {
      CountZero(word, line, t);
    } else {
      SpansBreak(word, job, done, line, SplitSpans(line), t);
    }
  }

  lemma {:induction false} LinesBreak(word: WordChars, job: Job, done: set<string>, lines: seq<string>, t: string)
    requires Breaking(word, job, t) && |lines| > 0
    requires !LinksTo(Join(lines), t) && !ShieldedInLines(word, lines, t)
    ensures var (lines', done') := LinesRun(job, done, lines);
            Broke(word, job, t, done, Join(lines), done', Join(lines'))
    decreases |lines|
  {
    var (lines', done'') := LinesRun(job, done, lines);
    var (line, done') := LineRun(job, done, lines[0]);
    LinesRunRest(job, done, lines);
    JoinOneMore(lines);
    JoinOneMore(lines');
    if |lines| == 1 {
      LineBreaks(word, job, done, lines[0], t);
    } else {
      var x, x' := Join(lines[1..]), Join(lines'[1..]);
      LinksInParts(lines[0], "\n", x, t);
      LineBreaks(word, job, done, lines[0], t);
      LinesBreak(word, job, done', lines[1..], t);
      CountLines(word, lines[0], x, t);
      CountLines(word, line, x', t);
      BrokeBoth(word, job, t, done, lines[0], done', line, x, done'', x', Join(lines), Join(lines'));
    }
  }

  lemma ProseBreaks(word: WordChars, job: Job, done: set<string>, part: string, t: string)
    requires Breaking(word, job, t) && !LinksTo(part, t) && !ShieldedInLines(word, Split(part, '\n'), t)
    ensures var (part', done') := ProseRun(job, done, part); Broke(word, job, t, done, part, done', part')
  {
    JoinSplit(part);
    LinesBreak(word, job, done, Split(part, '\n'), t);
  }

  lemma {:induction false} PartsBreak(
      word: WordChars, job: Job, done: set<string>, body: string, parts: seq<string>, t: string)
    requires Breaking(word, job, t) && IsSplit(Fences, body, parts)
    requires !LinksTo(body, t) && !ShieldedInParts(word, parts, t)
    ensures var (parts', done') := PartsRun(job, done, parts);
            body == Concat(parts) && Broke(word, job, t, done, body, done', Concat(parts'))
    decreases |parts|
  {
    var (part, done') := ProseRun(job, done, parts[0]);
    if |parts| == 1 {
      ConcatOneTwo(parts);
      ConcatOneTwo([part]);
      ProseBreaks(word, job, done, parts[0], t);
    } else {
      var rest := Concat(parts[2..]);
      var (parts', done'') := PartsRun(job, done, parts);
      PartsRunRest(job, done, parts);
      LinksInParts(parts[0], parts[1], rest, t);
      ProseBreaks(word, job, done, parts[0], t);
      PartsBreak(word, job, done', rest, parts[2..], t);
      CountAround(word, Fences, parts[0], parts[1], rest, t);
      CountAround(word, Fences, part, parts[1], Concat(parts'[2..]), t);
      BrokeBoth(word, job, t, done, parts[0], done', part, rest, done'', Concat(parts'[2..]), body, Concat(parts'));
    }
  }

  // ---- Exactly which mentions can be broken ----

  // The targets a run may link.
  function Linkable(
      word: WordChars, targets: seq<string>, slug: string, pages: set<string>, body: string): set<string>
  {
    set u | u in targets && u != slug && u in pages && !Mentions(word, body, u)
  }

  // t is mentioned only with a fragment and in plain text, and no more often than a run can link.
  ghost predicate Breakable(
      word: WordChars, targets: seq<string>, slug: string, pages: set<string>, body: string, t: string)
  {
    && Mentions(word, body, t) && !Shielded(word, body, t) && !LinksTo(body, t)
    && Count(word, body, t) <= Min(MAX_PER_PAGE, |Linkable(word, targets, slug, pages, body)|)
  }

  // With these terms a run breaks all mentions of t.
  ghost predicate Breaks(
      word: WordChars, terms: CompiledTerms, slug: string, pages: set<string>, body: string, t: string)
  {
    t in Broken(word, terms, body, RunOf(word, terms, slug, pages, body))
  }

  lemma BreakingBreaks(
      word: WordChars, terms: CompiledTerms, slug: string, pages: set<string>, body: string, t: string)
    requires t in terms.targets && terms == Breaker(word, terms.targets, t)
    requires Breakable(word, terms.targets, slug, pages, body, t)
    ensures Breaks(word, terms, slug, pages, body, t)
  {
    var job := JobFor(word, terms, slug, pages, body);
    var (body', done) := BodyRun(job, body);
    PartsBreak(word, job, {}, body, SplitFences(body), t);
    DoneIsLinkable(job, body);
    assert job.linkable == Linkable(word, terms.targets, slug, pages, body);
    if Open(job, done) == {} {
      if |done| < MAX_PER_PAGE {
        assert job.linkable <= done;
        SubsetSize(job.linkable, done);
      }
    }
    CountZero(word, body', t);
  }

  lemma BrokenIsBreakable(
      word: WordChars, terms: CompiledTerms, slug: string, pages: set<string>, body: string, t: string)
    requires t in terms.targets && Breaks(word, terms, slug, pages, body, t)
    ensures Breakable(word, terms.targets, slug, pages, body, t)
  {
    var job := JobFor(word, terms, slug, pages, body);
    var (body', done) := BodyRun(job, body);
    var edits := BodyEdits(job, body);
    DoneIsLinkable(job, body);
    if Shielded(word, body, t) || LinksTo(body, t) {
      SafeMentionsStay(word, job, body, t);
    }
    assert t !in done;
    CountAfterRun(word, body, edits, body', t);
    CountZero(word, body', t);
    assert job.linkable == Linkable(word, terms.targets, slug, pages, body);
    SubsetSize(done, job.linkable);
  }

  // A run can break all mentions of a target, for some term search, if and only if each of them carries a fragment
  // and lies in plain text, and there are no more of them than a run can make links.
  lemma BreakableIff(
      word: WordChars, targets: seq<string>, slug: string, pages: set<string>, body: string, t: string)
    requires t in targets && forall k | 0 <= k < |targets| :: IsSlug(targets[k])
    ensures (exists terms: CompiledTerms :: terms.targets == targets && Breaks(word, terms, slug, pages, body, t)) <==>
            Breakable(word, targets, slug, pages, body, t)
  {
    if Breakable(word, targets, slug, pages, body, t) {
      BreakingBreaks(word, Breaker(word, targets, t), slug, pages, body, t);
    }
    if terms: CompiledTerms :| terms.targets == targets && Breaks(word, terms, slug, pages, body, t) {
      BrokenIsBreakable(word, terms, slug, pages, body, t);
    }
  }

  // The number of targets not mentioned falls by the number linked.
  ghost predicate Converges(word: WordChars, terms: CompiledTerms, slug: string, pages: set<string>, body: string) {
    var (body', done) := BodyRun(JobFor(word, terms, slug, pages, body), body);
    |Unmentioned(word, terms, body')| == |Unmentioned(word, terms, body)| - |done|
  }

  lemma ConvergesUnlessBroken(
      word: WordChars, terms: CompiledTerms, slug: string, pages: set<string>, body: string)
    ensures Converges(word, terms, slug, pages, body) <==> forall t :: !Breaks(word, terms, slug, pages, body, t)
  {
    UnmentionedAfterRun(word, terms, slug, pages, body);
    NoneBroken(word, terms, slug, pages, body, Broken(word, terms, body, RunOf(word, terms, slug, pages, body)));
  }

  function RunOf(word: WordChars, terms: CompiledTerms, slug: string, pages: set<string>, body: string): string {
    BodyRun(JobFor(word, terms, slug, pages, body), body).0
  }

  lemma NoneBroken(
      word: WordChars, terms: CompiledTerms, slug: string, pages: set<string>, body: string, broken: set<string>)
    requires broken == Broken(word, terms, body, RunOf(word, terms, slug, pages, body))
    ensures |broken| == 0 <==> forall t :: !Breaks(word, terms, slug, pages, body, t)
  {
    forall t ensures t in broken <==> Breaks(word, terms, slug, pages, body, t) {
    }
    if |broken| != 0 {
      var t :| t in broken;
    }
  }

  // The number of targets not mentioned falls by the number linked, whatever the terms are that are searched for,
  // if and only if no target of the page is breakable.
  lemma SafePagesConvergeIff(
      word: WordChars, targets: seq<string>, slug: string, pages: set<string>, body: string)
    requires forall k | 0 <= k < |targets| :: IsSlug(targets[k])
    ensures (forall terms: CompiledTerms | terms.targets == targets :: Converges(word, terms, slug, pages, body)) <==>
            forall t | t in targets :: !Breakable(word, targets, slug, pages, body, t)
  {
    forall t | t in targets
      ensures (exists terms: CompiledTerms :: terms.targets == targets && Breaks(word, terms, slug, pages, body, t))
              <==> Breakable(word, targets, slug, pages, body, t)
    {
      BreakableIff(word, targets, slug, pages, body, t);
    }
    forall terms: CompiledTerms | terms.targets == targets
      ensures Converges(word, terms, slug, pages, body) <==> forall t :: !Breaks(word, terms, slug, pages, body, t)
    {
      ConvergesUnlessBroken(word, terms, slug, pages, body);
    }
    if t :| t in targets && Breakable(word, targets, slug, pages, body, t) {
      var terms: CompiledTerms :| terms.targets == targets && Breaks(word, terms, slug, pages, body, t);
      assert !Converges(word, terms, slug, pages, body);
    }
  }
}

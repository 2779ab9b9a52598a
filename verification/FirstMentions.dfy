// What a run on a docs page links: the first mention of each target in the plain text of the page.
module FirstMentions {
  import opened DocsLinks
  import opened PageParts
  import opened Strings
  import opened TextEdits
  import opened Wrappers

  // ---- The plain text of a page, segment by segment ----

  // Every other piece, from the first on.
  function Texts(pieces: seq<string>): seq<string> {
    if |pieces| == 0 then [] else [pieces[0]] + if |pieces| == 1 then [] else Texts(pieces[2..])
  }

  function PlainOfLine(line: string): seq<string> {
    if Protected(line) then [] else Texts(SplitSpans(line))
  }

  function PlainOfLines(lines: seq<string>): seq<string> {
    if |lines| == 0 then [] else PlainOfLine(lines[0]) + PlainOfLines(lines[1..])
  }

  function PlainOfProse(part: string): seq<string> {
    PlainOfLines(Split(part, '\n'))
  }

  function PlainOfParts(parts: seq<string>): seq<string> {
    if |parts| == 0 then []
    else PlainOfProse(parts[0]) + if |parts| == 1 then [] else PlainOfParts(parts[2..])
  }

  function Plain(body: string): seq<string> {
    PlainOfParts(SplitFences(body))
  }

  // ---- A run, segment by segment ----

  // The targets linked after these segments.
  function SegsRun(job: Job, done: set<string>, segs: seq<string>): set<string>
    decreases |segs|
  {
    if |segs| == 0 then done else SegsRun(job, SegRun(job, done, segs[0]).1, segs[1..])
  }

  lemma {:induction false} SegsConcat(job: Job, done: set<string>, a: seq<string>, b: seq<string>)
    ensures SegsRun(job, done, a + b) == SegsRun(job, SegsRun(job, done, a), b)
    decreases |a|
  {
    if |a| == 0 {
      assert a + b == b;
    } else {
      assert (a + b)[1..] == a[1..] + b;
      SegsConcat(job, SegRun(job, done, a[0]).1, a[1..], b);
    }
  }

  lemma OneSeg(job: Job, done: set<string>, seg: string)
    ensures SegsRun(job, done, [seg]) == SegRun(job, done, seg).1
  {
    assert [seg][1..] == [];
  }

  lemma {:induction false} SpansDone(job: Job, done: set<string>, spans: seq<string>)
    ensures SpansRun(job, done, spans).1 == SegsRun(job, done, Texts(spans))
    decreases |spans|
  {
    if |spans| > 0 {
      var done' := SegRun(job, done, spans[0]).1;
      var rest := if |spans| == 1 then [] else Texts(spans[2..]);
      OneSeg(job, done, spans[0]);
      SegsConcat(job, done, [spans[0]], rest);
      if |spans| > 1 {
        SpansDone(job, done', spans[2..]);
      }
    }
  }

  lemma {:induction false} LinesDone(job: Job, done: set<string>, lines: seq<string>)
    ensures LinesRun(job, done, lines).1 == SegsRun(job, done, PlainOfLines(lines))
    decreases |lines|
  {
    if |lines| > 0 {
      LinesRunRest(job, done, lines);
      if !Protected(lines[0]) {
        SpansDone(job, done, SplitSpans(lines[0]));
      }
      var done' := LineRun(job, done, lines[0]).1;
      assert done' == SegsRun(job, done, PlainOfLine(lines[0]));
      SegsConcat(job, done, PlainOfLine(lines[0]), PlainOfLines(lines[1..]));
      LinesDone(job, done', lines[1..]);
    }
  }

  lemma {:induction false} PartsDone(job: Job, done: set<string>, parts: seq<string>)
    ensures PartsRun(job, done, parts).1 == SegsRun(job, done, PlainOfParts(parts))
    decreases |parts|
  {
    if |parts| > 0 {
      var done' := ProseRun(job, done, parts[0]).1;
      LinesDone(job, done, Split(parts[0], '\n'));
      SegsConcat(job, done, PlainOfProse(parts[0]), if |parts| == 1 then [] else PlainOfParts(parts[2..]));
      if |parts| > 1 {
        PartsDone(job, done', parts[2..]);
      }
    }
  }

  // The nested loops over parts, lines and pieces visit the plain segments of the page in order.
  lemma BodyDone(job: Job, body: string)
    ensures BodyRun(job, body).1 == SegsRun(job, {}, Plain(body))
  {
    PartsDone(job, {}, SplitFences(body));
  }

  // ---- Where a target is linked ----

  // What is linked before segment i, and before term k is looked for in it.
  function DoneAt(job: Job, segs: seq<string>, i: nat): set<string>
    requires i <= |segs|
  {
    SegsRun(job, {}, segs[..i])
  }

  function DoneBefore(job: Job, segs: seq<string>, i: nat, k: nat): set<string>
    requires i < |segs| && k <= |job.terms.targets|
  {
    SegUpTo(job, DoneAt(job, segs, i), segs[i], k).1
  }

  // The form segment i has when term k is looked for in it.
  function FormAt(job: Job, segs: seq<string>, i: nat, k: nat): string
    requires i < |segs| && k <= |job.terms.targets|
  {
    SegUpTo(job, DoneAt(job, segs, i), segs[i], k).0
  }

  // Term k is one for target t, and stands in segment i in the form it has by then.
  predicate Found(job: Job, segs: seq<string>, i: nat, k: nat, t: string) {
    && i < |segs| && k < |job.terms.targets|
    && job.terms.targets[k] == t
    && job.terms.find(k, FormAt(job, segs, i, k)).Some?
  }

  predicate Earlier(j: nat, l: nat, i: nat, k: nat) {
    j < i || (j == i && l < k)
  }

  ghost predicate FirstFound(job: Job, segs: seq<string>, i: nat, k: nat, t: string) {
    Found(job, segs, i, k, t) && forall j: nat, l: nat | Earlier(j, l, i, k) :: !Found(job, segs, j, l, t)
  }

  // t is linked at term k in segment i: its first mention there is, with room left on the page.
  ghost predicate LinkedAt(job: Job, segs: seq<string>, i: nat, k: nat, t: string) {
    && FirstFound(job, segs, i, k, t)
    && t in job.linkable && |DoneBefore(job, segs, i, k)| < MAX_PER_PAGE
  }

  // More is linked and the text is longer, or nothing has changed.
  predicate Grew(seg: string, done: set<string>, seg': string, done': set<string>) {
    && done <= done' && |seg| <= |seg'|
    && (|seg'| == |seg| || done' == done ==> seg' == seg && done' == done)
  }

  lemma GrewTwice(
      seg: string, done: set<string>, seg': string, done': set<string>, seg'': string, done'': set<string>)
    requires Grew(seg, done, seg', done') && Grew(seg', done', seg'', done'')
    ensures Grew(seg, done, seg'', done'')
  {
  }

  lemma TermGrows(job: Job, done: set<string>, seg: string, k: nat)
    requires k < |job.terms.targets|
    ensures var (seg', done') := TermStep(job, done, seg, k); Grew(seg, done, seg', done')
  {
  }

  lemma {:induction false} SegGrows(job: Job, done: set<string>, seg: string, k: nat, n: nat)
    requires k <= n <= |job.terms.targets|
    ensures var (seg', done') := SegUpTo(job, done, seg, k);
            var (seg'', done'') := SegUpTo(job, done, seg, n);
            Grew(seg', done', seg'', done'')
    decreases n - k
  {
    if k < n {
      SegGrows(job, done, seg, k, n - 1);
      var (from, was) := SegUpTo(job, done, seg, k);
      var (seg', done') := SegUpTo(job, done, seg, n - 1);
      TermGrows(job, done', seg', n - 1);
      var (seg'', done'') := TermStep(job, done', seg', n - 1);
      GrewTwice(from, was, seg', done', seg'', done'');
    }
  }

  lemma NextDone(job: Job, segs: seq<string>, i: nat)
    requires i < |segs|
    ensures DoneAt(job, segs, i + 1) == DoneBefore(job, segs, i, |job.terms.targets|)
  {
    assert segs[..i + 1] == segs[..i] + [segs[i]];
    SegsConcat(job, {}, segs[..i], [segs[i]]);
    OneSeg(job, DoneAt(job, segs, i), segs[i]);
  }

  lemma DoneStep(job: Job, segs: seq<string>, i: nat)
    requires i < |segs|
    ensures DoneAt(job, segs, i) <= DoneAt(job, segs, i + 1)
  {
    NextDone(job, segs, i);
    SegGrows(job, DoneAt(job, segs, i), segs[i], 0, |job.terms.targets|);
  }

  lemma {:induction false} DoneGrows(job: Job, segs: seq<string>, j: nat, i: nat)
    requires j <= i <= |segs|
    ensures DoneAt(job, segs, j) <= DoneAt(job, segs, i)
    decreases i - j
  {
    if j < i {
      DoneGrows(job, segs, j, i - 1);
      DoneStep(job, segs, i - 1);
    }
  }

  lemma GrowsWithin(job: Job, segs: seq<string>, i: nat, k: nat, n: nat)
    requires i < |segs| && k <= n <= |job.terms.targets|
    ensures DoneBefore(job, segs, i, k) <= DoneBefore(job, segs, i, n)
  {
    SegGrows(job, DoneAt(job, segs, i), segs[i], k, n);
  }

  lemma GrowsAcross(job: Job, segs: seq<string>, j: nat, l: nat, i: nat, k: nat)
    requires j < i < |segs| && k <= |job.terms.targets| && l <= |job.terms.targets|
    ensures DoneBefore(job, segs, j, l) <= DoneBefore(job, segs, i, k)
  {
    GrowsWithin(job, segs, j, l, |job.terms.targets|);
    NextDone(job, segs, j);
    DoneGrows(job, segs, j + 1, i);
    GrowsWithin(job, segs, i, 0, k);
    assert DoneBefore(job, segs, i, 0) == DoneAt(job, segs, i);
  }

  lemma EarlierGrows(job: Job, segs: seq<string>, j: nat, l: nat, i: nat, k: nat)
    requires Earlier(j, l, i, k) && i < |segs| && k <= |job.terms.targets| && l < |job.terms.targets|
    ensures DoneBefore(job, segs, j, l) <= DoneBefore(job, segs, j, l + 1) <= DoneBefore(job, segs, i, k)
  {
    GrowsWithin(job, segs, j, l, l + 1);
    if j == i {
      GrowsWithin(job, segs, j, l + 1, k);
    } else {
      GrowsAcross(job, segs, j, l + 1, i, k);
    }
  }

  lemma SubsetSize<T>(a: set<T>, b: set<T>)
    requires a <= b
    ensures |a| <= |b|
  {
    assert b == a + (b - a);
  }

  // Where t came in.
  lemma {:induction false} CameIn(job: Job, segs: seq<string>, i: nat, k: nat, t: string) returns (j: nat, l: nat)
    requires i < |segs| && k <= |job.terms.targets| && t in DoneBefore(job, segs, i, k)
    ensures Earlier(j, l, i, k) && Found(job, segs, j, l, t)
    ensures t !in DoneBefore(job, segs, j, l) && t in DoneBefore(job, segs, j, l + 1)
    ensures t in job.linkable && |DoneBefore(job, segs, j, l)| < MAX_PER_PAGE
    decreases i, k
  {
    if k > 0 {
      if t in DoneBefore(job, segs, i, k - 1) {
        j, l := CameIn(job, segs, i, k - 1, t);
      } else {
        j, l := i, k - 1;
      }
    } else {
      assert i > 0 by {
        assert segs[..0] == [];
      }
      NextDone(job, segs, i - 1);
      j, l := CameIn(job, segs, i - 1, |job.terms.targets|, t);
    }
  }

  // Nothing was found for t before the place where it came in.
  lemma NotFoundBefore(job: Job, segs: seq<string>, i: nat, k: nat, t: string)
    requires i < |segs| && k < |job.terms.targets| && t !in DoneBefore(job, segs, i, k)
    requires t in job.linkable && |DoneBefore(job, segs, i, k)| < MAX_PER_PAGE
    ensures forall j: nat, l: nat | Earlier(j, l, i, k) :: !Found(job, segs, j, l, t)
  {
    forall j: nat, l: nat | Earlier(j, l, i, k) ensures !Found(job, segs, j, l, t) {
      if Found(job, segs, j, l, t) {
        EarlierGrows(job, segs, j, l, i, k);
        SubsetSize(DoneBefore(job, segs, j, l), DoneBefore(job, segs, i, k));
      }
    }
  }

  // What a run links is linked by the end of the last segment.
  lemma DoneInLast(job: Job, body: string, t: string)
    requires t in BodyRun(job, body).1
    ensures |Plain(body)| > 0
    ensures t in DoneBefore(job, Plain(body), |Plain(body)| - 1, |job.terms.targets|)
  {
    var segs := Plain(body);
    DoneInAll(job, body);
    assert |segs| > 0;
    NextDone(job, segs, |segs| - 1);
  }

  lemma DoneInAll(job: Job, body: string)
    ensures BodyRun(job, body).1 == DoneAt(job, Plain(body), |Plain(body)|)
  {
    BodyDone(job, body);
    assert Plain(body)[..|Plain(body)|] == Plain(body);
  }

  lemma FoundFirst(job: Job, segs: seq<string>, n: nat, t: string) returns (i: nat, k: nat)
    requires n < |segs| && t in DoneBefore(job, segs, n, |job.terms.targets|)
    ensures LinkedAt(job, segs, i, k, t)
  {
    i, k := CameIn(job, segs, n, |job.terms.targets|, t);
    NotFoundBefore(job, segs, i, k, t);
  }

  // A target is linked exactly when some plain segment holds a term for it in the form it has when that term is
  // looked for, while there is room on the page; and it is linked at the first such place.
  lemma FirstMentionLinked(job: Job, body: string, t: string)
    ensures t in BodyRun(job, body).1 <==> exists i, k :: LinkedAt(job, Plain(body), i, k, t)
  {
    var segs := Plain(body);
    if t in BodyRun(job, body).1 {
      DoneInLast(job, body, t);
      var i, k := FoundFirst(job, segs, |segs| - 1, t);
    }
    if i: nat, k: nat :| LinkedAt(job, segs, i, k, t) {
      LinkedIsDone(job, segs, i, k, t);
      DoneInAll(job, body);
    }
  }

  // There the first match of the term becomes the link, and nothing else changes.
  lemma LinkedThere(job: Job, segs: seq<string>, i: nat, k: nat, t: string)
    requires LinkedAt(job, segs, i, k, t)
    ensures var form, done := FormAt(job, segs, i, k), DoneBefore(job, segs, i, k);
            var (start, end) := job.terms.find(k, form).value;
            && FormAt(job, segs, i, k + 1) == Apply(form, Edit(start, end, t))
            && DoneBefore(job, segs, i, k + 1) == done + {t} && t !in done
  {
    LinkedIsDone(job, segs, i, k, t);
  }

  lemma LinkedIsDone(job: Job, segs: seq<string>, i: nat, k: nat, t: string)
    requires LinkedAt(job, segs, i, k, t)
    ensures t !in DoneBefore(job, segs, i, k) && t in DoneAt(job, segs, |segs|)
  {
    if t in DoneBefore(job, segs, i, k) {
      var j, l := CameIn(job, segs, i, k, t);
    }
    SegGrows(job, DoneAt(job, segs, i), segs[i], k + 1, |job.terms.targets|);
    NextDone(job, segs, i);
    DoneGrows(job, segs, i + 1, |segs|);
  }

  // No match is passed over: a target that can still be linked after the run stood in no plain segment.
  lemma NothingLeft(job: Job, body: string, i: nat, k: nat)
    requires i < |Plain(body)| && k < |job.terms.targets|
    requires job.terms.targets[k] in Open(job, BodyRun(job, body).1)
    ensures job.terms.find(k, FormAt(job, Plain(body), i, k)).None?
    ensures SegRun(job, DoneAt(job, Plain(body), i), Plain(body)[i]).0 == Plain(body)[i] ==>
              job.terms.find(k, Plain(body)[i]).None?
  {
    var segs := Plain(body);
    DoneInAll(job, body);
    SegGrows(job, DoneAt(job, segs, i), segs[i], k, k + 1);
    SegGrows(job, DoneAt(job, segs, i), segs[i], k + 1, |job.terms.targets|);
    SegGrows(job, DoneAt(job, segs, i), segs[i], 0, k);
    NextDone(job, segs, i);
    DoneGrows(job, segs, i + 1, |segs|);
    SubsetSize(DoneBefore(job, segs, i, k), BodyRun(job, body).1);
  }

  // ---- Pages with nothing to link ----

  // No term whose target may be linked stands in the plain text.
  ghost predicate Quiet(job: Job, body: string) {
    forall i: nat, k: nat | i < |Plain(body)| && k < |job.terms.targets| && job.terms.targets[k] in job.linkable ::
      job.terms.find(k, Plain(body)[i]).None?
  }

  lemma NothingDone(job: Job, segs: seq<string>, i: nat, k: nat)
    requires DoneAt(job, segs, |segs|) == {} && i < |segs| && k <= |job.terms.targets|
    ensures DoneBefore(job, segs, i, k) == {} && FormAt(job, segs, i, k) == segs[i]
  {
    DoneGrows(job, segs, i, i + 1);
    DoneGrows(job, segs, i + 1, |segs|);
    NextDone(job, segs, i);
    SegGrows(job, DoneAt(job, segs, i), segs[i], 0, k);
    SegGrows(job, DoneAt(job, segs, i), segs[i], k, |job.terms.targets|);
  }

  lemma NotLinked(job: Job, done: set<string>, seg: string, k: nat)
    requires k < |job.terms.targets| && TermStep(job, done, seg, k).1 == done
    requires job.terms.targets[k] in Open(job, done)
    ensures job.terms.find(k, seg).None?
  {
  }

  lemma NothingDoneIsQuiet(job: Job, body: string)
    requires BodyRun(job, body).1 == {}
    ensures Quiet(job, body)
  {
    var segs := Plain(body);
    DoneInAll(job, body);
    forall i: nat, k: nat | i < |segs| && k < |job.terms.targets| && job.terms.targets[k] in job.linkable
      ensures job.terms.find(k, segs[i]).None?
    {
      NothingFound(job, segs, i, k);
    }
  }

  lemma NothingFound(job: Job, segs: seq<string>, i: nat, k: nat)
    requires DoneAt(job, segs, |segs|) == {} && i < |segs|
    requires k < |job.terms.targets| && job.terms.targets[k] in job.linkable
    ensures job.terms.find(k, segs[i]).None?
  {
    NothingDone(job, segs, i, k);
    NothingDone(job, segs, i, k + 1);
    NotLinked(job, {}, segs[i], k);
  }

  // Nothing is linked exactly when there is nothing to link, and exactly then the page stays as it is.
  lemma QuietIffUnchanged(job: Job, body: string)
    ensures BodyRun(job, body).1 == {} <==> Quiet(job, body)
    ensures BodyRun(job, body).1 == {} <==> BodyRun(job, body).0 == body
  {
    var (body', done) := BodyRun(job, body);
    if done == {} {
      NothingDoneIsQuiet(job, body);
    } else {
      var t :| t in done;
      FirstIsInText(job, body, t);
    }
    var edits := BodyEdits(job, body);
    EditedLength(body, edits, body');
  }

  // The first thing linked on a page stands in the page as it was.
  lemma FirstIsInText(job: Job, body: string, t: string)
    requires t in BodyRun(job, body).1
    ensures !Quiet(job, body)
  {
    DoneInLast(job, body, t);
    FirstLinkedIsPlain(job, Plain(body), |Plain(body)| - 1, |job.terms.targets|, t);
  }

  lemma {:induction false} FirstLinkedIsPlain(job: Job, segs: seq<string>, i: nat, k: nat, t: string)
    requires i < |segs| && k <= |job.terms.targets| && t in DoneBefore(job, segs, i, k)
    ensures exists j: nat, l: nat ::
              j < |segs| && l < |job.terms.targets| && job.terms.targets[l] in job.linkable
              && job.terms.find(l, segs[j]).Some?
    decreases i, k
  {
    var j, l := CameIn(job, segs, i, k, t);
    if x :| x in DoneBefore(job, segs, j, l) {
      FirstLinkedIsPlain(job, segs, j, l, x);
    } else {
      SegGrows(job, DoneAt(job, segs, j), segs[j], 0, l);
      assert FormAt(job, segs, j, l) == segs[j];
    }
  }

  lemma {:induction false} EditedLength(before: string, edits: seq<Edit>, after: string)
    requires Edited(before, edits, after)
    ensures |after| >= |before| + |edits|
    decreases |edits|
  {
    if |edits| > 0 {
      EditedLength(Apply(before, edits[0]), edits[1..], after);
    }
  }

  // ---- What a run leaves alone ----

  // Every other piece, from the second on, is the same.
  ghost predicate OddsSame(x: seq<string>, y: seq<string>) {
    |x| == |y| && forall j | 0 <= j < |x| && j % 2 == 1 :: x[j] == y[j]
  }

  lemma OddsSameToo(x: seq<string>, y: seq<string>)
    requires |x| == |y| > 1 && x[1] == y[1] && OddsSame(x[2..], y[2..])
    ensures OddsSame(x, y)
  {
    forall j | 0 <= j < |x| && j % 2 == 1 ensures x[j] == y[j] {
      if j > 1 {
        assert x[2..][j - 2] == y[2..][j - 2];
      }
    }
  }

  // Code spans, links and bold spans.
  lemma {:induction false} SpansStay(job: Job, done: set<string>, spans: seq<string>)
    ensures OddsSame(SpansRun(job, done, spans).0, spans)
    decreases |spans|
  {
    if |spans| > 1 {
      SpansRunRest(job, done, spans);
      SpansStay(job, SegRun(job, done, spans[0]).1, spans[2..]);
      OddsSameToo(SpansRun(job, done, spans).0, spans);
    }
  }

  // Headings, tables, quotes, images and HTML.
  lemma {:induction false} ProtectedLinesStay(job: Job, done: set<string>, lines: seq<string>, k: nat)
    requires k < |lines| && Marked(lines[k])
    ensures LinesRun(job, done, lines).0[k] == lines[k]
    decreases |lines|
  {
    LinesRunRest(job, done, lines);
    if k > 0 {
      ProtectedLinesStay(job, LineRun(job, done, lines[0]).1, lines[1..], k - 1);
    } else {
      MarkedIsProtected(lines[0]);
    }
  }

  // A line that begins with one of the five characters, after whatever is stripped, stays as it is.
  lemma MarkedLineStays(job: Job, done: set<string>, ws: string, c: char, rest: string)
    requires (forall i | 0 <= i < |ws| :: Stripped(ws[i])) && c in {'#', '<', '|', '>', '!'}
    ensures LineRun(job, done, ws + [c] + rest) == (ws + [c] + rest, done)
  {
    var line := ws + [c] + rest;
    assert line[|ws|] == c;
    MarkedIsProtected(line);
  }

  // So does a line with an HTML link.
  lemma HrefLineStays(job: Job, done: set<string>, a: string, b: string)
    ensures LineRun(job, done, a + "href=" + b) == (a + "href=" + b, done)
  {
    MarkedIsProtected(a + "href=" + b);
  }

  // Every other line changes if its plain text holds a term whose target can still be linked.
  lemma OtherLineChanges(job: Job, done: set<string>, line: string, j: nat, k: nat)
    requires !Marked(line) && j < |SplitSpans(line)| && j % 2 == 0 && k < |job.terms.targets|
    requires job.terms.targets[k] in Open(job, done) && job.terms.find(k, SplitSpans(line)[j]).Some?
    ensures LineRun(job, done, line).0 != line && LineRun(job, done, line).1 != done
  {
    MarkedIsProtected(line);
    var (line', done') := LineRun(job, done, line);
    if done' == done {
      UnchangedSpans(job, done, SplitSpans(line), j, k);
    }
    var edits := LineEdits(job, done, line, "", "");
    EditedLength(Page("", line, ""), edits, Page("", line', ""));
    assert Page("", line, "") == line && Page("", line', "") == line';
    assert done <= done' && |done' - done| > 0;
  }

  lemma {:induction false} SpansGrow(job: Job, done: set<string>, spans: seq<string>)
    ensures done <= SpansRun(job, done, spans).1
    decreases |spans|
  {
    if |spans| > 0 {
      SegGrows(job, done, spans[0], 0, |job.terms.targets|);
      if |spans| > 1 {
        SpansGrow(job, SegRun(job, done, spans[0]).1, spans[2..]);
      }
    }
  }

  // Where nothing is linked, nothing that can be linked is found.
  lemma UnchangedSeg(job: Job, done: set<string>, seg: string, k: nat)
    requires SegRun(job, done, seg).1 == done
    requires k < |job.terms.targets| && job.terms.targets[k] in Open(job, done)
    ensures job.terms.find(k, seg).None?
  {
    UnchangedUpTo(job, done, seg, k);
    UnchangedUpTo(job, done, seg, k + 1);
    NotLinked(job, done, seg, k);
  }

  lemma UnchangedUpTo(job: Job, done: set<string>, seg: string, k: nat)
    requires SegRun(job, done, seg).1 == done && k <= |job.terms.targets|
    ensures SegUpTo(job, done, seg, k) == (seg, done)
  {
    SegGrows(job, done, seg, 0, k);
    SegGrows(job, done, seg, k, |job.terms.targets|);
    var (seg', done') := SegUpTo(job, done, seg, k);
    assert done <= done' <= done;
  }

  lemma UnchangedHead(job: Job, done: set<string>, spans: seq<string>)
    requires |spans| > 0 && SpansRun(job, done, spans).1 == done
    ensures SegRun(job, done, spans[0]).1 == done
    ensures |spans| > 1 ==> SpansRun(job, done, spans[2..]).1 == done
  {
    SegGrows(job, done, spans[0], 0, |job.terms.targets|);
    if |spans| > 1 {
      SpansGrow(job, SegRun(job, done, spans[0]).1, spans[2..]);
    }
  }

  lemma {:induction false} UnchangedSpans(job: Job, done: set<string>, spans: seq<string>, j: nat, k: nat)
    requires SpansRun(job, done, spans).1 == done && j < |spans| && j % 2 == 0
    requires k < |job.terms.targets| && job.terms.targets[k] in Open(job, done)
    ensures job.terms.find(k, spans[j]).None?
    decreases |spans|
  {
    UnchangedHead(job, done, spans);
    if j == 0 {
      UnchangedSeg(job, done, spans[0], k);
    } else {
      UnchangedSpans(job, done, spans[2..], j - 2, k);
    }
  }

  lemma PartsTail(job: Job, done: set<string>, parts: seq<string>) returns (done': set<string>)
    requires |parts| > 1
    ensures PartsRun(job, done, parts).0[1] == parts[1]
    ensures PartsRun(job, done, parts).0[2..] == PartsRun(job, done', parts[2..]).0
  {
    PartsRunRest(job, done, parts);
    done' := ProseRun(job, done, parts[0]).1;
  }

  // Fenced code.
  lemma {:induction false} FencesStay(job: Job, done: set<string>, parts: seq<string>)
    ensures OddsSame(PartsRun(job, done, parts).0, parts)
    decreases |parts|
  {
    if |parts| > 1 {
      var done' := PartsTail(job, done, parts);
      FencesStay(job, done', parts[2..]);
      OddsSameToo(PartsRun(job, done, parts).0, parts);
    }
  }
}

// The docs script that links the first mention of each term, page by page.
module DocsLinks {
  import opened PageParts
  import opened Strings
  import opened TextEdits
  import opened Wrappers

  const MAX_PER_PAGE := 8

  // ---- The rewriting, as functions ----

  // What is the same for a whole page: the terms, and the targets that may be linked on it.
  datatype Job = Job(terms: CompiledTerms, linkable: set<string>)

  // A text after rewriting, and the targets linked so far.
  type Rewritten<T> = (T, set<string>)

  // The targets that can still be linked.
  function Open(job: Job, done: set<string>): set<string> {
    if |done| >= MAX_PER_PAGE then {} else job.linkable - done
  }

  // Term k on one plain segment: its first match is linked, if its target can still be.
  function TermStep(job: Job, done: set<string>, seg: string, k: nat): Rewritten<string>
    requires k < |job.terms.targets|
  {
    var target, m := job.terms.targets[k], job.terms.find(k, seg);
    if target in Open(job, done) && m.Some? then (Apply(seg, Edit(m.value.0, m.value.1, target)), done + {target})
    else (seg, done)
  }

  // The first k terms on one plain segment.
  function SegUpTo(job: Job, done: set<string>, seg: string, k: nat): Rewritten<string>
    requires k <= |job.terms.targets|
  {
    if k == 0 then (seg, done)
    else
      var (seg', done') := SegUpTo(job, done, seg, k - 1);
      TermStep(job, done', seg', k - 1)
  }

  function SegRun(job: Job, done: set<string>, seg: string): Rewritten<string> {
    SegUpTo(job, done, seg, |job.terms.targets|)
  }

  // A line in its pieces: every other one, from the first on, is plain text.
  function SpansRun(job: Job, done: set<string>, spans: seq<string>): (r: Rewritten<seq<string>>)
    ensures |r.0| == |spans|
    decreases |spans|
  {
    if |spans| == 0 then ([], done)
    else
      var (seg, done') := SegRun(job, done, spans[0]);
      if |spans| == 1 then ([seg], done')
      else
        var (rest, done'') := SpansRun(job, done', spans[2..]);
        ([seg, spans[1]] + rest, done'')
  }

  function LineRun(job: Job, done: set<string>, line: string): Rewritten<string> {
    if Protected(line) then (line, done)
    else
      var (segs, done') := SpansRun(job, done, SplitSpans(line));
      (Concat(segs), done')
  }

  function LinesRun(job: Job, done: set<string>, lines: seq<string>): (r: Rewritten<seq<string>>)
    ensures |r.0| == |lines|
    decreases |lines|
  {
    if |lines| == 0 then ([], done)
    else
      var (line, done') := LineRun(job, done, lines[0]);
      var (rest, done'') := LinesRun(job, done', lines[1..]);
      ([line] + rest, done'')
  }

  function ProseRun(job: Job, done: set<string>, part: string): Rewritten<string> {
    var (lines, done') := LinesRun(job, done, Split(part, '\n'));
    (Join(lines), done')
  }

  // A page in its parts: every other one, from the first on, is prose.
  function PartsRun(job: Job, done: set<string>, parts: seq<string>): (r: Rewritten<seq<string>>)
    ensures |r.0| == |parts|
    decreases |parts|
  {
    if |parts| == 0 then ([], done)
    else
      var (part, done') := ProseRun(job, done, parts[0]);
      if |parts| == 1 then ([part], done')
      else
        var (rest, done'') := PartsRun(job, done', parts[2..]);
        ([part, parts[1]] + rest, done'')
  }

  function BodyRun(job: Job, body: string): Rewritten<string> {
    var (parts, done) := PartsRun(job, {}, SplitFences(body));
    (Concat(parts), done)
  }

  // ---- The loops ----

  // The pieces already rewritten, followed by what the rest will be.
  function Resume(before: seq<string>, rest: Rewritten<seq<string>>): Rewritten<seq<string>> {
    (before + rest.0, rest.1)
  }

  function First(pieces: seq<string>, j: nat): seq<string> {
    if j <= |pieces| then pieces[..j] else pieces
  }

  function Rest(pieces: seq<string>, j: nat): seq<string> {
    if j <= |pieces| then pieces[j..] else []
  }

  lemma NoneDone(pieces: seq<string>, all: Rewritten<seq<string>>)
    ensures Rest(pieces, 0) == pieces && Resume(First(pieces, 0), all) == all
  {
    assert [] + all.0 == all.0;
  }

  lemma AllDone(pieces: seq<string>, j: nat, done: set<string>)
    requires j >= |pieces|
    ensures Rest(pieces, j) == [] && Resume(First(pieces, j), ([], done)) == (pieces, done)
  {
    assert pieces + [] == pieces;
  }

  // Rewriting piece j takes it, and the one after it, over to the rewritten ones.
  lemma NextPieceDone(pieces: seq<string>, j: nat, piece: string, rest: Rewritten<seq<string>>)
    requires j < |pieces|
    ensures var pieces', kept := pieces[j := piece], if j + 1 < |pieces| then [pieces[j + 1]] else [];
            Resume(First(pieces', j + 2), rest) == Resume(First(pieces, j), Resume([piece] + kept, rest))
    ensures Rest(pieces[j := piece], j + 2) == Rest(pieces, j + 2)
    ensures Rest(pieces, j) == [pieces[j]] + (if j + 1 < |pieces| then [pieces[j + 1]] else []) + Rest(pieces, j + 2)
  {
    var pieces' := pieces[j := piece];
    var kept := if j + 1 < |pieces| then [pieces[j + 1]] else [];
    assert First(pieces', j + 2) == First(pieces, j) + ([piece] + kept);
    assert First(pieces', j + 2) + rest.0 == First(pieces, j) + (([piece] + kept) + rest.0);
  }

  // Rewrites one page. done and n carry over from line to line.
  class PageRewriter {
    const terms: CompiledTerms
    const slug: string
    const pages: set<string>
    const already: set<string>
    var done: set<string>
    var n: nat

    constructor (terms: CompiledTerms, slug: string, pages: set<string>, already: set<string>)
      ensures this.terms == terms && this.slug == slug && this.pages == pages && this.already == already
      ensures done == {} && n == 0
    {
      this.terms, this.slug, this.pages, this.already := terms, slug, pages, already;
      done, n := {}, 0;
    }

    function Task(): Job {
      Job(terms, set t | t in terms.targets && t != slug && t !in already && t in pages)
    }

    ghost predicate Valid()
      reads this
    {
      n == |done|
    }

    // Term k on one plain segment.
    method RewriteTerm(seg: string, k: nat) returns (seg': string)
      requires Valid() && k < |terms.targets|
      modifies this
      ensures Valid() && (seg', done) == TermStep(Task(), old(done), seg, k)
    {
      seg' := seg;
      var target := terms.targets[k];
      if n >= MAX_PER_PAGE || target == slug || target in already || target in done || target !in pages {
        return;
      }
      var m := terms.find(k, seg);
      if m.Some? {
        var (start, end) := m.value;
        seg' := seg[..start] + ("[" + (seg[start..end] + (Close(target) + seg[end..])));
        done := done + {target};
        n := n + 1;
      }
    }

    // All terms on one plain segment.
    method RewriteSeg(seg: string) returns (seg': string)
      requires Valid()
      modifies this
      ensures Valid() && (seg', done) == SegRun(Task(), old(done), seg)
    {
      seg' := seg;
      for k := 0 to |terms.targets|
        invariant Valid() && (seg', done) == SegUpTo(Task(), old(done), seg, k)
      {
        seg' := RewriteTerm(seg', k);
      }
    }

    // One line: a protected line stays, and so does every code span, link and bold span of the others.
    method RewriteLine(line: string) returns (line': string)
      requires Valid()
      modifies this
      ensures Valid() && (line', done) == LineRun(Task(), old(done), line)
      ensures Marked(line) ==> line' == line && done == old(done)
    {
      MarkedIsProtected(line);
      if Protected(line) {
        return line;
      }
      var segs := SplitSpans(line);
      ghost var spans := segs;
      var j := 0;
      NoneDone(spans, SpansRun(Task(), done, spans));
      while j < |segs|
        invariant Valid()
        invariant SpansRun(Task(), old(done), spans) == Resume(First(segs, j), SpansRun(Task(), done, Rest(segs, j)))
      {
        ghost var was, before := segs, done;
        var seg := RewriteSeg(segs[j]);
        segs := segs[j := seg];
        SpansGoOn(Task(), before, done, was, j, seg);
        j := j + 2;
      }
      AllDone(segs, j, done);
      return Concat(segs);
    }

    // The lines of one stretch of prose.
    method RewriteProse(part: string) returns (part': string)
      requires Valid()
      modifies this
      ensures Valid() && (part', done) == ProseRun(Task(), old(done), part)
    {
      var out := [];
      var lines := Split(part, '\n');
      NoneDone(lines, LinesRun(Task(), done, lines));
      for k := 0 to |lines|
        invariant Valid()
        invariant LinesRun(Task(), old(done), lines) == Resume(out, LinesRun(Task(), done, lines[k..]))
      {
        assert lines[k..][0] == lines[k] && lines[k..][1..] == lines[k + 1..];
        var line := RewriteLine(lines[k]);
        ghost var rest := LinesRun(Task(), done, lines[k + 1..]).0;
        assert out + ([line] + rest) == (out + [line]) + rest;
        out := out + [line];
      }
      assert lines[|lines|..] == [] && out + [] == out;
      part' := Join(out);
    }

    // The page after its front matter: fenced code stays, prose is rewritten.
    method RewriteBody(body: string) returns (body': string)
      requires Valid() && done == {}
      modifies this
      ensures Valid() && (body', done) == BodyRun(Task(), body)
    {
      var parts := SplitFences(body);
      ghost var fenced := parts;
      var i := 0;
      NoneDone(fenced, PartsRun(Task(), {}, fenced));
      while i < |parts|
        invariant Valid()
        invariant PartsRun(Task(), {}, fenced) == Resume(First(parts, i), PartsRun(Task(), done, Rest(parts, i)))
      {
        ghost var was, before := parts, done;
        var part := RewriteProse(parts[i]);
        parts := parts[i := part];
        PartsGoOn(Task(), before, done, was, i, part);
        i := i + 2;
      }
      AllDone(parts, i, done);
      return Concat(parts);
    }
  }

  lemma SpansStep(job: Job, done: set<string>, spans: seq<string>, rest: seq<string>)
    requires |spans| > 0 && rest == if |spans| == 1 then [] else spans[2..]
    ensures var (seg, done') := SegRun(job, done, spans[0]);
            SpansRun(job, done, spans) ==
            Resume([seg] + (if |spans| == 1 then [] else [spans[1]]), SpansRun(job, done', rest))
  {
    var (seg, done') := SegRun(job, done, spans[0]);
    if |spans| > 1 {
      TwoAndRest(seg, spans[1], SpansRun(job, done', rest).0);
    } else {
      assert ([seg] + []) + [] == [seg];
    }
  }

  // One more piece of a line.
  lemma SpansGoOn(job: Job, done: set<string>, done': set<string>, segs: seq<string>, j: nat, seg: string)
    requires j < |segs| && (seg, done') == SegRun(job, done, segs[j])
    ensures var segs' := segs[j := seg];
            Resume(First(segs, j), SpansRun(job, done, Rest(segs, j))) ==
            Resume(First(segs', j + 2), SpansRun(job, done', Rest(segs', j + 2)))
  {
    NextPieceDone(segs, j, seg, SpansRun(job, done', Rest(segs, j + 2)));
    SpansStep(job, done, Rest(segs, j), Rest(segs, j + 2));
  }

  // One more part of the page.
  lemma PartsGoOn(job: Job, done: set<string>, done': set<string>, parts: seq<string>, i: nat, part: string)
    requires i < |parts| && (part, done') == ProseRun(job, done, parts[i])
    ensures var parts' := parts[i := part];
            Resume(First(parts, i), PartsRun(job, done, Rest(parts, i))) ==
            Resume(First(parts', i + 2), PartsRun(job, done', Rest(parts', i + 2)))
  {
    NextPieceDone(parts, i, part, PartsRun(job, done', Rest(parts, i + 2)));
    PartsStep(job, done, Rest(parts, i), Rest(parts, i + 2));
  }

  lemma TwoAndRest(a: string, b: string, rest: seq<string>)
    ensures [a, b] + rest == ([a] + [b]) + rest
  {
    assert [a, b] == [a] + [b];
  }

  lemma PartsStep(job: Job, done: set<string>, parts: seq<string>, rest: seq<string>)
    requires |parts| > 0 && rest == if |parts| == 1 then [] else parts[2..]
    ensures var (part, done') := ProseRun(job, done, parts[0]);
            PartsRun(job, done, parts) ==
            Resume([part] + (if |parts| == 1 then [] else [parts[1]]), PartsRun(job, done', rest))
  {
    var (part, done') := ProseRun(job, done, parts[0]);
    if |parts| > 1 {
      TwoAndRest(part, parts[1], PartsRun(job, done', rest).0);
    } else {
      assert ([part] + []) + [] == [part];
    }
  }

  // ---- A run as edits of the page ----

  // seg stands in a page between pre and post.
  function Page(pre: string, seg: string, post: string): string {
    pre + (seg + post)
  }

  lemma ApplyInside(pre: string, seg: string, post: string, e: Edit)
    requires e.start <= e.end <= |seg|
    ensures Page(pre, Apply(seg, e), post) ==
            Apply(Page(pre, seg, post), Edit(|pre| + e.start, |pre| + e.end, e.target))
  {
    var whole, at := Page(pre, seg, post), Edit(|pre| + e.start, |pre| + e.end, e.target);
    assert whole[..at.start] == pre + seg[..e.start];
    assert whole[at.start..at.end] == seg[e.start..e.end];
    assert whole[at.end..] == seg[e.end..] + post;
    RegroupLink(pre, seg[..e.start], seg[e.start..e.end], Close(e.target), seg[e.end..], post);
  }

  lemma RegroupLink(pre: string, a: string, m: string, c: string, z: string, post: string)
    ensures pre + ((a + ("[" + (m + (c + z)))) + post) == (pre + a) + ("[" + (m + (c + (z + post))))
  {
    var tail := "[" + (m + (c + z));
    assert (a + tail) + post == a + (tail + post);
    assert tail + post == "[" + (m + (c + (z + post)));
    assert pre + (a + (tail + post)) == (pre + a) + (tail + post);
  }

  lemma PhraseInside(pre: string, seg: string, post: string, start: nat, end: nat)
    requires PhraseAt(seg, start, end) && EndsClosed(pre)
    ensures PhraseAt(Page(pre, seg, post), |pre| + start, |pre| + end)
  {
    var whole := Page(pre, seg, post);
    forall k | 0 <= k < |seg| ensures whole[|pre| + k] == seg[k] {
    }
    forall k | |pre| + start <= k < |pre| + end ensures !MarkupChar(whole[k]) {
      assert whole[k] == seg[k - |pre|];
    }
    if start == 0 && |pre| > 0 {
      assert whole[|pre| - 1] == pre[|pre| - 1];
    }
  }

  // The edits link these targets, one each.
  ghost predicate Links(edits: seq<Edit>, done: set<string>) {
    |edits| == |done| && TargetsOf(edits) == done
  }

  lemma LinksConcat(first: seq<Edit>, a: set<string>, second: seq<Edit>, b: set<string>)
    requires Links(first, a) && Links(second, b) && a !! b
    ensures Links(first + second, a + b)
  {
    TargetsConcat(first, second);
  }

  // The page around a piece of text changed by these edits, which linked what was added to done.
  ghost predicate Rewrote(
      was: set<string>, done: set<string>, pre: string, before: string, after: string, post: string,
      edits: seq<Edit>)
  {
    && Edited(Page(pre, before, post), edits, Page(pre, after, post))
    && was <= done
    && Links(edits, done - was)
  }

  lemma RewroteNothing(done: set<string>, pre: string, text: string, post: string)
    ensures Rewrote(done, done, pre, text, text, post, [])
  {
    assert done - done == {};
  }

  lemma RewroteConcat(
      a: set<string>, b: set<string>, c: set<string>, pre: string, x: string, y: string, z: string,
      post: string, first: seq<Edit>, second: seq<Edit>)
    requires Rewrote(a, b, pre, x, y, post, first) && Rewrote(b, c, pre, y, z, post, second)
    ensures Rewrote(a, c, pre, x, z, post, first + second)
  {
    EditedConcat(Page(pre, x, post), first, Page(pre, y, post), second, Page(pre, z, post));
    LinksConcat(first, b - a, second, c - b);
    assert c - a == (b - a) + (c - b);
  }

  // What stands before or after a piece can be counted to the page or to the piece.
  lemma RewroteBefore(
      was: set<string>, done: set<string>, pre: string, x: string, y: string, tail: string,
      post: string, edits: seq<Edit>)
    requires Rewrote(was, done, pre, x, y, tail + post, edits)
    ensures Rewrote(was, done, pre, x + tail, y + tail, post, edits)
  {
    assert (x + tail) + post == x + (tail + post);
    assert (y + tail) + post == y + (tail + post);
  }

  lemma RewroteAfter(
      was: set<string>, done: set<string>, pre: string, head: string, x: string, y: string,
      post: string, edits: seq<Edit>)
    requires Rewrote(was, done, pre + head, x, y, post, edits)
    ensures Rewrote(was, done, pre, head + x, head + y, post, edits)
  {
    assert (pre + head) + (x + post) == pre + ((head + x) + post);
    assert (pre + head) + (y + post) == pre + ((head + y) + post);
  }

  // A text, a piece that stays, and the rest, rewritten one after the other.
  lemma RewroteTwo(
      a: set<string>, b: set<string>, c: set<string>, pre: string, x: string, x': string,
      kept: string, y: string, y': string, post: string, first: seq<Edit>, second: seq<Edit>)
    requires Rewrote(a, b, pre, x, x', kept + y + post, first)
    requires Rewrote(b, c, pre + (x' + kept), y, y', post, second)
    ensures Rewrote(a, c, pre, x + (kept + y), x' + (kept + y'), post, first + second)
  {
    RewroteBefore(a, b, pre, x, x', kept + y, post, first);
    RewroteAfter(b, c, pre, x' + kept, y, y', post, second);
    assert (x' + kept) + y == x' + (kept + y);
    assert (x' + kept) + y' == x' + (kept + y');
    RewroteConcat(a, b, c, pre, x + (kept + y), x' + (kept + y), x' + (kept + y'), post, first, second);
  }

  // One link put into a piece of the page.
  lemma LinkEdit(
      terms: CompiledTerms, done: set<string>, seg: string, k: nat, e: Edit, pre: string, post: string)
    returns (edits: seq<Edit>)
    requires k < |terms.targets| && terms.find(k, seg) == Some((e.start, e.end)) && e.target == terms.targets[k]
    requires e.target !in done && EndsClosed(pre)
    ensures Rewrote(done, done + {e.target}, pre, seg, Apply(seg, e), post, edits)
  {
    var at := Edit(|pre| + e.start, |pre| + e.end, e.target);
    PhraseInside(pre, seg, post, e.start, e.end);
    OneEdit(Page(pre, seg, post), at);
    ApplyInside(pre, seg, post, e);
    assert (done + {e.target}) - done == {e.target};
    edits := [at];
  }

  lemma OneEdit(text: string, e: Edit)
    requires PhraseAt(text, e.start, e.end) && IsSlug(e.target)
    ensures Edited(text, [e], Apply(text, e)) && TargetsOf([e]) == {e.target}
  {
    assert [e][1..] == [];
  }

  lemma TermEdits(job: Job, done: set<string>, seg: string, k: nat, pre: string, post: string)
    returns (edits: seq<Edit>)
    requires k < |job.terms.targets| && EndsClosed(pre)
    ensures var (seg', done') := TermStep(job, done, seg, k);
            Rewrote(done, done', pre, seg, seg', post, edits)
  {
    if job.terms.targets[k] in Open(job, done) && job.terms.find(k, seg).Some? {
      var (start, end) := job.terms.find(k, seg).value;
      edits := LinkEdit(job.terms, done, seg, k, Edit(start, end, job.terms.targets[k]), pre, post);
    } else {
      RewroteNothing(done, pre, seg, post);
      edits := [];
    }
  }

  lemma {:induction false} SegEdits(job: Job, done: set<string>, seg: string, k: nat, pre: string, post: string)
    returns (edits: seq<Edit>)
    requires k <= |job.terms.targets| && EndsClosed(pre)
    ensures var (seg', done') := SegUpTo(job, done, seg, k);
            Rewrote(done, done', pre, seg, seg', post, edits)
    decreases k
  {
    if k == 0 {
      RewroteNothing(done, pre, seg, post);
      edits := [];
    } else {
      var (seg', done') := SegUpTo(job, done, seg, k - 1);
      var first := SegEdits(job, done, seg, k - 1, pre, post);
      var second := TermEdits(job, done', seg', k - 1, pre, post);
      var (seg'', done'') := TermStep(job, done', seg', k - 1);
      assert SegUpTo(job, done, seg, k) == (seg'', done'');
      RewroteConcat(done, done', done'', pre, seg, seg', seg'', post, first, second);
      edits := first + second;
    }
  }

  lemma ConcatOneTwo(parts: seq<string>)
    ensures |parts| == 1 ==> Concat(parts) == parts[0]
    ensures |parts| >= 2 ==> Concat(parts) == parts[0] + (parts[1] + Concat(parts[2..]))
  {
    if |parts| >= 2 {
      assert parts[1..][0] == parts[1] && parts[1..][1..] == parts[2..];
    } else if |parts| == 1 {
      assert parts[0] + "" == parts[0];
    }
  }

  lemma AlternatesRest(parts: seq<string>)
    requires Alternates(parts) && |parts| > 1
    ensures Alternates(parts[2..]) && parts[1] != "" && EndsClosed(parts[1])
  {
    forall j | 0 <= j < |parts[2..]| && j % 2 == 1 ensures parts[2..][j] != "" && EndsClosed(parts[2..][j]) {
      assert parts[2..][j] == parts[j + 2];
    }
  }

  lemma SpansRunRest(job: Job, done: set<string>, spans: seq<string>)
    requires |spans| > 1
    ensures var (seg, done') := SegRun(job, done, spans[0]);
            var (segs, done'') := SpansRun(job, done, spans);
            && segs[0] == seg && segs[1] == spans[1] && (segs[2..], done'') == SpansRun(job, done', spans[2..])
            && Concat(segs) == seg + (spans[1] + Concat(segs[2..]))
            && Concat(spans) == spans[0] + (spans[1] + Concat(spans[2..]))
  {
    var (seg, done') := SegRun(job, done, spans[0]);
    var rest := SpansRun(job, done', spans[2..]).0;
    assert ([seg, spans[1]] + rest)[2..] == rest;
    ConcatOneTwo(spans);
    ConcatOneTwo(SpansRun(job, done, spans).0);
  }

  lemma {:induction false} SpansEdits(job: Job, done: set<string>, spans: seq<string>, pre: string, post: string)
    returns (edits: seq<Edit>)
    requires Alternates(spans) && EndsClosed(pre)
    ensures var (segs, done') := SpansRun(job, done, spans);
            Rewrote(done, done', pre, Concat(spans), Concat(segs), post, edits)
    decreases |spans|
  {
    var (seg, done') := SegRun(job, done, spans[0]);
    if |spans| == 1 {
      ConcatOneTwo(spans);
      ConcatOneTwo([seg]);
      edits := SegEdits(job, done, spans[0], |job.terms.targets|, pre, post);
    } else {
      var kept := spans[1];
      AlternatesRest(spans);
      SpansRunRest(job, done, spans);
      var (segs, done'') := SpansRun(job, done, spans);
      var x, x' := Concat(spans[2..]), Concat(segs[2..]);
      var first := SegEdits(job, done, spans[0], |job.terms.targets|, pre, kept + x + post);
      PieceEnds(pre, seg, kept);
      var second := SpansEdits(job, done', spans[2..], pre + (seg + kept), post);
      RewroteTwo(done, done', done'', pre, spans[0], seg, kept, x, x', post, first, second);
      edits := first + second;
    }
  }

  lemma PieceEnds(pre: string, text: string, piece: string)
    requires piece != "" && EndsClosed(piece)
    ensures EndsClosed(pre + (text + piece))
  {
    var s := pre + (text + piece);
    assert s[|s| - 1] == piece[|piece| - 1];
  }

  lemma LineEdits(job: Job, done: set<string>, line: string, pre: string, post: string) returns (edits: seq<Edit>)
    requires EndsClosed(pre)
    ensures var (line', done') := LineRun(job, done, line);
            Rewrote(done, done', pre, line, line', post, edits)
  {
    if Protected(line) {
      RewroteNothing(done, pre, line, post);
      edits := [];
    } else {
      edits := SpansEdits(job, done, SplitSpans(line), pre, post);
    }
  }

  lemma JoinOneMore(lines: seq<string>)
    requires |lines| > 0
    ensures |lines| == 1 ==> Join(lines) == lines[0]
    ensures |lines| > 1 ==> Join(lines) == lines[0] + ("\n" + Join(lines[1..]))
  {
    if |lines| > 1 {
      assert (lines[0] + "\n") + Join(lines[1..]) == lines[0] + ("\n" + Join(lines[1..]));
    }
  }

  lemma LinesRunRest(job: Job, done: set<string>, lines: seq<string>)
    requires |lines| > 0
    ensures var (line, done') := LineRun(job, done, lines[0]);
            var (lines', done'') := LinesRun(job, done, lines);
            lines'[0] == line && (lines'[1..], done'') == LinesRun(job, done', lines[1..])
  {
    var (line, done') := LineRun(job, done, lines[0]);
    var rest := LinesRun(job, done', lines[1..]).0;
    assert ([line] + rest)[1..] == rest;
  }

  lemma {:induction false} LinesEdits(job: Job, done: set<string>, lines: seq<string>, pre: string, post: string)
    returns (edits: seq<Edit>)
    requires |lines| > 0 && EndsClosed(pre)
    ensures var (lines', done') := LinesRun(job, done, lines);
            Rewrote(done, done', pre, Join(lines), Join(lines'), post, edits)
    decreases |lines|
  {
    var (lines', done'') := LinesRun(job, done, lines);
    var (line, done') := LineRun(job, done, lines[0]);
    LinesRunRest(job, done, lines);
    JoinOneMore(lines);
    JoinOneMore(lines');
    if |lines| == 1 {
      edits := LineEdits(job, done, lines[0], pre, post);
    } else {
      var x, x' := Join(lines[1..]), Join(lines'[1..]);
      var first := LineEdits(job, done, lines[0], pre, "\n" + x + post);
      PieceEnds(pre, line, "\n");
      var second := LinesEdits(job, done', lines[1..], pre + (line + "\n"), post);
      RewroteTwo(done, done', done'', pre, lines[0], line, "\n", x, x', post, first, second);
      edits := first + second;
    }
  }

  lemma ProseEdits(job: Job, done: set<string>, part: string, pre: string, post: string) returns (edits: seq<Edit>)
    requires EndsClosed(pre)
    ensures var (part', done') := ProseRun(job, done, part);
            Rewrote(done, done', pre, part, part', post, edits)
  {
    JoinSplit(part);
    edits := LinesEdits(job, done, Split(part, '\n'), pre, post);
  }

  lemma PartsRunRest(job: Job, done: set<string>, parts: seq<string>)
    requires |parts| > 1
    ensures var (part, done') := ProseRun(job, done, parts[0]);
            var (parts', done'') := PartsRun(job, done, parts);
            && parts'[0] == part && parts'[1] == parts[1] && (parts'[2..], done'') == PartsRun(job, done', parts[2..])
            && Concat(parts') == part + (parts[1] + Concat(parts'[2..]))
            && Concat(parts) == parts[0] + (parts[1] + Concat(parts[2..]))
  {
    var (part, done') := ProseRun(job, done, parts[0]);
    var rest := PartsRun(job, done', parts[2..]).0;
    assert ([part, parts[1]] + rest)[2..] == rest;
    ConcatOneTwo(parts);
    ConcatOneTwo(PartsRun(job, done, parts).0);
  }

  lemma {:induction false} PartsEdits(job: Job, done: set<string>, parts: seq<string>, pre: string, post: string)
    returns (edits: seq<Edit>)
    requires Alternates(parts) && EndsClosed(pre)
    ensures var (parts', done') := PartsRun(job, done, parts);
            Rewrote(done, done', pre, Concat(parts), Concat(parts'), post, edits)
    decreases |parts|
  {
    var (part, done') := ProseRun(job, done, parts[0]);
    if |parts| == 1 {
      ConcatOneTwo(parts);
      ConcatOneTwo([part]);
      edits := ProseEdits(job, done, parts[0], pre, post);
    } else {
      var kept := parts[1];
      AlternatesRest(parts);
      PartsRunRest(job, done, parts);
      var (parts', done'') := PartsRun(job, done, parts);
      var x, x' := Concat(parts[2..]), Concat(parts'[2..]);
      var first := ProseEdits(job, done, parts[0], pre, kept + x + post);
      PieceEnds(pre, part, kept);
      var second := PartsEdits(job, done', parts[2..], pre + (part + kept), post);
      RewroteTwo(done, done', done'', pre, parts[0], part, kept, x, x', post, first, second);
      edits := first + second;
    }
  }

  // A run on a page is one edit for each target it links, each on a match of a term for it; taking the links
  // out again gives back the page.
  lemma BodyEdits(job: Job, body: string) returns (edits: seq<Edit>)
    ensures var (body', done) := BodyRun(job, body);
            && Edited(body, edits, body')
            && Links(edits, done)
            && Erase(body', edits) == Some(body)
  {
    var (body', done) := BodyRun(job, body);
    edits := PartsEdits(job, {}, SplitFences(body), "", "");
    assert Page("", body, "") == body && Page("", body', "") == body';
    assert done - {} == done;
    EraseEdited(body, edits, body');
  }
}

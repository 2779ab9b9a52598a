// Any number of applies to one spec, by any managers, starting without a record of who holds what.
module ApplyRuns {
  import opened ApplyOrder
  import opened Documents
  import opened FieldPaths
  import opened FlatFields
  import opened ServerApply
  import opened Wrappers

  // An accepted apply, and the fields it left. One that is refused changes nothing and is left out.
  datatype Applied = Applied(m: SsaMerge, merged: Flat)

  // next is applied to what before left behind.
  ghost predicate Follows(before: Applied, next: SsaMerge) {
    && next.current == Stored(before.merged)
    && forall f :: f in next.owners <==> before.m.OwnsAfter(f, before.merged)
  }

  ghost predicate IsRun(json: JsonForm, history: seq<Applied>) {
    && |history| > 0
    && PathsApart(history[0].m.current) && history[0].m.owners == []
    && (forall i | 0 <= i < |history| ::
          history[i].m.json == json && PathsApart(history[i].m.sent) && history[i].m.IsMerged(history[i].merged))
    && (forall i | 0 < i < |history| :: Follows(history[i - 1], history[i].m))
  }

  // What the manager sent in its latest apply.
  function LastSent(history: seq<Applied>, manager: string): Option<Flat> {
    if |history| == 0 then None
    else
      var last := history[|history| - 1];
      if last.m.manager == manager then Some(last.m.sent) else LastSent(history[..|history| - 1], manager)
  }

  ghost predicate OnRecord(history: seq<Applied>, f: ManagedField)
    requires |history| > 0
  {
    var last := history[|history| - 1];
    last.m.OwnsAfter(f, last.merged)
  }

  function Fields(history: seq<Applied>): Flat
    requires |history| > 0
  {
    history[|history| - 1].merged
  }

  // The field is there, and holds the value that its manager's latest apply sent for it.
  ghost predicate Holds(json: JsonForm, history: seq<Applied>, f: ManagedField)
    requires |history| > 0
  {
    var sent := LastSent(history, f.manager);
    && sent.Some? && f.path in sent.value && !sent.value[f.path].Null?
    && f.path in Fields(history) && !Fields(history)[f.path].Null?
    && SameValue(json, sent.value[f.path], Fields(history)[f.path])
  }

  lemma SameTwice(json: JsonForm, a: Value, b: Value, c: Value)
    requires SameValue(json, a, b) && SameValue(json, b, c)
    ensures SameValue(json, a, c) && SameValue(json, c, a)
  {
  }

  lemma EarlierRun(json: JsonForm, history: seq<Applied>)
    requires IsRun(json, history) && |history| > 1
    ensures IsRun(json, history[..|history| - 1])
  {
    var earlier := history[..|history| - 1];
    forall i | 0 < i < |earlier| ensures Follows(earlier[i - 1], earlier[i].m) {
      assert Follows(history[i - 1], history[i].m);
    }
  }

  // What an apply leaves of another manager's claim.
  lemma ClaimKept(json: JsonForm, m: SsaMerge, merged: Flat, f: ManagedField)
    requires m.json == json && m.IsMerged(merged) && m.OwnsAfter(f, merged) && f.manager != m.manager
    requires f.path in m.current && !m.current[f.path].Null?
    ensures f in m.owners && f.path in merged && !merged[f.path].Null?
    ensures SameValue(json, m.current[f.path], merged[f.path])
  {
    assert Lookup(merged, f.path) == m.MergedAt(f.path, |m.owners|, m.sent.Keys);
    if f.path in m.sent {
      assert Overlaps(f.path, f.path);
    }
  }

  lemma OwnClaim(m: SsaMerge, merged: Flat, f: ManagedField)
    requires m.IsMerged(merged) && m.OwnsAfter(f, merged) && f.manager == m.manager
    ensures f.path in m.sent && !m.sent[f.path].Null? && f.path in merged && merged[f.path] == m.sent[f.path]
  {
    assert Lookup(merged, f.path) == m.MergedAt(f.path, |m.owners|, m.sent.Keys);
  }

  // Over any run: every field on record is there, and holds the value its manager sent last, as JSON at least.
  lemma {:induction false} RecordHolds(json: JsonForm, history: seq<Applied>, f: ManagedField)
    requires IsRun(json, history) && OnRecord(history, f)
    ensures Holds(json, history, f)
    decreases |history|
  {
    var n := |history| - 1;
    var last := history[n];
    if f.manager == last.m.manager {
      OwnClaim(last.m, last.merged, f);
    } else {
      assert f in last.m.owners;
      assert n > 0;
      assert Follows(history[n - 1], last.m);
      EarlierRun(json, history);
      var earlier := history[..n];
      RecordHolds(json, earlier, f);
      ClaimKept(json, last.m, last.merged, f);
      var sent := LastSent(earlier, f.manager).value;
      SameTwice(json, sent[f.path], Fields(earlier)[f.path], last.merged[f.path]);
    }
  }

  lemma {:induction false} FieldsApart(json: JsonForm, history: seq<Applied>)
    requires IsRun(json, history)
    ensures PathsApart(Fields(history)) && PathsApart(history[|history| - 1].m.current)
    decreases |history|
  {
    var n := |history| - 1;
    if n > 0 {
      EarlierRun(json, history);
      FieldsApart(json, history[..n]);
      assert Follows(history[n - 1], history[n].m);
      assert history[n].m.current == Stored(Fields(history[..n]));
    }
    history[n].m.MergedPathsApart(history[n].merged);
  }

  // Over any run: fields on record never contain one another, and managers who share one last sent the same.
  lemma RecordApart(json: JsonForm, history: seq<Applied>, f: ManagedField, g: ManagedField)
    requires IsRun(json, history) && OnRecord(history, f) && OnRecord(history, g) && Overlaps(f.path, g.path)
    ensures f.path == g.path && Holds(json, history, f) && Holds(json, history, g)
    ensures SameValue(json, LastSent(history, f.manager).value[f.path], LastSent(history, g.manager).value[f.path])
  {
    RecordHolds(json, history, f);
    RecordHolds(json, history, g);
    FieldsApart(json, history);
    var a, b := LastSent(history, f.manager).value[f.path], LastSent(history, g.manager).value[f.path];
    SameTwice(json, b, Fields(history)[f.path], Fields(history)[f.path]);
    SameTwice(json, a, Fields(history)[f.path], b);
  }

  // So the next apply without force, if it is not refused, leaves every field of the others as it is, and theirs.
  lemma NextKeepsOthers(json: JsonForm, history: seq<Applied>, next: SsaMerge, merged: Flat, f: ManagedField)
    requires IsRun(json, history) && OnRecord(history, f)
    requires next.json == json && Follows(history[|history| - 1], next) && PathsApart(next.sent)
    requires next.IsMerged(merged) && !next.Conflicting() && f.manager != next.manager
    ensures f.path in Fields(history) && f.path in merged
    ensures SameValue(json, Fields(history)[f.path], merged[f.path])
    ensures OnRecord(history + [Applied(next, merged)], f)
  {
    FieldsApart(json, history);
    forall g | g in next.owners ensures g.path in next.current {
      RecordHolds(json, history, g);
    }
    RecordHolds(json, history, f);
    next.UnforcedKeepsOthers(merged, f);
  }

  // Where one manager made all the applies, every field on record is that manager's.
  lemma OneManagerOwns(json: JsonForm, history: seq<Applied>, manager: string, f: ManagedField)
    requires IsRun(json, history) && OnRecord(history, f)
    requires forall i | 0 <= i < |history| :: history[i].m.manager == manager
    ensures f.manager == manager
  {
    var n := |history| - 1;
    if n > 0 {
      assert Follows(history[n - 1], history[n].m);
      if f in history[n].m.owners {
        EarlierRun(json, history);
        OneManagerOwns(json, history[..n], manager, f);
      }
    }
  }

  // So that manager is never refused, with or without force.
  method ApplyAgain(json: JsonForm, ghost history: seq<Applied>, next: SsaMerge) returns (out: Outcome)
    requires IsRun(json, history) && forall i | 0 <= i < |history| :: history[i].m.manager == next.manager
    requires Follows(history[|history| - 1], next) && PathsApart(next.sent)
    ensures out.Accepted?
  {
    forall o | o in next.owners ensures o.manager == next.manager {
      OneManagerOwns(json, history, next.manager, o);
    }
    out := next.Run();
  }
}

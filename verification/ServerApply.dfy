// Server-side apply of a flattened patch, with field ownership.
module ServerApply {
  import opened Documents
  import opened FieldPaths
  import opened FlatFields
  import opened Strings
  import opened Wrappers

  datatype ManagedField = ManagedField(path: string, manager: string)

  datatype Conflict = Conflict(path: string, manager: string)

  datatype Outcome =
    | Refused(conflicts: seq<Conflict>)
    | Accepted(merged: Flat, owners: seq<ManagedField>)

  // What a value becomes when it is encoded as JSON and decoded again; None when it cannot be encoded. Decoding
  // makes one number of 1 and 1.0, so values that differ may become the same.
  type JsonForm = Value -> Option<Value>

  predicate JsonEqual(json: JsonForm, a: Option<Value>, b: Value) {
    a.Some? && json(a.value).Some? && json(a.value) == json(b)
  }

  // Equal as they stand, or once encoded.
  predicate SameValue(json: JsonForm, a: Value, b: Value) {
    a == b || JsonEqual(json, Some(a), b)
  }

  // ---- The order conflicts are reported in: by path, then by manager ----

  predicate ComesFirst(a: Conflict, b: Conflict) {
    if a.path != b.path then Less(a.path, b.path) else Leq(a.manager, b.manager)
  }

  lemma ComesFirstTotal(a: Conflict, b: Conflict)
    ensures ComesFirst(a, b) || ComesFirst(b, a)
  {
    LeqTotal(a.path, b.path);
    LeqTotal(a.manager, b.manager);
  }

  lemma ComesFirstTransitive(a: Conflict, b: Conflict, c: Conflict)
    requires ComesFirst(a, b) && ComesFirst(b, c)
    ensures ComesFirst(a, c)
  {
    if a.path == b.path == c.path {
      LeqTransitive(a.manager, b.manager, c.manager);
    } else if a.path != b.path && b.path != c.path {
      LeqTransitive(a.path, b.path, c.path);
      if a.path == c.path {
        LeqAntisymmetric(a.path, b.path);
      }
    }
  }

  ghost predicate InReportOrder(s: seq<Conflict>) {
    forall i, j | 0 <= i < j < |s| :: ComesFirst(s[i], s[j])
  }

  lemma FirstOfAll(c: Conflict, s: seq<Conflict>)
    requires InReportOrder(s) && |s| > 0 && ComesFirst(c, s[0])
    ensures InReportOrder([c] + s)
  {
    forall i | 0 <= i < |s| ensures ComesFirst(c, s[i]) {
      if i > 0 {
        ComesFirstTransitive(c, s[0], s[i]);
      }
    }
  }

  lemma FirstOfRest(first: Conflict, c: Conflict, s: seq<Conflict>, rest: seq<Conflict>)
    requires ComesFirst(first, c) && (forall d | d in s :: ComesFirst(first, d))
    requires InReportOrder(rest) && multiset(rest) == multiset(s) + multiset{c}
    ensures InReportOrder([first] + rest)
  {
    forall d | d in rest ensures ComesFirst(first, d) {
      assert d in multiset(rest);
      assert d == c || d in s;
    }
  }

  function InsertConflict(c: Conflict, s: seq<Conflict>): (r: seq<Conflict>)
    requires InReportOrder(s)
    ensures InReportOrder(r) && multiset(r) == multiset(s) + multiset{c}
  {
    if |s| == 0 then [c]
    else if ComesFirst(c, s[0]) then
      FirstOfAll(c, s);
      [c] + s
    else
      ComesFirstTotal(c, s[0]);
      assert s == [s[0]] + s[1..];
      var rest := InsertConflict(c, s[1..]);
      FirstOfRest(s[0], c, s[1..], rest);
      [s[0]] + rest
  }

  function SortConflicts(s: seq<Conflict>): (r: seq<Conflict>)
    ensures InReportOrder(r) && multiset(r) == multiset(s)
  {
    if |s| == 0 then []
    else
      assert s == [s[0]] + s[1..];
      InsertConflict(s[0], SortConflicts(s[1..]))
  }

  lemma SameMembers(a: seq<Conflict>, b: seq<Conflict>)
    requires multiset(a) == multiset(b)
    ensures forall c :: c in a <==> c in b
  {
    assert forall c :: c in a <==> c in multiset(a);
    assert forall c :: c in b <==> c in multiset(b);
  }

  function ConflictWith(o: ManagedField): Conflict {
    Conflict(o.path, o.manager)
  }

  datatype SsaMerge = SsaMerge(
    json: JsonForm, current: Flat, sent: Flat, owners: seq<ManagedField>, manager: string, force: bool)
  {

    // Owner o stands in the way of what is sent at p.
    predicate ConflictAt(p: string, o: ManagedField) {
      && p in sent
      && o.manager != manager
      && Overlaps(o.path, p)
      && !(!sent[p].Null? && o.path == p && JsonEqual(json, Lookup(current, p), sent[p]))
    }

    // What the source refuses: another manager holds a field on the line of what is sent at p, unless it is that
    // very field, it is not removed, and it has the value sent already, as JSON.
    ghost predicate Forbids(p: string, o: ManagedField) {
      && p in sent && o in owners && o.manager != manager
      && (o.path == p || p + "/" <= o.path || o.path + "/" <= p)
      && !(o.path == p && !sent[p].Null? && p in current && json(sent[p]).Some? && json(current[p]) == json(sent[p]))
    }

    lemma ForbidsIff(p: string, o: ManagedField)
      ensures Forbids(p, o) <==> o in owners && ConflictAt(p, o)
    {
    }

    // A refusal lists exactly what stands in the way, and there is something.
    lemma ReportsForbidden(conflicts: seq<Conflict>)
      requires Reports(conflicts, sent.Keys)
      ensures forall c :: c in conflicts <==> exists p, o :: Forbids(p, o) && c == Conflict(o.path, o.manager)
      ensures |conflicts| > 0 <==> exists p, o :: Forbids(p, o)
    {
      forall c ensures c in conflicts <==> exists p, o :: Forbids(p, o) && c == Conflict(o.path, o.manager) {
        assert c in conflicts <==> multiset(conflicts)[c] > 0;
        if hit :| hit in Hits(c, sent.Keys) {
          ForbidsIff(hit.0, owners[hit.1]);
        }
        if p, o :| Forbids(p, o) && c == Conflict(o.path, o.manager) {
          var i :| 0 <= i < |owners| && owners[i] == o;
          assert (p, i) in Hits(c, sent.Keys);
        }
      }
      if |conflicts| > 0 {
        assert conflicts[0] in conflicts;
      }
      if p, o :| Forbids(p, o) {
        assert Conflict(o.path, o.manager) in conflicts;
      }
    }

    ghost predicate Conflicting() {
      exists p, i :: 0 <= i < |owners| && ConflictAt(p, owners[i])
    }

    // The owners among the first n that stand in the way at p, as the conflict c.
    function RowHits(c: Conflict, p: string, n: nat): set<(string, int)>
      requires n <= |owners|
    {
      set i | 0 <= i < n && ConflictAt(p, owners[i]) && c == ConflictWith(owners[i]) :: (p, i)
    }

    // Every pair of a sent path and an owner in its way that is the conflict c.
    function Hits(c: Conflict, among: set<string>): set<(string, int)> {
      set p, i | p in among && 0 <= i < |owners| && ConflictAt(p, owners[i]) && c == ConflictWith(owners[i]) :: (p, i)
    }

    // Each conflict is reported once for every sent path and owner that clash.
    ghost predicate Reports(conflicts: seq<Conflict>, among: set<string>) {
      forall c :: multiset(conflicts)[c] == |Hits(c, among)|
    }

    lemma NextHit(c: Conflict, p: string, n: nat)
      requires n < |owners|
      ensures |RowHits(c, p, n + 1)| ==
              |RowHits(c, p, n)| + if ConflictAt(p, owners[n]) && c == ConflictWith(owners[n]) then 1 else 0
    {
      var more := if ConflictAt(p, owners[n]) && c == ConflictWith(owners[n]) then {(p, n as int)} else {};
      assert RowHits(c, p, n + 1) == RowHits(c, p, n) + more;
    }

    lemma NextRow(c: Conflict, among: set<string>, p: string)
      requires p !in among
      ensures |Hits(c, among + {p})| == |Hits(c, among)| + |RowHits(c, p, |owners|)|
    {
      assert Hits(c, among + {p}) == Hits(c, among) + RowHits(c, p, |owners|);
    }

    predicate OwnedByOther(path: string) {
      exists i | 0 <= i < |owners| :: owners[i].manager != manager && owners[i].path == path
    }

    // A field this manager held and no longer sends, and that nobody else holds.
    predicate Dropped(o: ManagedField) {
      o.manager == manager && o.path !in sent && !OwnedByOther(o.path)
    }

    ghost predicate Drops(s: string, n: nat)
      requires n <= |owners|
    {
      exists i | 0 <= i < n :: Dropped(owners[i]) && Overlaps(s, owners[i].path)
    }

    ghost predicate Sends(s: string, among: set<string>) {
      exists q | q in among && q in sent :: Overlaps(s, q)
    }

    // The merged field s after the first n owners were looked at and the paths in done were set.
    ghost function MergedAt(s: string, n: nat, done: set<string>): Option<Value>
      requires n <= |owners|
    {
      if s in done && s in sent then if sent[s].Null? then None else Some(sent[s])
      else if Sends(s, done) || Drops(s, n) then None
      else Lookup(current, s)
    }

    ghost predicate IsMerged(merged: Flat) {
      forall s :: Lookup(merged, s) == MergedAt(s, |owners|, sent.Keys)
    }

    // Another manager's claim that outlives this apply.
    predicate KeepOther(o: ManagedField, merged: Flat) {
      && o.path in merged
      && forall p | p in sent && Overlaps(p, o.path) ::
           p == o.path && JsonEqual(json, Lookup(current, o.path), merged[o.path])
    }

    // f is recorded as an owner after the apply.
    predicate OwnsAfter(f: ManagedField, merged: Flat) {
      || (f in owners && f.manager != manager && KeepOther(f, merged))
      || (f.manager == manager && f.path in sent && !sent[f.path].Null?)
    }

    // The owners in the way at one sent path.
    method FindConflictsAt(p: string) returns (found: seq<Conflict>)
      requires p in sent
      ensures forall c :: multiset(found)[c] == |RowHits(c, p, |owners|)|
    {
      found := [];
      for j := 0 to |owners|
        invariant forall c :: multiset(found)[c] == |RowHits(c, p, j)|
      {
        var o := owners[j];
        forall c {
          NextHit(c, p, j);
        }
        if o.manager != manager && Overlaps(o.path, p)
           && !(!sent[p].Null? && o.path == p && JsonEqual(json, Lookup(current, p), sent[p])) {
          found := found + [ConflictWith(o)];
        }
      }
    }

    method FindConflicts() returns (conflicts: seq<Conflict>)
      ensures Reports(conflicts, sent.Keys)
      ensures forall c :: c in conflicts <==> exists p, o :: Forbids(p, o) && c == Conflict(o.path, o.manager)
    {
      conflicts := [];
      var todo := sent.Keys;
      assert sent.Keys - todo == {};
      while todo != {}
        invariant todo <= sent.Keys
        invariant Reports(conflicts, sent.Keys - todo)
        decreases todo
      {
        var p :| p in todo;
        var found := FindConflictsAt(p);
        forall c {
          NextRow(c, sent.Keys - todo, p);
        }
        assert sent.Keys - (todo - {p}) == (sent.Keys - todo) + {p};
        conflicts := conflicts + found;
        todo := todo - {p};
      }
      assert sent.Keys - {} == sent.Keys;
      ReportsForbidden(conflicts);
    }

    // Something is reported exactly if something is in the way.
    lemma ReportedIffConflicting(conflicts: seq<Conflict>)
      requires Reports(conflicts, sent.Keys)
      ensures |conflicts| > 0 <==> Conflicting()
    {
      if |conflicts| > 0 {
        var c := conflicts[0];
        assert c in multiset(conflicts);
        var hit :| hit in Hits(c, sent.Keys);
        assert ConflictAt(hit.0, owners[hit.1]);
      }
      if Conflicting() {
        var p, i :| 0 <= i < |owners| && ConflictAt(p, owners[i]);
        var c := ConflictWith(owners[i]);
        assert (p, i) in Hits(c, sent.Keys);
        assert c in multiset(conflicts);
      }
    }

    method Run() returns (out: Outcome)
      requires PathsApart(sent)
      ensures out.Refused? <==> !force && Conflicting()
      ensures out.Refused? <==> !force && exists p, o :: Forbids(p, o)
      ensures (forall o | o in owners :: o.manager == manager) ==> out.Accepted?
      ensures out.Refused? ==>
                forall c :: c in out.conflicts <==> exists p, o :: Forbids(p, o) && c == Conflict(o.path, o.manager)
      ensures out.Refused? ==> Reports(out.conflicts, sent.Keys) && InReportOrder(out.conflicts)
      ensures out.Accepted? ==> IsMerged(out.merged)
      ensures out.Accepted? ==> forall f :: f in out.owners <==> OwnsAfter(f, out.merged)
    {
      var conflicts := FindConflicts();
      ReportedIffConflicting(conflicts);
      ReportsForbidden(conflicts);
      if |conflicts| > 0 && !force {
        var sorted := SortConflicts(conflicts);
        SameMembers(sorted, conflicts);
        return Refused(sorted);
      }
      var merged := MergeFields();
      var kept := RecordOwners(merged);
      out := Accepted(merged, kept);
    }

    // First what this manager gave up is dropped, then what it sends is set.
    method MergeFields() returns (fields: Flat)
      requires PathsApart(sent)
      ensures IsMerged(fields)
    {
      var merged := new FlatSpec(current);
      for i := 0 to |owners|
        invariant forall s :: Lookup(merged.fields, s) == MergedAt(s, i, {})
      {
        var o := owners[i];
        ghost var before := merged.fields;
        if o.manager == manager && !(o.path in sent || OwnedByOther(o.path)) {
          merged.Set(o.path, Null);
        }
        forall s ensures Lookup(merged.fields, s) == MergedAt(s, i + 1, {}) {
          assert Lookup(before, s) == MergedAt(s, i, {});
          assert Drops(s, i + 1) <==> Drops(s, i) || (Dropped(o) && Overlaps(s, o.path));
        }
      }
      SetSent(merged);
      fields := merged.fields;
    }

    method SetSent(merged: FlatSpec)
      requires PathsApart(sent)
      requires forall s :: Lookup(merged.fields, s) == MergedAt(s, |owners|, {})
      modifies merged
      ensures IsMerged(merged.fields)
    {
      var todo := sent.Keys;
      assert sent.Keys - todo == {};
      while todo != {}
        invariant todo <= sent.Keys
        invariant forall s :: Lookup(merged.fields, s) == MergedAt(s, |owners|, sent.Keys - todo)
        decreases todo
      {
        var p :| p in todo;
        ghost var before, done := merged.fields, sent.Keys - todo;
        merged.Set(p, sent[p]);
        todo := todo - {p};
        forall s ensures Lookup(merged.fields, s) == MergedAt(s, |owners|, sent.Keys - todo) {
          assert Lookup(before, s) == MergedAt(s, |owners|, done);
          SetStep(s, p, done);
          assert sent.Keys - todo == done + {p};
        }
      }
      assert sent.Keys - {} == sent.Keys;
    }

    // f is a claim of another manager, among the first n, that outlives this apply.
    ghost predicate KeptAmong(f: ManagedField, merged: Flat, n: nat)
      requires n <= |owners|
    {
      exists j | 0 <= j < n :: f == owners[j] && f.manager != manager && KeepOther(f, merged)
    }

    method RecordOwners(merged: Flat) returns (kept: seq<ManagedField>)
      ensures forall f :: f in kept <==> OwnsAfter(f, merged)
    {
      kept := [];
      for i := 0 to |owners|
        invariant forall f :: f in kept <==> KeptAmong(f, merged, i)
      {
        var o := owners[i];
        ghost var was := kept;
        if !(o.manager == manager || !KeepOther(o, merged)) {
          kept := kept + [o];
          assert forall f :: f in kept <==> f in was || f == o;
        }
      }
      ghost var others := kept;
      var todo := sent.Keys;
      while todo != {}
        invariant todo <= sent.Keys
        invariant forall f :: f in kept <==>
                    f in others || (f.manager == manager && f.path in sent.Keys - todo && !sent[f.path].Null?)
        decreases todo
      {
        var p :| p in todo;
        todo := todo - {p};
        ghost var was := kept;
        if !sent[p].Null? {
          kept := kept + [ManagedField(p, manager)];
          assert forall f :: f in kept <==> f in was || f == ManagedField(p, manager);
        }
      }
      assert sent.Keys - {} == sent.Keys;
    }

    // Setting one more sent path, which overlaps no other.
    lemma SetStep(s: string, p: string, done: set<string>)
      requires PathsApart(sent) && p in sent && p !in done
      ensures MergedAt(s, |owners|, done + {p}) ==
              if s == p then if sent[p].Null? then None else Some(sent[p])
              else if Overlaps(s, p) then None
              else MergedAt(s, |owners|, done)
    {
      assert Sends(s, done + {p}) <==> Sends(s, done) || Overlaps(s, p);
    }

    // ---- What an apply keeps ----

    // Every field on record is really there afterwards, so recorded fields never contain one another.
    lemma OwnersAreLive(merged: Flat, f: ManagedField)
      requires IsMerged(merged) && OwnsAfter(f, merged)
      ensures f.path in merged
    {
      assert Lookup(merged, f.path) == MergedAt(f.path, |owners|, sent.Keys);
    }

    lemma MergedPathsApart(merged: Flat)
      requires PathsApart(current) && PathsApart(sent) && IsMerged(merged)
      ensures PathsApart(merged)
    {
      forall a, b | a in merged && b in merged && Overlaps(a, b) ensures a == b {
        assert Lookup(merged, a) == MergedAt(a, |owners|, sent.Keys);
        assert Lookup(merged, b) == MergedAt(b, |owners|, sent.Keys);
      }
    }

    lemma MergedWellFormed(merged: Flat)
      requires WellFormed(current) && WellFormed(sent) && IsMerged(merged)
      ensures WellFormed(merged)
    {
      MergedPathsApart(merged);
      forall s | s in merged ensures IsFieldPath(s) && IsLeaf(merged[s]) {
        assert Lookup(merged, s) == MergedAt(s, |owners|, sent.Keys);
      }
    }

    // An accepted apply without force never changes or removes a field that another manager holds,
    // as long as what is on record is really there.
    lemma UnforcedKeepsOthers(merged: Flat, o: ManagedField)
      requires PathsApart(current) && PathsApart(sent) && IsMerged(merged)
      requires !Conflicting()
      requires forall f | f in owners :: f.path in current
      requires o in owners && o.manager != manager
      ensures o.path in merged && SameValue(json, current[o.path], merged[o.path])
      ensures KeepOther(o, merged) && OwnsAfter(o, merged)
    {
      var n :| 0 <= n < |owners| && owners[n] == o;
      assert Lookup(merged, o.path) == MergedAt(o.path, |owners|, sent.Keys);
      forall p | p in sent && Overlaps(o.path, p)
        ensures p == o.path && !sent[p].Null? && JsonEqual(json, Lookup(current, p), sent[p])
      {
        assert !ConflictAt(p, owners[n]);
      }
      forall i | 0 <= i < |owners| && Overlaps(o.path, owners[i].path) ensures !Dropped(owners[i]) {
        assert owners[i] in owners && owners[i].path == owners[n].path;
      }
      assert !Drops(o.path, |owners|);
      forall p | p in sent && Overlaps(p, o.path)
        ensures p == o.path && JsonEqual(json, Lookup(current, o.path), merged[o.path])
      {
        assert Overlaps(o.path, p);
      }
    }

    // After an apply two managers share a field only with the value it already had.
    lemma SharingMeansAgreeing(merged: Flat, other: ManagedField, mine: ManagedField)
      requires IsMerged(merged) && OwnsAfter(other, merged) && OwnsAfter(mine, merged)
      requires mine.manager == manager && other.manager != manager && Overlaps(mine.path, other.path)
      ensures mine.path == other.path && JsonEqual(json, Lookup(current, mine.path), merged[mine.path])
      ensures merged[mine.path] == sent[mine.path]
    {
      assert Lookup(merged, other.path) == MergedAt(other.path, |owners|, sent.Keys);
    }
  }
}

// One `edit`: diff the two documents, flatten the patch, merge it on the server, rebuild the spec.
module EditSession {
  import opened Documents
  import opened SpecPatch
  import opened FieldPaths
  import opened FlatFields
  import opened ServerApply
  import opened ApplyOrder
  import opened Wrappers

  // A sent field is on one line with p.
  ghost predicate Touches(patch: Doc, p: Path) {
    !Silent(patch, p)
  }

  // The merge m takes the server document and the patch, and spec is what comes out of it.
  ghost predicate Applies(m: SsaMerge, server: Doc, patch: Doc, merged: Flat, spec: Doc) {
    FlatOf(m.current, server) && FlatOf(m.sent, patch) && m.IsMerged(merged) && HoldsLeaves(spec, merged)
  }

  ghost predicate DropsAt(m: SsaMerge, p: Path) {
    m.Drops(Encode(p), |m.owners|)
  }

  // Something sent overlaps the written path exactly if something sent is on one line with the field.
  lemma SendsIffTouches(m: SsaMerge, patch: Doc, p: Path)
    requires FlatOf(m.sent, patch) && |p| > 0
    ensures m.Sends(Encode(p), m.sent.Keys) <==> Touches(patch, p)
  {
    var s := Encode(p);
    if Touches(patch, p) {
      var q: Path :| |q| > 0 && Related(p, q) && Leaf(patch, q).Some?;
      FlatOfAt(m.sent, patch, q);
      OverlapsIffRelated(p, q);
      assert Encode(q) in m.sent.Keys;
    }
    if m.Sends(s, m.sent.Keys) {
      var t :| t in m.sent.Keys && Overlaps(s, t);
      FlatOfKey(m.sent, patch, t);
      OverlapsIffRelated(p, Decode(t));
    }
  }

  // A leaf of the merged spec comes from the patch, or else from the server document unless something
  // on its line was sent or dropped.
  lemma MergedLeaf(m: SsaMerge, server: Doc, patch: Doc, merged: Flat, spec: Doc, p: Path)
    requires |p| > 0 && Applies(m, server, patch, merged, spec)
    ensures Leaf(spec, p) ==
            if Leaf(patch, p).Some? then Present(Leaf(patch, p))
            else if Touches(patch, p) || DropsAt(m, p) then None
            else Present(Leaf(server, p))
  {
    FlatOfAt(m.sent, patch, p);
    FlatOfAt(m.current, server, p);
    SendsIffTouches(m, patch, p);
    assert Lookup(merged, Encode(p)) == m.MergedAt(Encode(p), |m.owners|, m.sent.Keys);
    assert Leaf(spec, p) == Shown(merged, p);
  }

  // The manager's own earlier claim takes a leaf away that the patch says nothing about.
  ghost predicate ForgetsAt(m: SsaMerge, orig: Doc, patch: Doc, p: Path) {
    |p| > 0 && Leaf(orig, p).Some? && DropsAt(m, p) && !Touches(patch, p)
  }

  ghost predicate Forgets(m: SsaMerge, orig: Doc, patch: Doc) {
    exists p: Path :: ForgetsAt(m, orig, patch, p)
  }

  // The saved spec is the edited one exactly when no edited field is null and no earlier claim of the
  // same manager, unsent and held by nobody else, covers a field the edit left alone.
  lemma EditExact(m: SsaMerge, orig: Doc, edited: Doc, merged: Flat, spec: Doc)
    requires Applies(m, orig, SpecChanges(orig, edited), merged, spec)
    ensures spec == edited <==> NullFree(edited) && !Forgets(m, orig, SpecChanges(orig, edited))
  {
    var patch := SpecChanges(orig, edited);
    if NullFree(edited) && !Forgets(m, orig, patch) {
      forall p: Path | |p| > 0 ensures Leaf(spec, p) == Leaf(edited, p) {
        EditedLeafArrives(m, orig, edited, merged, spec, p);
      }
      DocsByLeaves(spec, edited);
    }
    if spec == edited {
      forall p: Path ensures Leaf(edited, p) != Some(Null) {
        if |p| > 0 {
          assert Leaf(spec, p) == Shown(merged, p);
        }
      }
      NullFreeByLeaves(edited);
      forall p: Path ensures !ForgetsAt(m, orig, patch, p) {
        if |p| > 0 && Leaf(orig, p).Some? && DropsAt(m, p) {
          MergedLeaf(m, orig, patch, merged, spec, p);
          if Leaf(edited, p) != Leaf(orig, p) {
            var q := LostLeafIsTouched(orig, edited, p);
          } else if Leaf(patch, p).Some? {
            assert Related(p, p);
          }
        }
      }
    }
  }

  lemma EditedLeafArrives(m: SsaMerge, orig: Doc, edited: Doc, merged: Flat, spec: Doc, p: Path)
    requires Applies(m, orig, SpecChanges(orig, edited), merged, spec)
    requires NullFree(edited) && !Forgets(m, orig, SpecChanges(orig, edited)) && |p| > 0
    ensures Leaf(spec, p) == Leaf(edited, p)
  {
    var patch := SpecChanges(orig, edited);
    MergedLeaf(m, orig, patch, merged, spec, p);
    PatchLeaves(orig, edited, p);
    NullFreeLeaf(edited, p);
    assert !ForgetsAt(m, orig, patch, p);
    if Leaf(orig, p).Some? && Leaf(edited, p) != Leaf(orig, p) {
      var q := LostLeafIsTouched(orig, edited, p);
    } else if Leaf(edited, p).Some? && Leaf(edited, p) == Leaf(orig, p) {
      KeptLeafIsSilent(orig, edited, p);
    }
  }

  // Whatever else the server holds, hidden or masked, an untouched leaf stays and an untouched gap stays a gap.
  lemma ServerFrame(m: SsaMerge, server: Doc, orig: Doc, edited: Doc, merged: Flat, spec: Doc, p: Path)
    requires |p| > 0 && Applies(m, server, SpecChanges(orig, edited), merged, spec)
    requires Untouched(orig, edited, p) && !DropsAt(m, p)
    ensures Leaf(spec, p) == Present(Leaf(server, p))
  {
    var patch := SpecChanges(orig, edited);
    MergedLeaf(m, server, patch, merged, spec, p);
    SilentIffUntouched(orig, edited, p);
    assert Related(p, p);
  }

  // A field set by one edit is taken away by the next edit of the same manager that leaves it alone.
  lemma NextEditDropsEarlierField(
      first: SsaMerge, orig: Doc, edited: Doc, merged: Flat, spec: Doc,
      next: SsaMerge, later: Doc, merged': Flat, spec': Doc, p: Path)
    requires Applies(first, orig, SpecChanges(orig, edited), merged, spec)
    requires |p| > 0 && ChangedLeaf(orig, edited, p) && Leaf(edited, p) != Some(Null)
    requires next.manager == first.manager
    requires forall f :: f in next.owners <==> first.OwnsAfter(f, merged)
    requires forall f | f in next.owners && f.path == Encode(p) :: f.manager == first.manager
    requires Applies(next, edited, SpecChanges(edited, later), merged', spec')
    requires Leaf(later, p) == Leaf(edited, p)
    ensures Leaf(spec', p) == None
    ensures ForgetsAt(next, edited, SpecChanges(edited, later), p)
  {
    var i := ClaimIsRecorded(first, orig, edited, merged, next, p);
    UnsentClaimDrops(next, edited, later, p, i);
    MergedLeaf(next, edited, SpecChanges(edited, later), merged', spec', p);
  }

  // A leaf that an edit leaves alone is dropped if its manager alone has a claim on it.
  lemma UnsentClaimDrops(next: SsaMerge, edited: Doc, later: Doc, p: Path, i: nat)
    requires FlatOf(next.sent, SpecChanges(edited, later))
    requires |p| > 0 && Leaf(later, p).Some? && Leaf(later, p) == Leaf(edited, p)
    requires i < |next.owners| && next.owners[i] == ManagedField(Encode(p), next.manager)
    requires forall f | f in next.owners && f.path == Encode(p) :: f.manager == next.manager
    ensures Silent(SpecChanges(edited, later), p) && Leaf(SpecChanges(edited, later), p).None?
    ensures DropsAt(next, p)
  {
    KeptLeafIsSilent(edited, later, p);
    assert Related(p, p);
    FlatOfAt(next.sent, SpecChanges(edited, later), p);
    assert next.Dropped(next.owners[i]) && Overlaps(Encode(p), next.owners[i].path);
  }

  // What an edit sets is on record as its manager's.
  lemma ClaimIsRecorded(first: SsaMerge, orig: Doc, edited: Doc, merged: Flat, next: SsaMerge, p: Path) returns (i: nat)
    requires |p| > 0 && ChangedLeaf(orig, edited, p) && Leaf(edited, p) != Some(Null)
    requires FlatOf(first.sent, SpecChanges(orig, edited))
    requires forall f :: f in next.owners <==> first.OwnsAfter(f, merged)
    ensures i < |next.owners| && next.owners[i] == ManagedField(Encode(p), first.manager)
  {
    PatchLeaves(orig, edited, p);
    FlatOfAt(first.sent, SpecChanges(orig, edited), p);
    var claim := ManagedField(Encode(p), first.manager);
    assert first.OwnsAfter(claim, merged) && claim in next.owners;
    i :| 0 <= i < |next.owners| && next.owners[i] == claim;
  }

  // ---- Two edits by different managers ----

  // The second apply, to the spec the first one saved.
  ghost predicate AppliesNext(
      first: SsaMerge, merged: Flat, spec: Doc, next: SsaMerge, patch: Doc, merged': Flat, spec': Doc)
  {
    Applies(next, spec, patch, merged', spec') && forall f :: f in next.owners <==> first.OwnsAfter(f, merged)
  }

  lemma StoredIsFlat(flat: Flat, merged: Flat, spec: Doc)
    requires WellFormed(merged) && HoldsLeaves(spec, merged) && FlatOf(flat, spec)
    ensures flat == Stored(merged)
  {
    forall s ensures Lookup(flat, s) == Lookup(Stored(merged), s) {
      assert Lookup(flat, s) == LeafUnder(spec, [], s);
      if IsFieldPath(s) {
        var p := Decode(s);
        assert p[0..] == p && Leaf(spec, p) == Shown(merged, p);
      }
    }
    SameLookups(flat, Stored(merged));
  }

  lemma StoredAt(merged: Flat, spec: Doc, s: string)
    requires WellFormed(merged) && HoldsLeaves(spec, merged)
    ensures Lookup(Stored(merged), s) == if IsFieldPath(s) then Leaf(spec, Decode(s)) else None
  {
    if IsFieldPath(s) {
      assert Leaf(spec, Decode(s)) == Shown(merged, Decode(s));
    }
  }

  lemma StoredDetermines(merged: Flat, spec: Doc, merged': Flat, spec': Doc)
    requires HoldsLeaves(spec, merged) && HoldsLeaves(spec', merged') && Stored(merged) == Stored(merged')
    ensures spec == spec'
  {
    forall p: Path | |p| > 0 ensures Leaf(spec, p) == Leaf(spec', p) {
      assert Lookup(Stored(merged), Encode(p)) == Lookup(Stored(merged'), Encode(p));
    }
    DocsByLeaves(spec, spec');
  }

  lemma SameSpecIff(merged: Flat, spec: Doc, merged': Flat, spec': Doc)
    requires WellFormed(merged) && HoldsLeaves(spec, merged) && WellFormed(merged') && HoldsLeaves(spec', merged')
    ensures spec == spec' <==> Stored(merged) == Stored(merged')
  {
    if spec == spec' {
      forall s ensures Lookup(Stored(merged), s) == Lookup(Stored(merged'), s) {
        StoredAt(merged, spec, s);
        StoredAt(merged', spec', s);
      }
      SameLookups(Stored(merged), Stored(merged'));
    }
    if Stored(merged) == Stored(merged') {
      StoredDetermines(merged, spec, merged', spec');
    }
  }

  lemma DisjointSideBySide(a: SsaMerge, b: SsaMerge, server: Doc, patchA: Doc, patchB: Doc)
    requires FlatOf(a.current, server) && FlatOf(a.sent, patchA) && FlatOf(b.sent, patchB)
    requires a.current == b.current && a.owners == b.owners && a.manager != b.manager
    requires DisjointPaths(patchA, patchB)
    ensures SideBySide(a, b)
    ensures WellFormed(a.current) && WellFormed(a.sent) && WellFormed(b.sent)
  {
    FlatOfWellFormed(a.current, server);
    FlatOfWellFormed(a.sent, patchA);
    FlatOfWellFormed(b.sent, patchB);
    forall s, t | s in a.sent && t in b.sent ensures !Overlaps(s, t) {
      FlatOfKey(a.sent, patchA, s);
      FlatOfKey(b.sent, patchB, t);
      OverlapsIffRelated(Decode(s), Decode(t));
    }
  }

  lemma SavedInTurn(
      a: SsaMerge, server: Doc, patch: Doc, merged: Flat, spec: Doc,
      next: SsaMerge, patch': Doc, merged': Flat, spec': Doc)
    requires Applies(a, server, patch, merged, spec) && AppliesNext(a, merged, spec, next, patch', merged', spec')
    ensures InTurn(a, merged, next, merged') && WellFormed(merged')
  {
    FlatOfWellFormed(a.current, server);
    FlatOfWellFormed(a.sent, patch);
    a.MergedWellFormed(merged);
    StoredIsFlat(next.current, merged, spec);
    FlatOfWellFormed(next.current, spec);
    FlatOfWellFormed(next.sent, patch');
    next.MergedWellFormed(merged');
  }

  // Two patches on disjoint paths, saved with force by different managers through the server's merge: both
  // orders give the same spec if and only if no stored field that neither patch touches lies on the line of a
  // stale claim of just one of the two.
  lemma TwoManagersCommuteIff(
      server: Doc, patchA: Doc, patchB: Doc,
      a: SsaMerge, mergedA: Flat, specA: Doc, ab: SsaMerge, mergedAB: Flat, specAB: Doc,
      b: SsaMerge, mergedB: Flat, specB: Doc, ba: SsaMerge, mergedBA: Flat, specBA: Doc)
    requires a.owners == b.owners && a.manager != b.manager && DisjointPaths(patchA, patchB)
    requires Applies(a, server, patchA, mergedA, specA)
    requires Applies(b, server, patchB, mergedB, specB)
    requires ab.manager == b.manager && AppliesNext(a, mergedA, specA, ab, patchB, mergedAB, specAB)
    requires ba.manager == a.manager && AppliesNext(b, mergedB, specB, ba, patchA, mergedBA, specBA)
    ensures SideBySide(a, b)
    ensures specAB == specBA <==> StaleAlike(a, b)
  {
    SameFlat(a.current, b.current, server);
    SameFlat(ab.sent, b.sent, patchB);
    SameFlat(ba.sent, a.sent, patchA);
    DisjointSideBySide(a, b, server, patchA, patchB);
    SavedInTurn(a, server, patchA, mergedA, specA, ab, patchB, mergedAB, specAB);
    SavedInTurn(b, server, patchB, mergedB, specB, ba, patchA, mergedBA, specBA);
    OrderDoesNotMatterIff(a, b, mergedA, ab, mergedAB, mergedB, ba, mergedBA);
    SameSpecIff(mergedAB, specAB, mergedBA, specBA);
  }

  lemma SameFlat(x: Flat, y: Flat, v: Doc)
    requires FlatOf(x, v) && FlatOf(y, v)
    ensures x == y
  {
    forall s ensures Lookup(x, s) == Lookup(y, s) {
      assert Lookup(x, s) == LeafUnder(v, [], s) == Lookup(y, s);
    }
    SameLookups(x, y);
  }

  datatype EditOutcome =
    | NothingToApply
    | BadKeys
    | Saved(spec: Doc, owners: seq<ManagedField>)

  // edit saves with force, so the merge is never refused.
  method SaveEdit(
      json: JsonForm, server: Doc, orig: Doc, edited: Doc, owners: seq<ManagedField>, manager: string)
    returns (out: EditOutcome, ghost m: SsaMerge, ghost merged: Flat)
    ensures out.NothingToApply? <==> orig == edited
    ensures out.BadKeys? <==> orig != edited && !(StringKeyed(server) && StringKeyed(SpecChanges(orig, edited)))
    ensures out.Saved? ==>
              && m.json == json && m.owners == owners && m.manager == manager
              && Applies(m, server, SpecChanges(orig, edited), merged, out.spec)
              && forall f :: f in out.owners <==> m.OwnsAfter(f, merged)
    ensures out.Saved? && server == orig ==>
              (out.spec == edited <==> NullFree(edited) && !Forgets(m, orig, SpecChanges(orig, edited)))
  {
    m, merged := SsaMerge(json, map[], map[], [], "", true), map[];
    var patch := ComputeSpecChanges(orig, edited);
    PatchEmptyIffEqual(orig, edited);
    if patch.fields == map[] {
      return NothingToApply, m, merged;
    }
    var current := FlattenSpec(server);
    if current.None? {
      return BadKeys, m, merged;
    }
    var sent := FlattenSpec(patch);
    if sent.None? {
      return BadKeys, m, merged;
    }
    var merge := SsaMerge(json, current.value, sent.value, owners, manager, true);
    FlatOfWellFormed(current.value, server);
    FlatOfWellFormed(sent.value, patch);
    var result := merge.Run();
    merge.MergedWellFormed(result.merged);
    var spec := UnflattenSpec(result.merged);
    m, merged := merge, result.merged;
    if server == orig {
      EditExact(m, orig, edited, merged, spec);
    }
    out := Saved(spec, result.owners);
  }

  function App(image: string, port: string): Doc {
    Object(map["image" := Scalar("!!str", image), "port" := Scalar("!!int", port)])
  }

  lemma AppFields(image: string, port: string)
    ensures NullFree(App(image, port))
    ensures Leaf(App(image, port), ["port"]) == Some(Scalar("!!int", port))
  {
    assert ["port"][1..] == [];
  }

  // An app that changed its port in one edit loses it again by changing its image in the next.
  lemma SecondEditLosesThePort(
      first: SsaMerge, orig: Doc, edited: Doc, merged: Flat, spec: Doc,
      next: SsaMerge, later: Doc, merged': Flat, spec': Doc)
    requires orig == App("nginx:1", "80") && edited == App("nginx:1", "8080") && later == App("nginx:2", "8080")
    requires first.owners == [] && next.manager == first.manager
    requires forall f :: f in next.owners <==> first.OwnsAfter(f, merged)
    requires Applies(first, orig, SpecChanges(orig, edited), merged, spec)
    requires Applies(next, edited, SpecChanges(edited, later), merged', spec')
    ensures spec == edited
    ensures spec' != later && Leaf(spec', ["port"]) == None
  {
    AppFields("nginx:1", "80");
    AppFields("nginx:1", "8080");
    AppFields("nginx:2", "8080");
    EditExact(first, orig, edited, merged, spec);
    NextEditDropsEarlierField(first, orig, edited, merged, spec, next, later, merged', spec', ["port"]);
  }
}

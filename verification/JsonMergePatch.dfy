// The patch read as a JSON merge patch (section 2 of RFC 7396).
module JsonMergePatch {
  import opened Documents
  import opened SpecPatch
  import opened Wrappers

  // MergePatch of RFC 7396; an absent target field counts as null, which is not an object.
  function MergePatch(target: Value, patch: Value): Value
    decreases patch
  {
    if !patch.Object? then patch
    else
      var base := if target.Object? then target.fields else map[];
      Object(map k | k in base.Keys + patch.fields.Keys && !(k in patch.fields && patch.fields[k].Null?)
                   :: if k in patch.fields then MergePatch(FieldOr(target, k), patch.fields[k]) else base[k])
  }

  function FieldOr(v: Value, k: string): Value {
    if v.Object? && k in v.fields then v.fields[k] else Null
  }

  lemma MergeField(target: Value, patch: Doc, k: string)
    ensures var merged := MergePatch(target, patch);
            && merged.Object?
            && Get(merged, [k]) ==
               if k in patch.fields then
                 if patch.fields[k].Null? then None else Some(MergePatch(FieldOr(target, k), patch.fields[k]))
               else Get(target, [k])
  {
    var merged := MergePatch(target, patch);
    assert [k][1..] == [];
  }

  lemma GetField(v: Value, p: Path)
    requires |p| > 0
    ensures Get(v, p) == if Get(v, [p[0]]).Some? then Get(Get(v, [p[0]]).value, p[1..]) else None
  {
    assert p == [p[0]] + p[1..];
    GetConcat(v, [p[0]], p[1..]);
  }

  lemma SameFields(a: Doc, b: Doc)
    requires forall k :: Get(a, [k]) == Get(b, [k])
    ensures a == b
  {
    forall k | k in a.fields.Keys + b.fields.Keys
      ensures k in a.fields && k in b.fields && a.fields[k] == b.fields[k]
    {
      assert [k][1..] == [];
      assert Get(a, [k]) == Get(b, [k]);
    }
    assert a.fields == b.fields;
  }

  // ---- Round trip ----

  // A merge patch can carry the edit: no changed leaf is null, and no object that had fields is emptied.
  ghost predicate Expressible(orig: Doc, edited: Doc) {
    forall p: Path | |p| > 0 && ChangedLeaf(orig, edited, p) :: ExpressibleAt(orig, edited, p)
  }

  predicate ExpressibleAt(orig: Doc, edited: Doc, p: Path) {
    && Leaf(edited, p) != Some(Null)
    && !(Leaf(edited, p) == Some(EMPTY_OBJECT) && Get(orig, p).Some? && IsBranch(Get(orig, p).value))
  }

  // Merging the patch into the original gives back the edit, exactly for the edits a merge patch can carry.
  lemma {:induction false} MergeRoundTrip(orig: Doc, edited: Doc)
    ensures MergePatch(orig, SpecChanges(orig, edited)) == edited <==> Expressible(orig, edited)
    decreases edited
  {
    var patch := SpecChanges(orig, edited);
    var merged := MergePatch(orig, patch);
    forall k
      ensures k in edited.fields ==> (Get(merged, [k]) == Get(edited, [k]) <==> FieldExpressible(orig, edited, k))
      ensures k !in edited.fields ==> Get(merged, [k]) == Get(edited, [k])
    {
      MergeField(orig, patch, k);
      assert [k][1..] == [];
      if k in edited.fields {
        MergeFieldRoundTrip(orig, edited, k);
      } else {
        assert k in patch.fields <==> Entry(orig, edited, k).Some?;
      }
    }
    if Expressible(orig, edited) {
      forall k ensures Get(merged, [k]) == Get(edited, [k]) {
        if k in edited.fields {
          ExpressibleField(orig, edited, k);
        }
      }
      SameFields(merged, edited);
    }
    if merged == edited {
      forall p: Path | |p| > 0 && ChangedLeaf(orig, edited, p) ensures ExpressibleAt(orig, edited, p) {
        var k := p[0];
        assert k in edited.fields;
        assert FieldExpressible(orig, edited, k);
        assert p == [k] + p[1..];
      }
    }
  }

  // Emptying an object is lost: the patch {"env": {}} merges as no change.
  lemma EmptiedObjectStays(v: Value)
    ensures var orig, edited := Object(map["env" := Object(map["KEY" := v])]), Object(map["env" := EMPTY_OBJECT]);
            MergePatch(orig, SpecChanges(orig, edited)) != edited
  {
    var orig, edited := Object(map["env" := Object(map["KEY" := v])]), Object(map["env" := EMPTY_OBJECT]);
    assert ["env"][1..] == [];
    assert "KEY" in orig.fields["env"].fields;
    assert ChangedLeaf(orig, edited, ["env"]) && !ExpressibleAt(orig, edited, ["env"]);
    MergeRoundTrip(orig, edited);
  }

  ghost predicate FieldExpressible(orig: Doc, edited: Doc, k: string) {
    forall rest: Path | ChangedLeaf(orig, edited, [k] + rest) :: ExpressibleAt(orig, edited, [k] + rest)
  }

  lemma ExpressibleField(orig: Doc, edited: Doc, k: string)
    requires Expressible(orig, edited)
    ensures FieldExpressible(orig, edited, k)
  {
  }

  lemma {:induction false} MergeFieldRoundTrip(orig: Doc, edited: Doc, k: string)
    requires k in edited.fields
    ensures Get(MergePatch(orig, SpecChanges(orig, edited)), [k]) == Some(edited.fields[k])
            <==> FieldExpressible(orig, edited, k)
    decreases edited, 0
  {
    var ov, ev := FieldOr(orig, k), edited.fields[k];
    var patch := SpecChanges(orig, edited);
    MergeField(orig, patch, k);
    assert [k][1..] == [];
    forall rest: Path
      ensures Get(edited, [k] + rest) == Get(ev, rest)
      ensures Get(orig, [k] + rest) == if k in orig.fields then Get(orig.fields[k], rest) else None
    {
      assert ([k] + rest)[1..] == rest;
    }
    if k in orig.fields && ov.Object? && IsBranch(ev) {
      NestedExpressible(orig, edited, k);
      MergeRoundTrip(ov, ev);
      PatchEmptyIffEqual(ov, ev);
      if ov == ev {
        MergeEmptyPatch(ov);
      }
    } else if k in orig.fields && ov == ev {
    } else {
      WholeExpressible(orig, edited, k);
      MergeWhole(ov, ev);
    }
  }

  lemma MergeEmptyPatch(v: Doc)
    ensures MergePatch(v, EMPTY_OBJECT) == v
  {
  }

  // A value sent as a whole arrives as it was sent.
  lemma {:induction false} MergeWhole(target: Value, v: Value)
    requires !(target.Object? && IsBranch(v))
    ensures NullFree(v) && !(v == EMPTY_OBJECT && IsBranch(target)) ==> MergePatch(target, v) == v
    ensures v.Object? && MergePatch(target, v) == v ==> NullFree(v) && !(v == EMPTY_OBJECT && IsBranch(target))
    decreases v
  {
    if v.Object? {
      if !target.Object? {
        forall k | k in v.fields {
          MergeWhole(Null, v.fields[k]);
        }
        var merged := MergePatch(target, v);
        if NullFree(v) {
          forall k | k in v.fields ensures k in merged.fields && merged.fields[k] == v.fields[k] {
            assert NullFree(v.fields[k]);
            MergeWhole(Null, v.fields[k]);
          }
          assert merged.fields == v.fields;
        }
        if merged == v {
          forall k | k in v.fields ensures NullFree(v.fields[k]) {
            assert k in merged.fields;
          }
        }
      } else {
        assert v.fields == map[];
        assert MergePatch(target, v).fields == target.fields;
      }
    }
  }

  lemma NestedExpressible(orig: Doc, edited: Doc, k: string)
    requires k in edited.fields && k in orig.fields && orig.fields[k].Object? && IsBranch(edited.fields[k])
    ensures FieldExpressible(orig, edited, k) <==> Expressible(orig.fields[k], edited.fields[k])
  {
    var ov, ev := orig.fields[k], edited.fields[k];
    forall rest: Path
      ensures ChangedLeaf(orig, edited, [k] + rest) == ChangedLeaf(ov, ev, rest)
      ensures ExpressibleAt(orig, edited, [k] + rest) == ExpressibleAt(ov, ev, rest)
    {
      assert ([k] + rest)[1..] == rest;
    }
    forall rest: Path ensures |rest| == 0 ==> !ChangedLeaf(ov, ev, rest) {
    }
  }

  lemma WholeExpressible(orig: Doc, edited: Doc, k: string)
    requires k in edited.fields && !(k in orig.fields && orig.fields[k] == edited.fields[k])
    requires !(k in orig.fields && orig.fields[k].Object? && IsBranch(edited.fields[k]))
    ensures FieldExpressible(orig, edited, k)
            <==> NullFree(edited.fields[k]) && !(edited.fields[k] == EMPTY_OBJECT && IsBranch(FieldOr(orig, k)))
  {
    var ev := edited.fields[k];
    forall rest: Path
      ensures Leaf(edited, [k] + rest) == Leaf(ev, rest)
      ensures Get(orig, [k] + rest) == if k in orig.fields then Get(orig.fields[k], rest) else None
      ensures ChangedLeaf(orig, edited, [k] + rest) <==> Leaf(ev, rest).Some?
    {
      assert ([k] + rest)[1..] == rest;
    }
    if FieldExpressible(orig, edited, k) {
      forall rest: Path ensures Leaf(ev, rest) != Some(Null) {
        assert ChangedLeaf(orig, edited, [k] + rest) ==> ExpressibleAt(orig, edited, [k] + rest);
      }
      NullFreeByLeaves(ev);
      assert ChangedLeaf(orig, edited, [k] + []) ==> ExpressibleAt(orig, edited, [k] + []);
    }
    if NullFree(ev) && !(ev == EMPTY_OBJECT && IsBranch(FieldOr(orig, k))) {
      forall rest: Path | ChangedLeaf(orig, edited, [k] + rest) ensures ExpressibleAt(orig, edited, [k] + rest) {
        NullFreeLeaf(ev, rest);
      }
    }
  }

  // ---- Frame ----

  // A path that no leaf of the patch shares a line with is left alone, whatever the target is.
  lemma {:induction false} MergeFrame(target: Value, patch: Doc, p: Path)
    requires |p| > 0 && Silent(patch, p)
    ensures Get(MergePatch(target, patch), p) == Get(target, p)
    decreases p
  {
    var k, rest := p[0], p[1..];
    MergeField(target, patch, k);
    GetField(MergePatch(target, patch), p);
    GetField(target, p);
    if k in patch.fields {
      var sub := patch.fields[k];
      assert p == [k] + rest && [k][1..] == [];
      assert Related(p, [k]);
      assert Get(patch, [k]) == Some(sub) && Leaf(patch, [k]).None?;
      forall q: Path | Related(rest, q) ensures Leaf(sub, q).None? {
        assert ([k] + q)[1..] == q;
        assert Related(p, [k] + q);
      }
      if |rest| == 0 {
        var below := LeafBelow(sub);
        assert Related(rest, below);
      } else {
        MergeFrame(FieldOr(target, k), sub, rest);
      }
    }
  }

  // What the edit did not touch stays as the server has it, on any server document: fields the client never
  // saw stay too, below an object it left alone as well as inside an object whose other fields it changed.
  lemma EditFrame(server: Value, orig: Doc, edited: Doc, p: Path)
    requires |p| > 0 && Untouched(orig, edited, p)
    ensures Get(MergePatch(server, SpecChanges(orig, edited)), p) == Get(server, p)
  {
    SilentIffUntouched(orig, edited, p);
    MergeFrame(server, SpecChanges(orig, edited), p);
  }

  // ---- Commutation ----

  // Where both patches speak, they say the same or both go deeper and agree there.
  predicate Compatible(a: Value, b: Value) {
    || a == b
    || (a.Object? && b.Object? && forall k | k in a.fields && k in b.fields :: Compatible(a.fields[k], b.fields[k]))
  }

  lemma {:induction false} CompatibleCommute(target: Value, a: Doc, b: Doc)
    requires Compatible(a, b)
    ensures MergePatch(MergePatch(target, a), b) == MergePatch(MergePatch(target, b), a)
    decreases a
  {
    if a != b {
      var ab, ba := MergePatch(MergePatch(target, a), b), MergePatch(MergePatch(target, b), a);
      forall k ensures Get(ab, [k]) == Get(ba, [k]) {
        CommuteAt(target, a, b, k);
        if k in a.fields && k in b.fields && a.fields[k] != b.fields[k] {
          CompatibleCommute(FieldOr(target, k), a.fields[k], b.fields[k]);
        }
      }
      SameFields(ab, ba);
    }
  }

  // Field k of the two orders, in terms of the patches for k.
  lemma CommuteAt(target: Value, a: Doc, b: Doc, k: string)
    ensures MergePatch(MergePatch(target, a), b).Object?
    ensures k !in a.fields || k !in b.fields ==>
              Get(MergePatch(MergePatch(target, a), b), [k]) == Get(MergePatch(MergePatch(target, b), a), [k])
    ensures k in a.fields && k in b.fields ==>
              Get(MergePatch(MergePatch(target, a), b), [k]) == BothAt(FieldOr(target, k), a.fields[k], b.fields[k])
  {
    assert [k][1..] == [];
    MergeField(target, a, k);
    MergeField(target, b, k);
    MergeField(MergePatch(target, a), b, k);
    MergeField(MergePatch(target, b), a, k);
  }

  function BothAt(before: Value, first: Value, second: Value): Option<Value> {
    if second.Null? then None else Some(MergePatch(MergePatch(before, first), second))
  }

  // Patches that are not compatible already disagree on the empty document.
  lemma {:induction false} IncompatibleDiffer(a: Doc, b: Doc)
    requires !Compatible(a, b)
    ensures MergePatch(MergePatch(EMPTY_OBJECT, a), b) != MergePatch(MergePatch(EMPTY_OBJECT, b), a)
    decreases a
  {
    var k :| k in a.fields && k in b.fields && !Compatible(a.fields[k], b.fields[k]);
    var x, y := a.fields[k], b.fields[k];
    CommuteAt(EMPTY_OBJECT, a, b, k);
    CommuteAt(EMPTY_OBJECT, b, a, k);
    if x.Object? && y.Object? {
      IncompatibleDiffer(x, y);
      MergeIntoNothing(x);
      MergeIntoNothing(y);
    } else {
      assert BothAt(Null, x, y) != BothAt(Null, y, x);
    }
  }

  lemma MergeIntoNothing(patch: Doc)
    ensures MergePatch(Null, patch) == MergePatch(EMPTY_OBJECT, patch)
  {
    forall k ensures Get(MergePatch(Null, patch), [k]) == Get(MergePatch(EMPTY_OBJECT, patch), [k]) {
      MergeField(Null, patch, k);
      MergeField(EMPTY_OBJECT, patch, k);
      assert [k][1..] == [];
    }
    SameFields(MergePatch(Null, patch), MergePatch(EMPTY_OBJECT, patch));
  }

  ghost predicate CommuteEverywhere(a: Doc, b: Doc) {
    forall target: Value :: MergePatch(MergePatch(target, a), b) == MergePatch(MergePatch(target, b), a)
  }

  // Two patches can be sent in either order, whatever document they meet, exactly when they are compatible.
  lemma CommuteIffCompatible(a: Doc, b: Doc)
    ensures CommuteEverywhere(a, b) <==> Compatible(a, b)
  {
    if Compatible(a, b) {
      forall target: Value ensures MergePatch(MergePatch(target, a), b) == MergePatch(MergePatch(target, b), a) {
        CompatibleCommute(target, a, b);
      }
    } else {
      IncompatibleDiffer(a, b);
    }
  }

  lemma {:induction false} DisjointAreCompatible(a: Doc, b: Doc)
    requires DisjointPaths(a, b)
    ensures Compatible(a, b)
    decreases a
  {
    forall k | k in a.fields && k in b.fields ensures Compatible(a.fields[k], b.fields[k]) {
      var x, y := a.fields[k], b.fields[k];
      forall p: Path, q: Path | Leaf(x, p).Some? && Leaf(y, q).Some? ensures !Related(p, q) {
        assert ([k] + p)[1..] == p && ([k] + q)[1..] == q;
        assert Related(p, q) ==> Related([k] + p, [k] + q);
        assert Leaf(a, [k] + p).Some? && Leaf(b, [k] + q).Some?;
      }
      var px := LeafBelow(x);
      var py := LeafBelow(y);
      assert !Related(px, py);
      assert |px| > 0 && |py| > 0;
      DisjointAreCompatible(x, y);
    }
  }

  // Two edits of one original that touch disjoint paths can be applied in either order to any server document.
  lemma DisjointEditsCommute(server: Value, orig: Doc, first: Doc, second: Doc)
    requires DisjointPaths(SpecChanges(orig, first), SpecChanges(orig, second))
    ensures MergePatch(MergePatch(server, SpecChanges(orig, first)), SpecChanges(orig, second))
            == MergePatch(MergePatch(server, SpecChanges(orig, second)), SpecChanges(orig, first))
  {
    DisjointAreCompatible(SpecChanges(orig, first), SpecChanges(orig, second));
    CompatibleCommute(server, SpecChanges(orig, first), SpecChanges(orig, second));
  }
}

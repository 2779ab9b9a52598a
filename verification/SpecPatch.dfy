// The patch that `edit` sends: the difference of two decoded documents.
module SpecPatch {
  import opened Documents
  import opened Wrappers

  // What the patch holds for field k, if anything.
  function Entry(orig: Doc, edited: Doc, k: string): Option<Value>
    decreases edited, 0
  {
    if k in edited.fields then
      var ev := edited.fields[k];
      if k in orig.fields && orig.fields[k].Object? && IsBranch(ev) then
        var sub := SpecChanges(orig.fields[k], ev);
        if IsBranch(sub) then Some(sub) else None
      else if k !in orig.fields || orig.fields[k] != ev then Some(ev)
      else None
    else if k in orig.fields then Some(Null)
    else None
  }

  function SpecChanges(orig: Doc, edited: Doc): Doc
    decreases edited, 1
  {
    Object(map k | k in edited.fields.Keys + orig.fields.Keys && Entry(orig, edited, k).Some?
                 :: Entry(orig, edited, k).value)
  }

  lemma PatchGet(orig: Doc, edited: Doc, p: Path)
    requires |p| > 0
    ensures Get(SpecChanges(orig, edited), p) ==
            var entry := Entry(orig, edited, p[0]);
            if entry.Some? then Get(entry.value, p[1..]) else None
  {
  }

  // out holds the entries of the fields in done, and nothing else.
  ghost predicate FilledFor(out: map<string, Value>, orig: Doc, edited: Doc, done: set<string>) {
    && (forall k | k in out :: k in done && Entry(orig, edited, k) == Some(out[k]))
    && (forall k | k in done && Entry(orig, edited, k).Some? :: k in out)
  }

  // The two loops, filling the patch field by field. A key is picked arbitrarily in each round, as Go's
  // map iteration does, so the postcondition says the result does not depend on that order.
  method ComputeSpecChanges(orig: Doc, edited: Doc) returns (patch: Doc)
    ensures patch == SpecChanges(orig, edited)
    decreases edited
  {
    var out: map<string, Value> := map[];
    var todo := edited.fields.Keys;
    while todo != {}
      invariant todo <= edited.fields.Keys
      invariant FilledFor(out, orig, edited, edited.fields.Keys - todo)
      decreases todo
    {
      var k :| k in todo;
      todo := todo - {k};
      var ev := edited.fields[k];
      if k in orig.fields && orig.fields[k].Object? && ev.Object? && ev.fields != map[] {
        var sub := ComputeSpecChanges(orig.fields[k], ev);
        if sub.fields != map[] {
          out := out[k := sub];
        }
      } else if k !in orig.fields || orig.fields[k] != ev {
        out := out[k := ev];
      }
    }
    todo := orig.fields.Keys;
    while todo != {}
      invariant todo <= orig.fields.Keys
      invariant FilledFor(out, orig, edited, edited.fields.Keys + (orig.fields.Keys - todo))
      decreases todo
    {
      var k :| k in todo;
      todo := todo - {k};
      if k !in edited.fields {
        out := out[k := Null];
      }
    }
    patch := Object(out);
  }

  // The patch is empty exactly when nothing was edited.
  lemma {:induction false} PatchEmptyIffEqual(orig: Doc, edited: Doc)
    ensures SpecChanges(orig, edited) == EMPTY_OBJECT <==> orig == edited
    decreases edited
  {
    var patch := SpecChanges(orig, edited);
    forall k | k in edited.fields && k in orig.fields && orig.fields[k].Object? && IsBranch(edited.fields[k]) {
      PatchEmptyIffEqual(orig.fields[k], edited.fields[k]);
    }
    if orig == edited {
      assert forall k | k in edited.fields :: Entry(orig, edited, k).None?;
    }
    if patch == EMPTY_OBJECT {
      forall k | k in edited.fields.Keys + orig.fields.Keys
        ensures k in edited.fields && k in orig.fields && orig.fields[k] == edited.fields[k]
      {
        assert k !in patch.fields;
        assert Entry(orig, edited, k).None?;
      }
      assert orig.fields == edited.fields;
    }
  }

  // ---- What the patch says, path by path ----

  // A leaf of the edited document that the original does not have with that value.
  predicate ChangedLeaf(orig: Doc, edited: Doc, p: Path) {
    Leaf(edited, p).Some? && Leaf(orig, p) != Leaf(edited, p)
  }

  // A field of the original that is gone although the object it was in is still there and is not just emptied.
  predicate RemovedField(orig: Doc, edited: Doc, p: Path) {
    && |p| > 0
    && Get(orig, p).Some? && Get(edited, p).None?
    && (|p| == 1 || (Get(edited, p[..|p| - 1]).Some? && IsBranch(Get(edited, p[..|p| - 1]).value)))
  }

  // "Changed leaves, and null for every removed field", and nothing else.
  lemma {:induction false} PatchLeaves(orig: Doc, edited: Doc, p: Path)
    requires |p| > 0
    ensures Leaf(SpecChanges(orig, edited), p) ==
            if ChangedLeaf(orig, edited, p) then Leaf(edited, p)
            else if RemovedField(orig, edited, p) then Some(Null)
            else None
    decreases p
  {
    var k, rest := p[0], p[1..];
    PatchGet(orig, edited, p);
    GetParent(edited, p);
    assert Get(edited, p) == if k in edited.fields then Get(edited.fields[k], rest) else None;
    assert Get(orig, p) == if k in orig.fields then Get(orig.fields[k], rest) else None;
    if |rest| > 0 && k in edited.fields {
      if k in orig.fields && orig.fields[k].Object? && IsBranch(edited.fields[k]) {
        PatchLeaves(orig.fields[k], edited.fields[k], rest);
      } else {
        assert !RemovedField(orig, edited, p);
      }
    }
  }

  lemma GetParent(v: Value, p: Path)
    requires |p| > 0
    ensures Get(v, p[..|p| - 1]) ==
            if |p| == 1 then Some(v)
            else if v.Object? && p[0] in v.fields then Get(v.fields[p[0]], p[1..][..|p| - 2])
            else None
  {
    if |p| > 1 {
      assert p[..|p| - 1][1..] == p[1..][..|p| - 2];
    }
  }

  // Whatever survives of the original but not of the edit is on one line with something the patch sends.
  lemma {:induction false} LostLeafIsTouched(orig: Doc, edited: Doc, p: Path) returns (q: Path)
    requires |p| > 0 && Leaf(orig, p).Some? && Leaf(edited, p) != Leaf(orig, p)
    ensures |q| > 0 && Related(p, q) && Leaf(SpecChanges(orig, edited), q).Some?
    decreases p
  {
    var k, rest := p[0], p[1..];
    var below: Path := [];
    assert p == [k] + rest;
    assert Get(orig, p) == Get(orig.fields[k], rest);
    if k in edited.fields {
      assert Get(edited, p) == Get(edited.fields[k], rest);
      if orig.fields[k].Object? && IsBranch(edited.fields[k]) && |rest| > 0 {
        below := LostLeafIsTouched(orig.fields[k], edited.fields[k], rest);
      } else {
        below := LeafBelow(edited.fields[k]);
        if orig.fields[k].Object? && IsBranch(edited.fields[k]) {
          PatchLeaves(orig.fields[k], edited.fields[k], below);
          assert orig.fields[k].fields == map[];
        }
      }
    }
    q := [k] + below;
    assert q[1..] == below;
    PatchGet(orig, edited, q);
  }

  // An unchanged leaf is on one line with nothing the patch sends.
  lemma KeptLeafIsUntouched(orig: Doc, edited: Doc, p: Path, q: Path)
    requires |p| > 0 && Leaf(edited, p).Some? && Leaf(orig, p) == Leaf(edited, p)
    requires |q| > 0 && Related(p, q)
    ensures Leaf(SpecChanges(orig, edited), q).None?
  {
    PatchLeaves(orig, edited, q);
    if p <= q {
      if Get(edited, q).Some? { LeavesApart(edited, p, q); }
      if Get(orig, q).Some? { LeavesApart(orig, p, q); }
    } else {
      if Leaf(edited, q).Some? { LeavesApart(edited, q, p); }
      assert p == q + p[|q|..];
      GetConcat(edited, q, p[|q|..]);
    }
  }

  // ---- Frame ----

  // The documents agree on p, and above p they agree too or the object stays.
  ghost predicate Untouched(orig: Doc, edited: Doc, p: Path) {
    && Get(orig, p) == Get(edited, p)
    && forall n | 0 < n < |p| :: AgreesOrStays(orig, edited, p[..n])
  }

  predicate AgreesOrStays(orig: Doc, edited: Doc, p: Path) {
    Get(orig, p) == Get(edited, p) || (Get(edited, p).Some? && IsBranch(Get(edited, p).value))
  }

  // The patch sends nothing on the line of p.
  ghost predicate Silent(patch: Doc, p: Path) {
    forall q: Path | |q| > 0 && Related(p, q) :: Leaf(patch, q).None?
  }

  lemma KeptLeafIsSilent(orig: Doc, edited: Doc, p: Path)
    requires |p| > 0 && Leaf(edited, p).Some? && Leaf(orig, p) == Leaf(edited, p)
    ensures Silent(SpecChanges(orig, edited), p)
  {
    forall q: Path | |q| > 0 && Related(p, q) ensures Leaf(SpecChanges(orig, edited), q).None? {
      KeptLeafIsUntouched(orig, edited, p, q);
    }
  }

  // Nothing is sent on the line of a path exactly when the edit left that path untouched.
  lemma SilentIffUntouched(orig: Doc, edited: Doc, p: Path)
    requires |p| > 0
    ensures Silent(SpecChanges(orig, edited), p) <==> Untouched(orig, edited, p)
  {
    if Untouched(orig, edited, p) {
      forall q: Path | |q| > 0 && Related(p, q) ensures Leaf(SpecChanges(orig, edited), q).None? {
        UntouchedHasNoPatch(orig, edited, p, q);
      }
    }
    if Silent(SpecChanges(orig, edited), p) {
      SilentAgrees(orig, edited, p);
      forall n | 0 < n < |p| ensures AgreesOrStays(orig, edited, p[..n]) {
        SilentAbove(orig, edited, p, n);
      }
    }
  }

  lemma AgreementHasNoPatchAbove(orig: Doc, edited: Doc, p: Path, q: Path)
    requires Untouched(orig, edited, p) && |q| > 0 && q <= p
    ensures Leaf(SpecChanges(orig, edited), q).None?
  {
    PatchLeaves(orig, edited, q);
    assert q == p[..|q|];
    if |q| == |p| {
      assert q == p;
    } else {
      assert AgreesOrStays(orig, edited, p[..|q|]);
    }
  }

  // Nothing the patch sends is on one line with an untouched path.
  lemma UntouchedHasNoPatch(orig: Doc, edited: Doc, p: Path, q: Path)
    requires |p| > 0 && Untouched(orig, edited, p) && |q| > 0 && Related(p, q)
    ensures Leaf(SpecChanges(orig, edited), q).None?
  {
    if q <= p {
      AgreementHasNoPatchAbove(orig, edited, p, q);
    } else {
      PatchLeaves(orig, edited, q);
      assert q == p + q[|p|..];
      GetConcat(orig, p, q[|p|..]);
      GetConcat(edited, p, q[|p|..]);
    }
  }

  // Where nothing is sent on the line of p, no leaf at or below p differs.
  lemma SilentBelow(orig: Doc, edited: Doc, p: Path, below: Path)
    requires |p| > 0 && Silent(SpecChanges(orig, edited), p)
    ensures Leaf(orig, p + below) == Leaf(edited, p + below)
  {
    var r := p + below;
    assert Related(p, r);
    PatchLeaves(orig, edited, r);
    if Leaf(orig, r).Some? && Leaf(edited, r) != Leaf(orig, r) {
      var q := LostLeafIsTouched(orig, edited, r);
      assert Related(p, q);
    }
  }

  lemma SilentAgrees(orig: Doc, edited: Doc, p: Path)
    requires |p| > 0 && Silent(SpecChanges(orig, edited), p)
    ensures Get(orig, p) == Get(edited, p)
  {
    var x, y := Get(orig, p), Get(edited, p);
    forall below: Path
      ensures Leaf(orig, p + below) == Leaf(edited, p + below)
      ensures Leaf(orig, p + below) == if x.Some? then Leaf(x.value, below) else None
      ensures Leaf(edited, p + below) == if y.Some? then Leaf(y.value, below) else None
    {
      SilentBelow(orig, edited, p, below);
      GetConcat(orig, p, below);
      GetConcat(edited, p, below);
    }
    if x.Some? {
      var r := LeafBelow(x.value);
      assert Leaf(orig, p + r).Some?;
    }
    if y.Some? {
      var r := LeafBelow(y.value);
      assert Leaf(edited, p + r).Some?;
    }
    if x.Some? && y.Some? {
      forall below: Path ensures Leaf(x.value, below) == Leaf(y.value, below) {
        assert Leaf(orig, p + below) == Leaf(edited, p + below);
      }
      LeavesDetermine(x.value, y.value);
    }
  }

  // Above p, an object that is gone or no longer has fields was so before; by induction from the top.
  lemma {:induction false} SilentAbove(orig: Doc, edited: Doc, p: Path, n: nat)
    requires 0 < n < |p| && Silent(SpecChanges(orig, edited), p)
    ensures AgreesOrStays(orig, edited, p[..n])
    decreases n
  {
    var q := p[..n];
    assert Related(p, q);
    PatchLeaves(orig, edited, q);
    if Get(edited, q).None? && Get(orig, q).Some? {
      assert q[..n - 1] == p[..n - 1];
      if n > 1 {
        SilentAbove(orig, edited, p, n - 1);
        assert q == q[..n - 1] + [p[n - 1]];
        GetConcat(orig, q[..n - 1], [p[n - 1]]);
        GetConcat(edited, q[..n - 1], [p[n - 1]]);
      }
    }
  }

  // Nothing in the one patch lies on the line of anything in the other.
  ghost predicate DisjointPaths(a: Doc, b: Doc) {
    forall p: Path, q: Path | |p| > 0 && |q| > 0 && Leaf(a, p).Some? && Leaf(b, q).Some? :: !Related(p, q)
  }
}

// A spec as a map from written field paths to leaves, the form the server merges in.
module FlatFields {
  import opened Documents
  import opened FieldPaths
  import opened Strings
  import opened Wrappers

  type Flat = map<string, Value>

  function Lookup(flat: Flat, s: string): Option<Value> {
    if s in flat then Some(flat[s]) else None
  }

  predicate IsFieldPath(s: string) {
    |Decode(s)| > 0 && Encode(Decode(s)) == s
  }

  // What s holds when v sits at path p: the leaf of v that s names.
  function LeafUnder(v: Value, p: Path, s: string): Option<Value> {
    var q := Decode(s);
    if IsFieldPath(s) && p <= q then Leaf(v, q[|p|..]) else None
  }

  // flat lists exactly the leaves of v, a removed or null field showing as Null.
  ghost predicate FlatOf(flat: Flat, v: Doc) {
    forall s :: Lookup(flat, s) == LeafUnder(v, [], s)
  }

  // No key of the flat form contains another.
  ghost predicate PathsApart(flat: Flat) {
    forall a, b | a in flat && b in flat && Overlaps(a, b) :: a == b
  }

  ghost predicate WellFormed(flat: Flat) {
    && PathsApart(flat)
    && forall s | s in flat :: IsFieldPath(s) && IsLeaf(flat[s])
  }

  lemma FlatOfAt(flat: Flat, v: Doc, p: Path)
    requires FlatOf(flat, v) && |p| > 0
    ensures Lookup(flat, Encode(p)) == Leaf(v, p)
  {
    DecodeEncode(p);
    assert Lookup(flat, Encode(p)) == LeafUnder(v, [], Encode(p));
    assert p[0..] == p;
  }

  lemma FlatOfKey(flat: Flat, v: Doc, s: string)
    requires FlatOf(flat, v) && s in flat
    ensures IsFieldPath(s) && Leaf(v, Decode(s)) == Some(flat[s])
  {
    assert Lookup(flat, s) == LeafUnder(v, [], s);
    assert Decode(s)[0..] == Decode(s);
  }

  lemma FlatOfWellFormed(flat: Flat, v: Doc)
    requires FlatOf(flat, v)
    ensures WellFormed(flat)
  {
    forall s | s in flat ensures IsFieldPath(s) && IsLeaf(flat[s]) {
      FlatOfKey(flat, v, s);
    }
    forall a, b | a in flat && b in flat && Overlaps(a, b) ensures a == b {
      FlatOfKey(flat, v, a);
      FlatOfKey(flat, v, b);
      OverlapsIffRelated(Decode(a), Decode(b));
      if Decode(a) <= Decode(b) {
        LeavesApart(v, Decode(a), Decode(b));
      } else {
        LeavesApart(v, Decode(b), Decode(a));
      }
    }
  }

  // Setting a field: everything it overlaps goes, and Null only removes.
  function WithField(flat: Flat, path: string, v: Value): Flat {
    var kept := map s | s in flat && !Overlaps(s, path) :: flat[s];
    if v.Null? then kept else kept[path := v]
  }

  class FlatSpec {
    var fields: Flat

    constructor (fields: Flat)
      ensures this.fields == fields
    {
      this.fields := fields;
    }

    // The iteration order over a map is arbitrary, here as in the original.
    method Set(path: string, v: Value)
      modifies this
      ensures fields == WithField(old(fields), path, v)
      ensures forall s :: Lookup(fields, s) ==
                if s == path then if v.Null? then None else Some(v)
                else if path + "/" <= s || s + "/" <= path then None
                else Lookup(old(fields), s)
    {
      var todo := fields.Keys;
      while todo != {}
        invariant todo <= old(fields).Keys
        invariant fields == map s | s in old(fields) && (s in todo || !Overlaps(s, path)) :: old(fields)[s]
        decreases todo
      {
        var k :| k in todo;
        todo := todo - {k};
        if Overlaps(k, path) {
          fields := fields - {k};
        }
      }
      if !v.Null? {
        fields := fields[path := v];
      }
    }

    // Adds the leaves of v, which sits at path; false when a mapping has a key that is not a string.
    method FlattenInto(path: string, v: Value, root: bool, ghost at: Path) returns (ok: bool)
      requires path == Encode(at)
      requires root <==> at == []
      requires root ==> v.Object?
      modifies this
      ensures ok <==> StringKeyed(v)
      ensures ok ==> forall s :: Lookup(fields, s) ==
                                 if LeafUnder(v, at, s).Some? then LeafUnder(v, at, s) else Lookup(old(fields), s)
      decreases v
    {
      match v
      case Object(children) =>
        if children == map[] && !root {
          fields := fields[path := v];
          LeafHere(v, at);
          return true;
        }
        var todo := children.Keys;
        while todo != {}
          invariant todo <= children.Keys
          invariant forall k | k in children && k !in todo :: StringKeyed(children[k])
          invariant forall s :: Lookup(fields, s) == Progress(v, at, children.Keys - todo, s, old(fields))
          decreases todo
        {
          var k :| k in todo;
          ghost var before := fields;
          EncodeExtend(at, k);
          ok := FlattenInto(path + "/" + Escape(k), children[k], false, at + [k]);
          if !ok {
            return;
          }
          forall s ensures Lookup(fields, s) == Progress(v, at, children.Keys - (todo - {k}), s, old(fields)) {
            assert Lookup(before, s) == Progress(v, at, children.Keys - todo, s, old(fields));
            ChildLeaf(v, at, k, s);
          }
          todo := todo - {k};
        }
        forall s ensures Progress(v, at, children.Keys, s, old(fields)) ==
                         if LeafUnder(v, at, s).Some? then LeafUnder(v, at, s) else Lookup(old(fields), s) {
          LeafIsInChild(v, at, s);
        }
        ok := true;
      case AnyMap(_) =>
        ok := false;
      case _ =>
        fields := fields[path := v];
        LeafHere(v, at);
        ok := true;
    }
  }

  // The content of s once the children named in done have been added.
  ghost function Progress(v: Doc, at: Path, done: set<string>, s: string, before: Flat): Option<Value> {
    if LeafUnder(v, at, s).Some? && at < Decode(s) && Decode(s)[|at|] in done then LeafUnder(v, at, s)
    else Lookup(before, s)
  }

  lemma LeafHere(v: Value, at: Path)
    requires IsLeaf(v) && |at| > 0
    ensures forall s :: LeafUnder(v, at, s) == if s == Encode(at) then Some(v) else None
  {
    DecodeEncode(at);
    forall s ensures LeafUnder(v, at, s) == if s == Encode(at) then Some(v) else None {
      var q := Decode(s);
      if at <= q {
        assert q == at + q[|at|..];
        if |q| == |at| {
          assert q == at;
        }
      }
    }
  }

  lemma ChildLeaf(v: Doc, at: Path, k: string, s: string)
    requires k in v.fields
    ensures LeafUnder(v.fields[k], at + [k], s) ==
            if at < Decode(s) && Decode(s)[|at|] == k then LeafUnder(v, at, s) else None
  {
    var q := Decode(s);
    assert at + [k] <= q <==> at < q && q[|at|] == k;
    if at < q && q[|at|] == k {
      assert q[|at|..][1..] == q[|at| + 1..];
    }
  }

  lemma LeafIsInChild(v: Doc, at: Path, s: string)
    requires IsBranch(v) || at == []
    ensures LeafUnder(v, at, s).Some? ==> at < Decode(s) && Decode(s)[|at|] in v.fields
  {
  }

  method FlattenSpec(spec: Doc) returns (flat: Option<Flat>)
    ensures flat.Some? <==> StringKeyed(spec)
    ensures flat.Some? ==> FlatOf(flat.value, spec)
  {
    var out := new FlatSpec(map[]);
    var ok := out.FlattenInto(ROOT, spec, true, []);
    flat := if ok then Some(out.fields) else None;
  }

  // ---- Back to a document ----

  function SetIn(doc: Doc, segs: Path, v: Value): Doc
    requires |segs| > 0
    decreases |segs|
  {
    var key := segs[0];
    if |segs| == 1 then Object(doc.fields[key := v])
    else
      var next := if key in doc.fields && doc.fields[key].Object? then doc.fields[key] else EMPTY_OBJECT;
      Object(doc.fields[key := SetIn(next, segs[1..], v)])
  }

  // The leaf at p is the leaf of the field p goes through.
  lemma LeafThrough(doc: Doc, p: Path)
    requires |p| > 0
    ensures Leaf(doc, p) == if p[0] in doc.fields then Leaf(doc.fields[p[0]], p[1..]) else None
  {
  }

  lemma RelatedRest(p: Path, q: Path)
    requires |p| > 0 && |q| > 0
    ensures Related(p, q) <==> p[0] == q[0] && Related(p[1..], q[1..])
    ensures p == q <==> p[0] == q[0] && p[1..] == q[1..]
  {
    assert p == [p[0]] + p[1..] && q == [q[0]] + q[1..];
  }

  lemma {:induction false} SetInLeaf(doc: Doc, segs: Path, v: Value, p: Path)
    requires |segs| > 0 && |p| > 0 && IsLeaf(v)
    ensures Leaf(SetIn(doc, segs, v), p) ==
            if p == segs then Some(v) else if Related(p, segs) then None else Leaf(doc, p)
    decreases |segs|
  {
    var key, rest := segs[0], p[1..];
    LeafThrough(SetIn(doc, segs, v), p);
    LeafThrough(doc, p);
    RelatedRest(p, segs);
    if p[0] == key && |segs| > 1 {
      var next := if key in doc.fields && doc.fields[key].Object? then doc.fields[key] else EMPTY_OBJECT;
      if |p| > 1 {
        SetInLeaf(next, segs[1..], v, rest);
        LeafThrough(next, rest);
      } else {
        assert segs[1] in SetIn(next, segs[1..], v).fields;
      }
    }
  }

  // doc holds exactly the leaves of flat that are not Null.
  ghost predicate HoldsLeaves(doc: Doc, flat: Flat) {
    forall p: Path | |p| > 0 :: Leaf(doc, p) == Shown(flat, p)
  }

  function Shown(flat: Flat, p: Path): Option<Value> {
    Present(Lookup(flat, Encode(p)))
  }

  // A null field is as good as none.
  function Present(v: Option<Value>): Option<Value> {
    if v == Some(Null) then None else v
  }

  method UnflattenSpec(flat: Flat) returns (spec: Doc)
    requires WellFormed(flat)
    ensures HoldsLeaves(spec, flat)
  {
    spec := EMPTY_OBJECT;
    var paths := SortedKeys(flat.Keys);
    for i := 0 to |paths|
      invariant HoldsFirst(spec, flat, paths, i)
    {
      var s := paths[i];
      assert s in ToSet(paths);
      NextPath(spec, flat, paths, i);
      if !flat[s].Null? {
        spec := SetIn(spec, Decode(s), flat[s]);
      }
    }
    forall p: Path | |p| > 0 ensures Leaf(spec, p) == Shown(flat, p) {
      if Encode(p) in flat {
        assert Encode(p) in ToSet(paths);
        var j :| 0 <= j < |paths| && paths[j] == Encode(p);
        assert ListedBefore(paths, |paths|, Encode(p));
      }
    }
  }

  ghost predicate ListedBefore(paths: seq<string>, n: nat, s: string)
    requires n <= |paths|
  {
    exists j | 0 <= j < n :: paths[j] == s
  }

  // doc holds the leaves of the first n paths.
  ghost predicate HoldsFirst(doc: Doc, flat: Flat, paths: seq<string>, n: nat)
    requires n <= |paths|
  {
    forall p: Path | |p| > 0 :: Leaf(doc, p) == if ListedBefore(paths, n, Encode(p)) then Shown(flat, p) else None
  }

  function WithPath(doc: Doc, flat: Flat, s: string): Doc
    requires s in flat
  {
    if flat[s].Null? then doc else SetIn(doc, Decode(s), flat[s])
  }

  lemma NextPath(doc: Doc, flat: Flat, paths: seq<string>, i: nat)
    requires WellFormed(flat) && StrictlySorted(paths) && ToSet(paths) == flat.Keys
    requires i < |paths| && paths[i] in flat && HoldsFirst(doc, flat, paths, i)
    ensures HoldsFirst(WithPath(doc, flat, paths[i]), flat, paths, i + 1)
  {
    forall p: Path | |p| > 0
      ensures Leaf(WithPath(doc, flat, paths[i]), p) ==
              if ListedBefore(paths, i + 1, Encode(p)) then Shown(flat, p) else None
    {
      NextPathAt(doc, flat, paths, i, p);
    }
  }

  lemma NextPathAt(doc: Doc, flat: Flat, paths: seq<string>, i: nat, p: Path)
    requires WellFormed(flat) && StrictlySorted(paths) && ToSet(paths) == flat.Keys
    requires i < |paths| && paths[i] in flat && HoldsFirst(doc, flat, paths, i) && |p| > 0
    ensures Leaf(WithPath(doc, flat, paths[i]), p) ==
            if ListedBefore(paths, i + 1, Encode(p)) then Shown(flat, p) else None
  {
    var s := paths[i];
    assert ListedBefore(paths, i + 1, Encode(p)) <==> ListedBefore(paths, i, Encode(p)) || Encode(p) == s;
    assert !ListedBefore(paths, i, s);
    assert ListedBefore(paths, i, Encode(p)) ==> Encode(p) in ToSet(paths);
    WithPathAt(doc, flat, s, p);
  }

  // One path of the flat form is put in place; the others are where they were.
  lemma WithPathAt(doc: Doc, flat: Flat, s: string, p: Path)
    requires WellFormed(flat) && s in flat && |p| > 0
    ensures Encode(p) == s ==> Leaf(WithPath(doc, flat, s), p) == if flat[s].Null? then Leaf(doc, p) else Some(flat[s])
    ensures Encode(p) != s && Encode(p) in flat ==> Leaf(WithPath(doc, flat, s), p) == Leaf(doc, p)
    ensures Encode(p) != s && Leaf(doc, p).None? ==> Leaf(WithPath(doc, flat, s), p).None?
  {
    OverlapsIffRelated(p, Decode(s));
    if Encode(p) == s {
      EncodeInjective(p, Decode(s));
    }
    if !flat[s].Null? {
      SetInLeaf(doc, Decode(s), flat[s], p);
    }
  }

  lemma DocsByLeaves(a: Doc, b: Doc)
    requires forall p: Path | |p| > 0 :: Leaf(a, p) == Leaf(b, p)
    ensures a == b
  {
    var pa := LeafBelow(a);
    var pb := LeafBelow(b);
    assert Leaf(b, pa) == Leaf(a, pa) || |pa| == 0;
    assert Leaf(a, pb) == Leaf(b, pb) || |pb| == 0;
    forall p: Path ensures Leaf(a, p) == Leaf(b, p) {
      if |p| == 0 {
        assert IsBranch(a) <==> IsBranch(b);
      }
    }
    LeavesDetermine(a, b);
  }

  // Taking a document apart and putting it together again gives it back exactly when no field is null.
  lemma FlattenRoundTrip(spec: Doc, flat: Flat, back: Doc)
    requires FlatOf(flat, spec) && HoldsLeaves(back, flat)
    ensures back == spec <==> NullFree(spec)
  {
    forall p: Path | |p| > 0
      ensures Leaf(back, p) == if Leaf(spec, p) == Some(Null) then None else Leaf(spec, p)
    {
      FlatOfAt(flat, spec, p);
    }
    if NullFree(spec) {
      forall p: Path | |p| > 0 ensures Leaf(back, p) == Leaf(spec, p) {
        NullFreeLeaf(spec, p);
      }
      DocsByLeaves(back, spec);
    }
    if back == spec {
      assert forall p: Path | |p| > 0 :: Leaf(spec, p) != Some(Null);
      NullFreeByLeaves(spec);
    }
  }
}

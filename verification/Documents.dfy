// Decoded manifest documents and the paths through them.
module Documents {

  import opened Wrappers

  // What a YAML decoder hands over as `any`. A scalar is its tag and canonical text; AnyMap is a
  // mapping with a key that is not a string, which the decoder keeps apart from Object.
  datatype Value =
    | Null
    | Scalar(tag: string, text: string)
    | List(items: seq<Value>)
    | AnyMap(entries: seq<(Value, Value)>)
    | Object(fields: map<string, Value>)

  const EMPTY_OBJECT := Object(map[])

  type Doc = v: Value | v.Object? witness Object(map[])

  type Path = seq<string>

  function Get(v: Value, p: Path): Option<Value>
    decreases p
  {
    if |p| == 0 then Some(v)
    else if v.Object? && p[0] in v.fields then Get(v.fields[p[0]], p[1..])
    else None
  }

  // A leaf is anything that has no fields below it: lists are atomic, and so is the empty object.
  predicate IsLeaf(v: Value) {
    v.Object? ==> v.fields == map[]
  }

  predicate IsBranch(v: Value) {
    v.Object? && v.fields != map[]
  }

  function Leaf(v: Value, p: Path): Option<Value> {
    var g := Get(v, p);
    if g.Some? && IsLeaf(g.value) then g else None
  }

  predicate Related(p: Path, q: Path) {
    p <= q || q <= p
  }

  // No field holds null, at any depth reached through objects.
  predicate NullFree(v: Value) {
    && !v.Null?
    && (v.Object? ==> forall k | k in v.fields :: NullFree(v.fields[k]))
  }

  // No mapping with a key that is not a string, at any depth reached through objects.
  predicate StringKeyed(v: Value) {
    && !v.AnyMap?
    && (v.Object? ==> forall k | k in v.fields :: StringKeyed(v.fields[k]))
  }

  // A mapping with a key that is not a string stands at the path.
  predicate AnyMapAt(v: Value, p: Path) {
    Get(v, p).Some? && Get(v, p).value.AnyMap?
  }

  // That is, none stands at any path.
  lemma {:induction false} StringKeyedIff(v: Value)
    ensures StringKeyed(v) <==> !exists p: Path :: AnyMapAt(v, p)
    decreases v
  {
    if StringKeyed(v) {
      forall p: Path ensures !AnyMapAt(v, p) {
        StringKeyedAt(v, p);
      }
    } else if v.AnyMap? {
      assert AnyMapAt(v, []);
    } else {
      var k :| k in v.fields && !StringKeyed(v.fields[k]);
      StringKeyedIff(v.fields[k]);
      var p: Path :| AnyMapAt(v.fields[k], p);
      assert ([k] + p)[1..] == p;
      assert AnyMapAt(v, [k] + p);
    }
  }

  lemma {:induction false} StringKeyedAt(v: Value, p: Path)
    requires StringKeyed(v)
    ensures !AnyMapAt(v, p)
    decreases p
  {
    if |p| > 0 && v.Object? && p[0] in v.fields {
      StringKeyedAt(v.fields[p[0]], p[1..]);
    }
  }

  lemma {:induction false} GetConcat(v: Value, p: Path, q: Path)
    ensures Get(v, p + q) == if Get(v, p).Some? then Get(Get(v, p).value, q) else None
    decreases p
  {
    if |p| == 0 {
      assert p + q == q;
    } else {
      assert (p + q)[1..] == p[1..] + q;
      if v.Object? && p[0] in v.fields {
        GetConcat(v.fields[p[0]], p[1..], q);
      }
    }
  }

  // Two leaves of one document are never on one line of descent.
  lemma LeavesApart(v: Value, p: Path, q: Path)
    requires p <= q && Leaf(v, p).Some? && Get(v, q).Some?
    ensures p == q
  {
    assert q == p + q[|p|..];
    GetConcat(v, p, q[|p|..]);
    assert Get(Get(v, p).value, q[|p|..]).Some?;
  }

  lemma {:induction false} LeafBelow(v: Value) returns (p: Path)
    ensures Leaf(v, p).Some?
    ensures IsBranch(v) ==> |p| > 0
  {
    p := [];
    if IsBranch(v) {
      var k :| k in v.fields;
      var rest := LeafBelow(v.fields[k]);
      p := [k] + rest;
      assert p[1..] == rest;
    }
  }

  ghost predicate SameLeaves(a: Value, b: Value) {
    forall p: Path :: Leaf(a, p) == Leaf(b, p)
  }

  // A document is determined by its leaves.
  lemma {:induction false} LeavesDetermine(a: Value, b: Value)
    requires SameLeaves(a, b)
    ensures a == b
    decreases a
  {
    assert Leaf(a, []) == Leaf(b, []);
    if IsBranch(a) {
      assert IsBranch(b) by {
        var p := LeafBelow(a);
        assert Leaf(b, p) == Leaf(a, p);
      }
      FieldsOf(a, b);
      FieldsOf(b, a);
      forall k | k in a.fields
        ensures a.fields[k] == b.fields[k]
      {
        forall p: Path ensures Leaf(a.fields[k], p) == Leaf(b.fields[k], p) {
          assert ([k] + p)[1..] == p;
          assert Leaf(a, [k] + p) == Leaf(b, [k] + p);
        }
        LeavesDetermine(a.fields[k], b.fields[k]);
      }
    }
  }

  lemma FieldsOf(a: Value, b: Value)
    requires SameLeaves(a, b) && IsBranch(a) && IsBranch(b)
    ensures a.fields.Keys <= b.fields.Keys
  {
    forall k | k in a.fields ensures k in b.fields {
      var p := LeafBelow(a.fields[k]);
      assert ([k] + p)[1..] == p;
      assert Leaf(b, [k] + p) == Leaf(a, [k] + p);
    }
  }

  lemma {:induction false} NullFreeLeaf(v: Value, p: Path)
    requires NullFree(v)
    ensures Get(v, p) != Some(Null)
    decreases p
  {
    if |p| > 0 && v.Object? && p[0] in v.fields {
      NullFreeLeaf(v.fields[p[0]], p[1..]);
    }
  }

  lemma {:induction false} NullFreeByLeaves(v: Value)
    requires forall p: Path :: Leaf(v, p) != Some(Null)
    ensures NullFree(v)
  {
    assert Leaf(v, []) != Some(Null);
    if v.Object? {
      forall k | k in v.fields ensures NullFree(v.fields[k]) {
        forall p: Path ensures Leaf(v.fields[k], p) != Some(Null) {
          assert ([k] + p)[1..] == p;
          assert Leaf(v, [k] + p) != Some(Null);
        }
        NullFreeByLeaves(v.fields[k]);
      }
    }
  }
}

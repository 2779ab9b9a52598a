// Field paths as the server writes them: "/spec/a/b" with "~" and "/" inside a key escaped.
module FieldPaths {
  import opened Documents
  import opened Strings

  function Escape(seg: string): string {
    ReplaceAll(ReplaceAll(seg, "~", "~0"), "/", "~1")
  }

  function Unescape(seg: string): string {
    ReplaceAll(ReplaceAll(seg, "~1", "/"), "~0", "~")
  }

  const ROOT := "/spec"

  function Tail(p: Path): string {
    if |p| == 0 then "" else "/" + Escape(p[0]) + Tail(p[1..])
  }

  function Encode(p: Path): string {
    ROOT + Tail(p)
  }

  // Whether two written paths name the same field or one contains the other.
  predicate Overlaps(a: string, b: string) {
    a == b || b + "/" <= a || a + "/" <= b
  }

  function Decode(s: string): Path {
    var parts := Split(TrimPrefix(s, ROOT + "/"), '/');
    seq(|parts|, i requires 0 <= i < |parts| => Unescape(parts[i]))
  }

  // ---- Escaping ----

  function EscapeChar(c: char): string {
    if c == '~' then "~0" else if c == '/' then "~1" else [c]
  }

  lemma EscapeByChar(s: string)
    ensures |s| > 0 ==> Escape(s) == EscapeChar(s[0]) + Escape(s[1..])
    ensures |s| == 0 ==> Escape(s) == ""
  {
    if |s| > 0 {
      TildesByChar(s);
      var rest := ReplaceAll(s[1..], "~", "~0");
      if s[0] == '~' {
        assert "~0" + rest == ['~'] + (['0'] + rest);
        ReplaceSkip('~', ['0'] + rest, "/", "~1");
        ReplaceSkip('0', rest, "/", "~1");
        assert ['~'] + (['0'] + Escape(s[1..])) == "~0" + Escape(s[1..]);
      } else if s[0] == '/' {
        assert "/" + rest == ['/'] + rest;
        ReplaceHead("/", "~1", rest);
      } else {
        ReplaceSkip(s[0], rest, "/", "~1");
      }
    }
  }

  // Doubling the tildes, character by character.
  lemma TildesByChar(s: string)
    requires |s| > 0
    ensures ReplaceAll(s, "~", "~0") == (if s[0] == '~' then "~0" else [s[0]]) + ReplaceAll(s[1..], "~", "~0")
  {
    var c, rest := s[0], s[1..];
    assert s == [c] + rest;
    if c == '~' {
      assert s == "~" + rest;
      ReplaceHead("~", "~0", rest);
    } else {
      ReplaceSkip(c, rest, "~", "~0");
    }
  }

  lemma {:induction false} EscapeHasNoSlash(s: string)
    ensures '/' !in Escape(s)
  {
    EscapeByChar(s);
    if |s| > 0 {
      EscapeHasNoSlash(s[1..]);
    }
  }

  lemma {:induction false} UnescapeSlashes(s: string)
    ensures ReplaceAll(Escape(s), "~1", "/") == ReplaceAll(s, "~", "~0")
  {
    EscapeByChar(s);
    if |s| > 0 {
      UnescapeSlashes(s[1..]);
      TildesByChar(s);
      var rest := Escape(s[1..]);
      if s[0] == '~' {
        assert "~0" + rest == ['~'] + (['0'] + rest);
        ReplaceSkip('~', ['0'] + rest, "~1", "/");
        ReplaceSkip('0', rest, "~1", "/");
      } else if s[0] == '/' {
        ReplaceHead("~1", "/", rest);
      } else {
        ReplaceSkip(s[0], rest, "~1", "/");
      }
    }
  }

  lemma {:induction false} UnescapeTildes(s: string)
    ensures ReplaceAll(ReplaceAll(s, "~", "~0"), "~0", "~") == s
  {
    if |s| > 0 {
      UnescapeTildes(s[1..]);
      TildesByChar(s);
      var rest := ReplaceAll(s[1..], "~", "~0");
      if s[0] == '~' {
        ReplaceHead("~0", "~", rest);
      } else {
        ReplaceSkip(s[0], rest, "~0", "~");
      }
      assert s == [s[0]] + s[1..];
    }
  }

  // No key is lost or confused with another by escaping it.
  lemma EscapeRoundTrip(s: string)
    ensures Unescape(Escape(s)) == s
  {
    UnescapeSlashes(s);
    UnescapeTildes(s);
  }

  // ---- Written paths against paths ----

  // Two segments followed by nothing or by a slash: comparing the texts compares the segments first.
  lemma SegmentsFirst(x: string, u: string, y: string, v: string)
    requires '/' !in x && '/' !in y
    requires u == "" || u[0] == '/'
    requires v == "" || v[0] == '/'
    ensures u != "" && x + u <= y + v ==> x == y && u <= v
    ensures x + u == y + v ==> x == y && u == v
  {
    var a, b := x + u, y + v;
    if |x| < |y| {
      assert b[|x|] == y[|x|] != '/';
      assert u != "" ==> a[|x|] == '/';
    } else if |y| < |x| {
      assert a[|y|] == x[|y|] != '/';
      assert v != "" ==> b[|y|] == '/';
    } else {
      assert a[..|x|] == x && a[|x|..] == u && b[..|x|] == y && b[|x|..] == v;
      assert a <= b ==> a[..|x|] == b[..|x|] && a[|x|..] <= b[|x|..];
    }
  }

  lemma EscapeInjective(x: string, y: string)
    requires Escape(x) == Escape(y)
    ensures x == y
  {
    EscapeRoundTrip(x);
    EscapeRoundTrip(y);
  }

  lemma Slash(x: string, y: string)
    ensures "/" + x + y == "/" + (x + y)
    ensures ("/" + (x + y))[1..] == x + y
    ensures "/" + x + y + "/" == "/" + (x + (y + "/"))
  {
  }

  // What follows a segment: nothing, or a slash and more.
  predicate IsTail(t: string) {
    t == "" || t[0] == '/'
  }

  lemma TailIsTail(p: Path)
    ensures IsTail(Tail(p))
  {
  }

  // Two paths that begin with the segments x and y.
  lemma FirstSegments(x: string, u: string, y: string, v: string)
    requires '/' !in x && '/' !in y && IsTail(u) && IsTail(v)
    ensures "/" + x + u == "/" + y + v ==> x == y && u == v
    ensures "/" + x + u + "/" <= "/" + y + v <==> x == y && u + "/" <= v
  {
    Slash(x, u);
    Slash(y, v);
    PrependPrefix("/", x + (u + "/"), y + v);
    SegmentsFirst(x, u, y, v);
    SegmentsFirst(x, u + "/", y, v);
    if x == y {
      PrependPrefix(x, u + "/", v);
    }
  }

  lemma FirstOfTails(a: Path, b: Path)
    requires |a| > 0 && |b| > 0
    ensures Tail(a) == Tail(b) ==> a[0] == b[0] && Tail(a[1..]) == Tail(b[1..])
    ensures Tail(a) + "/" <= Tail(b) <==> a[0] == b[0] && Tail(a[1..]) + "/" <= Tail(b[1..])
  {
    var x, y := Escape(a[0]), Escape(b[0]);
    EscapeHasNoSlash(a[0]);
    EscapeHasNoSlash(b[0]);
    TailIsTail(a[1..]);
    TailIsTail(b[1..]);
    FirstSegments(x, Tail(a[1..]), y, Tail(b[1..]));
    if x == y {
      EscapeInjective(a[0], b[0]);
    }
  }

  lemma {:induction false} TailPrefix(a: Path, b: Path)
    ensures Tail(a) + "/" <= Tail(b) <==> a < b
    decreases a
  {
    if |a| > 0 && |b| > 0 {
      FirstOfTails(a, b);
      TailPrefix(a[1..], b[1..]);
      assert a < b <==> a[0] == b[0] && a[1..] < b[1..] by {
        assert a == [a[0]] + a[1..] && b == [b[0]] + b[1..];
      }
    } else if |b| > 0 {
      Slash(Escape(b[0]), Tail(b[1..]));
    }
  }

  lemma {:induction false} TailInjective(a: Path, b: Path)
    requires Tail(a) == Tail(b)
    ensures a == b
    decreases a
  {
    if |a| > 0 && |b| > 0 {
      FirstOfTails(a, b);
      TailInjective(a[1..], b[1..]);
      assert a == [a[0]] + a[1..] && b == [b[0]] + b[1..];
    }
  }

  // Distinct fields are written differently.
  lemma EncodeInjective(a: Path, b: Path)
    requires Encode(a) == Encode(b)
    ensures a == b
  {
    assert Encode(a)[|ROOT|..] == Tail(a) && Encode(b)[|ROOT|..] == Tail(b);
    TailInjective(a, b);
  }

  // The textual overlap test is exactly the relation between fields: one is inside the other.
  lemma OverlapsIffRelated(a: Path, b: Path)
    ensures Overlaps(Encode(a), Encode(b)) <==> Related(a, b)
  {
    assert Encode(a) + "/" == ROOT + (Tail(a) + "/") && Encode(b) + "/" == ROOT + (Tail(b) + "/");
    TailPrefix(a, b);
    TailPrefix(b, a);
    PrependPrefix(ROOT, Tail(a) + "/", Tail(b));
    PrependPrefix(ROOT, Tail(b) + "/", Tail(a));
    if Encode(a) == Encode(b) {
      EncodeInjective(a, b);
    }
    assert Related(a, b) <==> a == b || a < b || b < a;
  }

  lemma PrependPrefix(r: string, x: string, y: string)
    ensures r + x <= r + y <==> x <= y
  {
    if r + x <= r + y {
      assert (r + x)[|r|..] == x && (r + y)[|r|..] == y;
    }
  }

  lemma {:induction false} EncodeExtend(p: Path, k: string)
    ensures Encode(p + [k]) == Encode(p) + "/" + Escape(k)
  {
    TailExtend(p, k);
  }

  lemma {:induction false} TailExtend(p: Path, k: string)
    ensures Tail(p + [k]) == Tail(p) + "/" + Escape(k)
  {
    if |p| == 0 {
      assert p + [k] == [k];
    } else {
      assert (p + [k])[1..] == p[1..] + [k];
      TailExtend(p[1..], k);
    }
  }

  // How a field is written: below /spec, each key after a slash, with ~ as ~0 and / as ~1.
  lemma WrittenPath(p: Path, k: string)
    ensures Encode([]) == "/spec"
    ensures Encode(p + [k]) == Encode(p) + "/" + Escape(k)
  {
    EncodeExtend(p, k);
  }

  lemma EscapedKey(a: string, c: char, b: string)
    ensures Escape("") == ""
    ensures Escape(a + [c] + b) == Escape(a) + (if c == '~' then "~0" else if c == '/' then "~1" else [c]) + Escape(b)
  {
    EscapeByChar("");
    EscapeConcat([c], b);
    EscapeByChar([c]);
    assert [c][1..] == "";
    EscapeConcat(a, [c] + b);
    assert a + ([c] + b) == a + [c] + b;
    assert Escape(a) + (EscapeChar(c) + Escape(b)) == Escape(a) + EscapeChar(c) + Escape(b);
  }

  lemma {:induction false} EscapeConcat(a: string, b: string)
    ensures Escape(a + b) == Escape(a) + Escape(b)
  {
    if |a| == 0 {
      EscapeByChar(a);
      assert a + b == b;
    } else {
      var c, rest := a[0], a[1..];
      assert a == [c] + rest;
      assert a + b == [c] + (rest + b);
      EscapeConcat(rest, b);
      calc {
        Escape(a + b);
        { EscapeHead(c, rest + b); }
        EscapeChar(c) + Escape(rest + b);
        (EscapeChar(c) + Escape(rest)) + Escape(b);
        { EscapeHead(c, rest); }
        Escape(a) + Escape(b);
      }
    }
  }

  lemma EscapeHead(c: char, rest: string)
    ensures Escape([c] + rest) == EscapeChar(c) + Escape(rest)
  {
    EscapeByChar([c] + rest);
    assert ([c] + rest)[1..] == rest;
  }

  // ---- Reading a written path ----

  lemma {:induction false} SplitSegment(x: string, v: string)
    requires '/' !in x
    requires v == "" || v[0] == '/'
    ensures Split(x + v, '/') == [x] + (if v == "" then [] else Split(v[1..], '/'))
  {
    if |x| == 0 {
      assert x + v == v;
    } else {
      assert (x + v)[1..] == x[1..] + v;
      SplitSegment(x[1..], v);
      assert x == [x[0]] + x[1..];
    }
  }

  function EscapedKeys(p: Path): seq<string> {
    seq(|p|, i requires 0 <= i < |p| => Escape(p[i]))
  }

  lemma EscapedFirst(p: Path)
    requires |p| > 0
    ensures EscapedKeys(p) == [Escape(p[0])] + EscapedKeys(p[1..])
  {
    forall i | 0 < i < |p| ensures EscapedKeys(p)[i] == EscapedKeys(p[1..])[i - 1] {
      assert p[1..][i - 1] == p[i];
    }
  }

  lemma {:induction false} SplitTail(p: Path)
    requires |p| > 0
    ensures Split(Tail(p)[1..], '/') == EscapedKeys(p)
  {
    var rest := p[1..];
    EscapeHasNoSlash(p[0]);
    assert Tail(p)[1..] == Escape(p[0]) + Tail(rest);
    SplitSegment(Escape(p[0]), Tail(rest));
    EscapedFirst(p);
    if |p| > 1 {
      SplitTail(rest);
    }
  }

  // Splitting and unescaping a written path gives back the field it was written for.
  lemma DecodeEncode(p: Path)
    requires |p| > 0
    ensures Decode(Encode(p)) == p
  {
    assert Tail(p)[..1] == "/";
    assert Encode(p) == (ROOT + "/") + Tail(p)[1..];
    assert TrimPrefix(Encode(p), ROOT + "/") == Tail(p)[1..];
    SplitTail(p);
    forall i | 0 <= i < |p| ensures Unescape(Escape(p[i])) == p[i] {
      EscapeRoundTrip(p[i]);
    }
  }
}

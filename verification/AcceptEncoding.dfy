// Reading Accept-Encoding (sections 12.4.2 and 12.5.3 of RFC 9110) and choosing a stored variant.
module AcceptEncoding {
  import opened Strings
  import opened Wrappers

  // strings.Cut at a one-character separator: the parts before and after it.
  function Cut(s: string, sep: char): (string, string) {
    if |s| == 0 then ("", "")
    else if s[0] == sep then ("", s[1..])
    else
      var (before, after) := Cut(s[1..], sep);
      ([s[0]] + before, after)
  }

  // What the number parser says about a text: None for no number, else whether it is above zero.
  type Positive = string -> Option<bool>

  // One element of the header: the coding and whether it is accepted; None for an empty element.
  function ReadElement(part: string, positive: Positive): Option<(string, bool)> {
    var (name, params) := Cut(TrimSpace(part), ';');
    var token := ToLower(TrimSpace(name));
    var weight := ReplaceAll(TrimSpace(params), " ", "");
    if token == "" then None
    else if "q=" <= weight then
      var q := positive(weight[2..]);
      Some((token, if q.Some? then q.value else true))
    else Some((token, true))
  }

  // The elements in order; a coding named again replaces what was read before.
  function Collect(elements: seq<Option<(string, bool)>>): map<string, bool> {
    if |elements| == 0 then map[]
    else
      var rest := Collect(elements[..|elements| - 1]);
      var e := elements[|elements| - 1];
      if e.Some? then rest[e.value.0 := e.value.1] else rest
  }

  function ReadAll(header: string, positive: Positive): map<string, bool> {
    var parts := Split(header, ',');
    Collect(seq(|parts|, i requires 0 <= i < |parts| => ReadElement(parts[i], positive)))
  }

  method AcceptedEncodings(header: string, positive: Positive) returns (accepted: map<string, bool>)
    ensures accepted == ReadAll(header, positive)
  {
    accepted := map[];
    var parts := Split(header, ',');
    ghost var elements := seq(|parts|, i requires 0 <= i < |parts| => ReadElement(parts[i], positive));
    for i := 0 to |parts|
      invariant accepted == Collect(elements[..i])
    {
      assert elements[..i + 1][..i] == elements[..i];
      var e := ReadElement(parts[i], positive);
      if e.Some? {
        accepted := accepted[e.value.0 := e.value.1];
      }
    }
    assert elements[..|parts|] == elements;
  }

  // ---- Headers as RFC 9110 writes them ----

  // A qvalue: up to three decimals between 0 and 1.
  predicate IsQvalue(s: string) {
    && 0 < |s| <= 5
    && (s[0] == '0' || s[0] == '1')
    && (|s| > 1 ==> s[1] == '.')
    && (forall i | 2 <= i < |s| :: '0' <= s[i] <= '9')
    && (s[0] == '1' ==> forall i | 2 <= i < |s| :: s[i] == '0')
  }

  predicate IsPositive(q: string) {
    exists i | 0 <= i < |q| :: '1' <= q[i] <= '9'
  }

  // The number parser is right about every qvalue.
  ghost predicate ReadsQvalues(positive: Positive) {
    forall q | IsQvalue(q) :: positive(q) == Some(IsPositive(q))
  }

  predicate TokenChar(c: char) {
    '!' <= c <= '~' && c != ',' && c != ';' && c != '='
  }

  predicate IsToken(s: string) {
    |s| > 0 && forall i | 0 <= i < |s| :: TokenChar(s[i])
  }

  // Optional white space.
  predicate IsOws(s: string) {
    forall i | 0 <= i < |s| :: s[i] == ' ' || s[i] == '\t'
  }

  // A weight: the letter q in either case, and the white space around the semicolon.
  datatype Weight = Weight(before: string, after: string, letter: char, q: string)

  datatype Coding = Coding(lead: string, name: string, weight: Option<Weight>, trail: string)

  predicate IsCoding(c: Coding) {
    && IsOws(c.lead) && IsToken(c.name) && IsOws(c.trail)
    && (c.weight.Some? ==>
          && IsOws(c.weight.value.before) && IsOws(c.weight.value.after)
          && (c.weight.value.letter == 'q' || c.weight.value.letter == 'Q')
          && IsQvalue(c.weight.value.q))
  }

  function RenderWeight(w: Option<Weight>): string {
    if w.None? then "" else w.value.before + (";" + (w.value.after + ([w.value.letter] + ("=" + w.value.q))))
  }

  function RenderCoding(c: Coding): string {
    c.lead + (c.name + (RenderWeight(c.weight) + c.trail))
  }

  function Render(codings: seq<Coding>): string
    requires |codings| > 0
  {
    if |codings| == 1 then RenderCoding(codings[0])
    else RenderCoding(codings[0]) + ("," + Render(codings[1..]))
  }

  // What RFC 9110 means: accepted unless the weight is zero.
  predicate Acceptable(c: Coding) {
    c.weight.None? || IsPositive(c.weight.value.q)
  }

  // What is read: a weight written with a capital Q is not seen.
  predicate ReadAs(c: Coding) {
    c.weight.None? || c.weight.value.letter == 'Q' || IsPositive(c.weight.value.q)
  }

  // ---- Trimming ----

  lemma {:induction false} TrimLeftOws(ws: string, s: string)
    requires IsOws(ws) && (|s| > 0 ==> !IsSpace(s[0]))
    ensures TrimLeft(ws + s) == s
  {
    if |ws| == 0 {
      assert ws + s == s;
    } else {
      assert (ws + s)[0] == ws[0] && (ws + s)[1..] == ws[1..] + s;
      TrimLeftOws(ws[1..], s);
    }
  }

  lemma {:induction false} TrimRightOws(s: string, ws: string)
    requires IsOws(ws) && (|s| > 0 ==> !IsSpace(s[|s| - 1]))
    ensures TrimRight(s + ws) == s
  {
    if |ws| == 0 {
      assert s + ws == s;
    } else {
      var n := |ws| - 1;
      assert (s + ws)[|s + ws| - 1] == ws[n] && (s + ws)[..|s + ws| - 1] == s + ws[..n];
      TrimRightOws(s, ws[..n]);
    }
  }

  // A text with no space at either end, padded on both sides.
  lemma TrimOws(lead: string, s: string, trail: string)
    requires IsOws(lead) && IsOws(trail) && |s| > 0 && !IsSpace(s[0]) && !IsSpace(s[|s| - 1])
    ensures TrimSpace(lead + (s + trail)) == s
  {
    TrimLeftOws(lead, s + trail);
    TrimRightOws(s, trail);
  }

  // ---- Cutting ----

  lemma {:induction false} CutAt(before: string, sep: char, after: string)
    requires sep !in before
    ensures Cut(before + ([sep] + after), sep) == (before, after)
  {
    var s := before + ([sep] + after);
    if |before| == 0 {
      assert s == [sep] + after && s[1..] == after;
    } else {
      assert s[0] == before[0] && s[1..] == before[1..] + ([sep] + after);
      CutAt(before[1..], sep, after);
      assert before == [before[0]] + before[1..];
    }
  }

  lemma {:induction false} CutNone(s: string, sep: char)
    requires sep !in s
    ensures Cut(s, sep) == (s, "")
  {
    if |s| > 0 {
      CutNone(s[1..], sep);
      assert s == [s[0]] + s[1..];
    }
  }

  lemma {:induction false} SplitAtComma(x: string, rest: string)
    requires ',' !in x
    ensures Split(x + ("," + rest), ',') == [x] + Split(rest, ',')
  {
    var s := x + ("," + rest);
    if |x| == 0 {
      assert s == "," + rest && s[1..] == rest;
    } else {
      assert s[0] == x[0] && s[1..] == x[1..] + ("," + rest);
      SplitAtComma(x[1..], rest);
      assert x == [x[0]] + x[1..];
    }
  }

  lemma {:induction false} SplitNone(x: string)
    requires ',' !in x
    ensures Split(x, ',') == [x]
  {
    if |x| > 0 {
      SplitNone(x[1..]);
      assert x == [x[0]] + x[1..];
    }
  }

  lemma {:induction false} NothingReplaced(s: string)
    requires ' ' !in s
    ensures ReplaceAll(s, " ", "") == s
  {
    if |s| > 0 {
      NothingReplaced(s[1..]);
      assert s == [s[0]] + s[1..];
    }
  }

  // ---- One element ----

  lemma QvalueChars(q: string)
    requires IsQvalue(q)
    ensures ' ' !in q && ',' !in q && ';' !in q && !IsSpace(q[|q| - 1])
  {
    assert forall i | 0 <= i < |q| :: q[i] == '.' || '0' <= q[i] <= '9';
  }

  lemma ReadCoding(c: Coding, positive: Positive)
    requires IsCoding(c) && ReadsQvalues(positive)
    ensures ReadElement(RenderCoding(c), positive) == Some((ToLower(c.name), ReadAs(c)))
  {
    if c.weight.None? {
      assert RenderCoding(c) == c.lead + (c.name + c.trail);
      TrimOws(c.lead, c.name, c.trail);
      CutNone(c.name, ';');
      TrimOws("", c.name, "");
      assert "" + (c.name + "") == c.name;
      assert ReplaceAll(TrimSpace(""), " ", "") == "";
    } else {
      ReadWeighted(c, positive);
    }
  }

  function Param(w: Weight): string {
    [w.letter] + ("=" + w.q)
  }

  function Inner(name: string, w: Weight): string {
    name + (w.before + (";" + (w.after + Param(w))))
  }

  lemma TrimWeighted(c: Coding)
    requires IsCoding(c) && c.weight.Some?
    ensures TrimSpace(RenderCoding(c)) == Inner(c.name, c.weight.value)
  {
    var w := c.weight.value;
    var inner := Inner(c.name, w);
    QvalueChars(w.q);
    assert RenderCoding(c) == c.lead + (inner + c.trail);
    assert inner[0] == c.name[0];
    assert inner[|inner| - 1] == w.q[|w.q| - 1];
    TrimOws(c.lead, inner, c.trail);
  }

  lemma CutWeighted(name: string, w: Weight)
    requires IsToken(name) && IsOws(w.before)
    ensures Cut(Inner(name, w), ';') == (name + w.before, w.after + Param(w))
    ensures TrimSpace(name + w.before) == name
  {
    assert Inner(name, w) == (name + w.before) + ([';'] + (w.after + Param(w)));
    CutAt(name + w.before, ';', w.after + Param(w));
    TrimOws("", name, w.before);
    assert "" + (name + w.before) == name + w.before;
  }

  lemma ReadParam(w: Weight)
    requires IsOws(w.after) && IsQvalue(w.q) && (w.letter == 'q' || w.letter == 'Q')
    ensures var weight := ReplaceAll(TrimSpace(w.after + Param(w)), " ", "");
            |weight| >= 2 && ("q=" <= weight <==> w.letter == 'q') && weight[2..] == w.q
  {
    var param := Param(w);
    QvalueChars(w.q);
    assert param[|param| - 1] == w.q[|w.q| - 1];
    TrimOws(w.after, param, "");
    assert w.after + (param + "") == w.after + param;
    NothingReplaced(param);
    assert param[2..] == w.q && param[0] == w.letter && param[1] == '=';
  }

  lemma ReadWeighted(c: Coding, positive: Positive)
    requires IsCoding(c) && ReadsQvalues(positive) && c.weight.Some?
    ensures ReadElement(RenderCoding(c), positive) == Some((ToLower(c.name), ReadAs(c)))
  {
    TrimWeighted(c);
    CutWeighted(c.name, c.weight.value);
    ReadParam(c.weight.value);
  }

  // Any weight written with a small q is handed to the number parser, and what that does not read is no refusal.
  lemma WeightIsRead(name: string, v: string, positive: Positive)
    requires IsToken(name) && ' ' !in v && (|v| > 0 ==> !IsSpace(v[|v| - 1]))
    ensures ReadElement(name + ";q=" + v, positive) ==
            Some((ToLower(name), if positive(v).Some? then positive(v).value else true))
  {
    var param := "q=" + v;
    var s := name + ([';'] + param);
    assert name + ";q=" + v == s;
    assert param[|param| - 1] == if |v| > 0 then v[|v| - 1] else '=';
    assert s[|s| - 1] == param[|param| - 1];
    TrimmedAlready(s);
    CutAt(name, ';', param);
    TrimmedAlready(name);
    TrimmedAlready(param);
    NothingReplaced(param);
    assert param[2..] == v;
  }

  lemma TrimmedAlready(s: string)
    requires |s| > 0 && !IsSpace(s[0]) && !IsSpace(s[|s| - 1])
    ensures TrimSpace(s) == s
  {
    TrimOws("", s, "");
    assert "" + (s + "") == s;
  }

  lemma CodingHasNoComma(c: Coding)
    requires IsCoding(c)
    ensures ',' !in RenderCoding(c)
  {
    if c.weight.Some? {
      QvalueChars(c.weight.value.q);
    }
    assert ',' !in RenderWeight(c.weight);
  }

  lemma {:induction false} SplitRendered(codings: seq<Coding>)
    requires |codings| > 0 && forall c | c in codings :: IsCoding(c)
    ensures |Split(Render(codings), ',')| == |codings|
    ensures forall i | 0 <= i < |codings| :: Split(Render(codings), ',')[i] == RenderCoding(codings[i])
  {
    CodingHasNoComma(codings[0]);
    if |codings| == 1 {
      SplitNone(RenderCoding(codings[0]));
    } else {
      SplitAtComma(RenderCoding(codings[0]), Render(codings[1..]));
      SplitRendered(codings[1..]);
    }
  }

  // No coding is named twice, in whatever case.
  ghost predicate DistinctNames(codings: seq<Coding>) {
    forall i, j | 0 <= i < j < |codings| :: ToLower(codings[i].name) != ToLower(codings[j].name)
  }

  // The accepted codings are those rendered, each as it is read.
  ghost predicate Agrees(accepted: map<string, bool>, codings: seq<Coding>) {
    && (forall i | 0 <= i < |codings| :: Holds(accepted, codings[i]))
    && (forall name | name in accepted :: Named(codings, name))
  }

  predicate Holds(accepted: map<string, bool>, c: Coding) {
    ToLower(c.name) in accepted && accepted[ToLower(c.name)] == ReadAs(c)
  }

  ghost predicate Named(codings: seq<Coding>, name: string) {
    exists i | 0 <= i < |codings| :: name == ToLower(codings[i].name)
  }

  lemma OneMoreCoding(accepted: map<string, bool>, codings: seq<Coding>, c: Coding)
    requires Agrees(accepted, codings) && DistinctNames(codings + [c])
    ensures Agrees(accepted[ToLower(c.name) := ReadAs(c)], codings + [c])
  {
    var more, all := accepted[ToLower(c.name) := ReadAs(c)], codings + [c];
    assert all[|codings|] == c;
    forall i | 0 <= i < |all| ensures Holds(more, all[i]) {
      if i < |codings| {
        assert all[i] == codings[i] && Holds(accepted, codings[i]);
      }
    }
    forall name | name in more ensures Named(all, name) {
      if name in accepted {
        var i :| 0 <= i < |codings| && name == ToLower(codings[i].name);
        assert all[i] == codings[i];
      }
    }
  }

  lemma {:induction false} CollectCodings(codings: seq<Coding>, elements: seq<Option<(string, bool)>>)
    requires |elements| == |codings| && DistinctNames(codings)
    requires forall i | 0 <= i < |codings| :: elements[i] == Some((ToLower(codings[i].name), ReadAs(codings[i])))
    ensures Agrees(Collect(elements), codings)
  {
    if |elements| > 0 {
      var n := |elements| - 1;
      CollectCodings(codings[..n], elements[..n]);
      assert codings == codings[..n] + [codings[n]];
      OneMoreCoding(Collect(elements[..n]), codings[..n], codings[n]);
    }
  }

  // accepted says of every coding what its weight means.
  ghost predicate ReadRight(accepted: map<string, bool>, codings: seq<Coding>) {
    forall i | 0 <= i < |codings| :: RightFor(accepted, codings[i])
  }

  predicate RightFor(accepted: map<string, bool>, c: Coding) {
    ToLower(c.name) in accepted && accepted[ToLower(c.name)] == Acceptable(c)
  }

  lemma RightWhenSeen(accepted: map<string, bool>, c: Coding)
    requires Holds(accepted, c)
    ensures RightFor(accepted, c) <==> Seen(c)
  {
  }

  lemma AgreesIsRight(accepted: map<string, bool>, codings: seq<Coding>)
    requires Agrees(accepted, codings)
    ensures ReadRight(accepted, codings) <==> forall i | 0 <= i < |codings| :: Seen(codings[i])
  {
    forall i | 0 <= i < |codings| ensures RightFor(accepted, codings[i]) <==> Seen(codings[i]) {
      assert Holds(accepted, codings[i]);
      RightWhenSeen(accepted, codings[i]);
    }
  }

  lemma HeaderAgrees(codings: seq<Coding>, positive: Positive)
    requires |codings| > 0 && (forall c | c in codings :: IsCoding(c)) && DistinctNames(codings)
    requires ReadsQvalues(positive)
    ensures Agrees(ReadAll(Render(codings), positive), codings)
  {
    SplitRendered(codings);
    var parts := Split(Render(codings), ',');
    var elements := seq(|parts|, i requires 0 <= i < |parts| => ReadElement(parts[i], positive));
    forall i | 0 <= i < |codings| ensures elements[i] == Some((ToLower(codings[i].name), ReadAs(codings[i]))) {
      ReadCoding(codings[i], positive);
    }
    CollectCodings(codings, elements);
  }

  // A well-formed header is read exactly: its codings and no others, each accepted as its weight says,
  // if and only if no coding is refused with a capital Q.
  lemma HeaderRead(codings: seq<Coding>, positive: Positive)
    requires |codings| > 0 && (forall c | c in codings :: IsCoding(c)) && DistinctNames(codings)
    requires ReadsQvalues(positive)
    ensures forall name | name in ReadAll(Render(codings), positive) :: Named(codings, name)
    ensures ReadRight(ReadAll(Render(codings), positive), codings) <==>
            forall i | 0 <= i < |codings| :: Seen(codings[i])
  {
    HeaderAgrees(codings, positive);
    AgreesIsRight(ReadAll(Render(codings), positive), codings);
  }

  // The weight is written with a small q, or does not refuse.
  predicate Seen(c: Coding) {
    c.weight.Some? && c.weight.value.letter == 'Q' ==> IsPositive(c.weight.value.q)
  }

  // "br;Q=0" refuses Brotli, and is read as accepting it.
  lemma CapitalQIsMissed(positive: Positive)
    requires ReadsQvalues(positive)
    ensures var br := Coding("", "br", Some(Weight("", "", 'Q', "0")), "");
            && IsCoding(br) && Render([br]) == "br;Q=0" && !Acceptable(br)
            && ReadElement("br;Q=0", positive) == Some(("br", true))
  {
    var br := Coding("", "br", Some(Weight("", "", 'Q', "0")), "");
    assert ['Q'] + ("=" + "0") == "Q=0";
    assert "" + (";" + ("" + "Q=0")) == ";Q=0";
    assert RenderWeight(br.weight) == ";Q=0";
    assert "" + ("br" + (";Q=0" + "")) == "br;Q=0";
    ReadCoding(br, positive);
    assert ToLower("br") == "br";
  }

  // ---- The variant served ----

  datatype Encoding = Encoding(token: string, ext: string)

  const ENCODINGS: seq<Encoding> := [Encoding("br", ".br"), Encoding("gzip", ".gz")]

  predicate Usable(accepted: map<string, bool>, files: set<string>, name: string, e: Encoding) {
    e.token in accepted && accepted[e.token] && name + e.ext in files
  }

  // The file to send and its Content-Encoding: Brotli if it can be used, else gzip, else the plain file.
  predicate Chosen(accepted: map<string, bool>, files: set<string>, name: string, file: string, enc: string) {
    if Usable(accepted, files, name, ENCODINGS[0]) then file == name + ".br" && enc == "br"
    else if Usable(accepted, files, name, ENCODINGS[1]) then file == name + ".gz" && enc == "gzip"
    else file == name && enc == ""
  }

  method ChooseVariant(accepted: map<string, bool>, files: set<string>, name: string)
    returns (file: string, enc: string)
    ensures Chosen(accepted, files, name, file, enc)
  {
    file, enc := name, "";
    for i := 0 to |ENCODINGS|
      invariant forall k | 0 <= k < i :: !Usable(accepted, files, name, ENCODINGS[k])
      invariant file == name && enc == ""
    {
      var e := ENCODINGS[i];
      if e.token in accepted && accepted[e.token] && name + e.ext in files {
        return name + e.ext, e.token;
      }
    }
  }

  const COMPRESSIBLE :=
    {".js", ".mjs", ".css", ".html", ".svg", ".json", ".map", ".txt", ".xml", ".webmanifest"}

  // path.Ext of the first n characters: from the last dot on, if no slash follows it.
  function Ext(name: string, n: nat): string
    requires n <= |name|
  {
    if n == 0 || name[n - 1] == '/' then ""
    else if name[n - 1] == '.' then name[n - 1..]
    else Ext(name, n - 1)
  }

  predicate Compressible(name: string) {
    ToLower(Ext(name, |name|)) in COMPRESSIBLE
  }

  // An extension as written at the end of a name: a dot, and neither a dot nor a slash after it.
  predicate IsExtension(ext: string) {
    |ext| > 0 && ext[0] == '.' && forall i | 0 < i < |ext| :: ext[i] != '.' && ext[i] != '/'
  }

  // No dot in the last element of the path.
  predicate NoExtension(name: string) {
    forall i | 0 <= i < |name| && name[i] == '.' :: exists j | i < j < |name| :: name[j] == '/'
  }

  lemma {:induction false} ExtensionIs(stem: string, ext: string, n: nat)
    requires IsExtension(ext) && |stem| < n <= |stem + ext|
    ensures Ext(stem + ext, n) == ext
    decreases n
  {
    var name := stem + ext;
    assert name[n - 1] == ext[n - 1 - |stem|];
    if n - 1 == |stem| {
      assert name[n - 1..] == ext;
    } else {
      ExtensionIs(stem, ext, n - 1);
    }
  }

  lemma {:induction false} NoExtensionIs(name: string, n: nat)
    requires n <= |name| && NoExtension(name) && forall j | n <= j < |name| :: name[j] != '/'
    ensures Ext(name, n) == ""
  {
    if n > 0 && name[n - 1] != '/' {
      NoExtensionIs(name, n - 1);
    }
  }

  // The names that are compressed: those with one of ten extensions, in any case.
  lemma CompressibleNames(stem: string, ext: string)
    ensures IsExtension(ext) ==>
              (Compressible(stem + ext) <==>
                 ToLower(ext) in {".js", ".mjs", ".css", ".html", ".svg", ".json", ".map", ".txt", ".xml",
                                  ".webmanifest"})
    ensures NoExtension(stem) ==> !Compressible(stem)
  {
    if IsExtension(ext) {
      ExtensionIs(stem, ext, |stem + ext|);
    }
    if NoExtension(stem) {
      NoExtensionIs(stem, |stem|);
      assert ToLower("") == "";
    }
  }

  // Every name is of one of the two kinds.
  lemma {:induction false} ExtensionOrNot(name: string)
    ensures NoExtension(name) || exists stem, ext :: IsExtension(ext) && name == stem + ext
    decreases |name|
  {
    if |name| > 0 {
      var init, c := name[..|name| - 1], name[|name| - 1];
      assert name == init + [c];
      if c == '.' {
        assert IsExtension([c]);
      } else if c != '/' {
        ExtensionOrNot(init);
        if NoExtension(init) {
          assert forall i | 0 <= i < |init| :: name[i] == init[i];
        } else {
          var stem, ext :| IsExtension(ext) && init == stem + ext;
          assert name == stem + (ext + [c]) && IsExtension(ext + [c]);
        }
      } else {
        assert name[|name| - 1] == '/';
      }
    }
  }

  method Serve(header: string, positive: Positive, files: set<string>, name: string)
    returns (file: string, enc: string)
    ensures Compressible(name) ==> Chosen(ReadAll(header, positive), files, name, file, enc)
    ensures !Compressible(name) ==> file == name && enc == ""
    ensures name in files ==> file in files
  {
    file, enc := name, "";
    if ToLower(Ext(name, |name|)) in COMPRESSIBLE {
      var accepted := AcceptedEncodings(header, positive);
      file, enc := ChooseVariant(accepted, files, name);
    }
  }

  // ---- What is served for a header, by its weights ----

  // The header that names these codings, empty if there are none.
  function Header(codings: seq<Coding>): string {
    if |codings| == 0 then "" else Render(codings)
  }

  // The coding is named, and not refused.
  ghost predicate Wants(codings: seq<Coding>, token: string) {
    exists i | 0 <= i < |codings| :: ToLower(codings[i].name) == token && Acceptable(codings[i])
  }

  // The coding is refused, with a capital Q.
  ghost predicate Misread(codings: seq<Coding>, token: string) {
    exists i | 0 <= i < |codings| :: ToLower(codings[i].name) == token && !Seen(codings[i])
  }

  // The file that the weights ask for.
  ghost predicate ByWeights(codings: seq<Coding>, files: set<string>, name: string, file: string, enc: string) {
    if Wants(codings, "br") && name + ".br" in files then file == name + ".br" && enc == "br"
    else if Wants(codings, "gzip") && name + ".gz" in files then file == name + ".gz" && enc == "gzip"
    else file == name && enc == ""
  }

  lemma AcceptedByWeights(codings: seq<Coding>, positive: Positive, token: string)
    requires (forall c | c in codings :: IsCoding(c)) && DistinctNames(codings) && ReadsQvalues(positive)
    ensures var accepted := ReadAll(Header(codings), positive);
            token in accepted && accepted[token] <==> Wants(codings, token) || Misread(codings, token)
    ensures !(Wants(codings, token) && Misread(codings, token))
  {
    var accepted := ReadAll(Header(codings), positive);
    if |codings| == 0 {
      NothingAccepted(positive);
    } else {
      HeaderAgrees(codings, positive);
      assert token in accepted ==> Named(codings, token);
      if i :| 0 <= i < |codings| && ToLower(codings[i].name) == token {
        assert Holds(accepted, codings[i]);
      }
    }
  }

  lemma NothingAccepted(positive: Positive)
    ensures ReadAll("", positive) == map[]
  {
    assert Split("", ',') == [""];
    assert TrimSpace("") == "";
    assert ReadElement("", positive) == None;
    var elements := seq(1, i requires 0 <= i < 1 => ReadElement(Split("", ',')[i], positive));
    assert elements == [None];
    assert Collect(elements[..0]) == map[];
  }

  // For every header as RFC 9110 writes it, the file served is the one its weights ask for, if and only if no
  // coding that is refused with a capital Q has a file that is looked for before an acceptable one is found.
  lemma ServedByWeightsIff(
      codings: seq<Coding>, positive: Positive, files: set<string>, name: string, file: string, enc: string)
    requires (forall c | c in codings :: IsCoding(c)) && DistinctNames(codings) && ReadsQvalues(positive)
    requires Chosen(ReadAll(Header(codings), positive), files, name, file, enc)
    ensures ByWeights(codings, files, name, file, enc) <==>
            && !(Misread(codings, "br") && name + ".br" in files)
            && !(Misread(codings, "gzip") && name + ".gz" in files && !(Wants(codings, "br") && name + ".br" in files))
  {
    AcceptedByWeights(codings, positive, "br");
    AcceptedByWeights(codings, positive, "gzip");
    assert name + ".br" != name + ".gz" by {
      assert (name + ".br")[|name| + 1] == 'b' && (name + ".gz")[|name| + 1] == 'g';
    }
    assert |name + ".br"| > |name| && |name + ".gz"| > |name|;
  }
}

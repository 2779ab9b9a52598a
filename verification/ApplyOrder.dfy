// Two managers who each apply a patch to one spec, by force, one after the other.
module ApplyOrder {
  import opened Documents
  import opened FieldPaths
  import opened FlatFields
  import opened ServerApply
  import opened Wrappers

  // What the server stores of merged fields, null being left out.
  function Stored(flat: Flat): Flat {
    map s | s in flat && !flat[s].Null? :: flat[s]
  }

  // second is merged into what first left, under the ownership that first recorded.
  ghost predicate InTurn(first: SsaMerge, merged: Flat, second: SsaMerge, last: Flat) {
    && first.IsMerged(merged)
    && second.current == Stored(merged)
    && (forall f :: f in second.owners <==> first.OwnsAfter(f, merged))
    && second.IsMerged(last)
  }

  // Two managers set out from the same spec and record, and what they send lies on different lines.
  ghost predicate SideBySide(a: SsaMerge, b: SsaMerge) {
    && a.current == b.current && a.owners == b.owners && a.manager != b.manager
    && PathsApart(a.current) && PathsApart(a.sent) && PathsApart(b.sent)
    && forall p, q | p in a.sent && q in b.sent :: !Overlaps(p, q)
  }

  // The apply of b again, but after another one.
  predicate SameApply(b: SsaMerge, later: SsaMerge) {
    later.sent == b.sent && later.manager == b.manager
  }

  ghost predicate SentOn(a: SsaMerge, b: SsaMerge, s: string) {
    a.Sends(s, a.sent.Keys) || b.Sends(s, b.sent.Keys)
  }

  predicate Claims(m: SsaMerge, s: string) {
    exists i | 0 <= i < |m.owners| :: m.owners[i].manager == m.manager && m.owners[i].path == s
  }

  predicate ThirdClaims(a: SsaMerge, b: SsaMerge, s: string) {
    exists i | 0 <= i < |a.owners| ::
      a.owners[i].manager != a.manager && a.owners[i].manager != b.manager && a.owners[i].path == s
  }

  // a drops the field, or it is left to b to drop it.
  ghost predicate Gone(a: SsaMerge, b: SsaMerge, s: string) {
    a.Drops(s, |a.owners|) || (Claims(b, s) && !ThirdClaims(a, b, s))
  }

  function Sent(a: SsaMerge, b: SsaMerge, s: string): Option<Value> {
    if s in a.sent then Present(Some(a.sent[s])) else if s in b.sent then Present(Some(b.sent[s])) else None
  }

  // A claim that b holds on a field that a's apply leaves alone is on record after it.
  lemma ClaimStays(a: SsaMerge, b: SsaMerge, merged: Flat, later: SsaMerge, s: string, i: nat)
    requires SideBySide(a, b) && SameApply(b, later) && a.IsMerged(merged)
    requires forall f :: f in later.owners <==> a.OwnsAfter(f, merged)
    requires i < |a.owners| && a.owners[i].manager != a.manager && a.owners[i].path == s
    requires s in a.current && !a.Sends(s, a.sent.Keys) && !a.Drops(s, |a.owners|)
    ensures a.owners[i] in later.owners && s in merged
  {
    assert Lookup(merged, s) == a.MergedAt(s, |a.owners|, a.sent.Keys);
    assert s in a.sent ==> Overlaps(s, s);
    forall p | p in a.sent ensures !Overlaps(p, s) {
      assert Overlaps(p, s) ==> Overlaps(s, p);
    }
    assert a.OwnsAfter(a.owners[i], merged);
  }

  // Among the fields nobody sends, b drops after a exactly what b claims and no third manager does.
  lemma LaterDrops(a: SsaMerge, b: SsaMerge, merged: Flat, later: SsaMerge, last: Flat, s: string)
    requires SideBySide(a, b) && SameApply(b, later) && InTurn(a, merged, later, last)
    requires s in a.current && !SentOn(a, b, s) && !a.Drops(s, |a.owners|)
    ensures later.Drops(s, |later.owners|) <==> Claims(b, s) && !ThirdClaims(a, b, s)
  {
    if Claims(b, s) && !ThirdClaims(a, b, s) {
      var i :| 0 <= i < |b.owners| && b.owners[i].manager == b.manager && b.owners[i].path == s;
      ClaimStays(a, b, merged, later, s, i);
      var j :| 0 <= j < |later.owners| && later.owners[j] == b.owners[i];
      assert s in b.sent ==> Overlaps(s, s);
      assert s in a.sent ==> Overlaps(s, s);
      forall k | 0 <= k < |later.owners| && later.owners[k].path == s ensures later.owners[k].manager == b.manager {
        assert later.owners[k] in later.owners;
        assert a.OwnsAfter(later.owners[k], merged);
      }
      assert later.Dropped(later.owners[j]) && Overlaps(s, later.owners[j].path);
    }
    if later.Drops(s, |later.owners|) {
      var j :| 0 <= j < |later.owners| && later.Dropped(later.owners[j]) && Overlaps(s, later.owners[j].path);
      LaterDropIsClaimed(a, b, merged, later, last, s, j);
    }
  }

  lemma LaterDropIsClaimed(a: SsaMerge, b: SsaMerge, merged: Flat, later: SsaMerge, last: Flat, s: string, j: nat)
    requires SideBySide(a, b) && SameApply(b, later) && InTurn(a, merged, later, last)
    requires s in a.current && !SentOn(a, b, s) && !a.Drops(s, |a.owners|)
    requires j < |later.owners| && later.Dropped(later.owners[j]) && Overlaps(s, later.owners[j].path)
    ensures Claims(b, s) && !ThirdClaims(a, b, s)
  {
    var o := later.owners[j];
    assert o in later.owners && a.OwnsAfter(o, merged);
    assert Lookup(merged, o.path) == a.MergedAt(o.path, |a.owners|, a.sent.Keys);
    assert o.path !in a.sent;
    assert o.path in a.current && o.path == s;
    forall i | 0 <= i < |a.owners| && a.owners[i].path == s
      ensures a.owners[i].manager == a.manager || a.owners[i].manager == b.manager
    {
      if a.owners[i].manager != a.manager && a.owners[i].manager != b.manager {
        ClaimStays(a, b, merged, later, s, i);
        assert later.OwnedByOther(s);
      }
    }
  }

  // A field that a sent is not dropped by b's later apply.
  lemma SentStays(a: SsaMerge, b: SsaMerge, merged: Flat, later: SsaMerge, last: Flat, s: string)
    requires SideBySide(a, b) && SameApply(b, later) && InTurn(a, merged, later, last) && s in a.sent
    ensures !later.Drops(s, |later.owners|)
  {
    forall j | 0 <= j < |later.owners| && Overlaps(s, later.owners[j].path) ensures !later.Dropped(later.owners[j]) {
      var o := later.owners[j];
      assert o in later.owners && a.OwnsAfter(o, merged);
      if o.manager == b.manager {
        assert o.path == s && s in merged;
        assert Lookup(merged, s) == a.MergedAt(s, |a.owners|, a.sent.Keys);
        var claim := ManagedField(s, a.manager);
        assert a.OwnsAfter(claim, merged) && claim in later.owners;
      }
    }
  }

  // What is stored in the end, for a before b.
  lemma InTurnAt(a: SsaMerge, b: SsaMerge, merged: Flat, later: SsaMerge, last: Flat, s: string)
    requires SideBySide(a, b) && SameApply(b, later) && InTurn(a, merged, later, last)
    ensures Lookup(Stored(last), s) ==
            if SentOn(a, b, s) then Sent(a, b, s)
            else if Gone(a, b, s) then None
            else Present(Lookup(a.current, s))
  {
    assert Lookup(last, s) == later.MergedAt(s, |later.owners|, later.sent.Keys);
    assert Lookup(merged, s) == a.MergedAt(s, |a.owners|, a.sent.Keys);
    assert s in a.sent || s in b.sent ==> Overlaps(s, s);
    if s in a.sent {
      SentStays(a, b, merged, later, last, s);
      assert !b.Sends(s, b.sent.Keys);
    } else if !SentOn(a, b, s) && s in a.current && !a.Drops(s, |a.owners|) {
      LaterDrops(a, b, merged, later, last, s);
    }
  }

  // ---- When the order does not matter ----

  // A claim on a field that is not there, that its manager would drop, lies on the line of s.
  ghost predicate StaleOn(m: SsaMerge, s: string) {
    exists i | 0 <= i < |m.owners| ::
      m.Dropped(m.owners[i]) && m.owners[i].path !in m.current && Overlaps(s, m.owners[i].path)
  }

  // s is stored, nobody sends anything on its line, and it is not a field that both applies together give up.
  ghost predicate Bystander(a: SsaMerge, b: SsaMerge, s: string) {
    && s in a.current && !a.current[s].Null? && !SentOn(a, b, s)
    && !((Claims(a, s) || Claims(b, s)) && !ThirdClaims(a, b, s))
  }

  ghost predicate StaleAlike(a: SsaMerge, b: SsaMerge) {
    forall s | Bystander(a, b, s) :: StaleOn(a, s) <==> StaleOn(b, s)
  }

  lemma GoneAlike(a: SsaMerge, b: SsaMerge, s: string)
    requires SideBySide(a, b) && s in a.current && !a.current[s].Null? && !SentOn(a, b, s)
    ensures Bystander(a, b, s) ==> (Gone(a, b, s) <==> StaleOn(a, s))
    ensures !Bystander(a, b, s) ==> Gone(a, b, s)
  {
    assert s in a.sent ==> Overlaps(s, s);
    if Bystander(a, b, s) {
      if a.Drops(s, |a.owners|) {
        var i :| 0 <= i < |a.owners| && a.Dropped(a.owners[i]) && Overlaps(s, a.owners[i].path);
        assert a.owners[i].path == s ==> Claims(a, s);
      }
    } else if !Claims(b, s) {
      var i :| 0 <= i < |a.owners| && a.owners[i].manager == a.manager && a.owners[i].path == s;
      assert a.Dropped(a.owners[i]) && Overlaps(s, a.owners[i].path);
    }
  }

  lemma ThirdClaimsBoth(a: SsaMerge, b: SsaMerge, s: string)
    requires SideBySide(a, b)
    ensures ThirdClaims(a, b, s) <==> ThirdClaims(b, a, s)
    ensures SentOn(a, b, s) <==> SentOn(b, a, s)
    ensures SentOn(a, b, s) ==> Sent(a, b, s) == Sent(b, a, s)
  {
    assert s in a.sent && s in b.sent ==> Overlaps(s, s);
  }

  // Two forced applies by different managers that send nothing on one line leave the same spec in either
  // order if and only if no stored field that neither sends nor gives up lies on the line of a stale claim
  // of just one of them. ab is b's apply after a's, ba is a's after b's.
  lemma OrderDoesNotMatterIff(
      a: SsaMerge, b: SsaMerge, mergedA: Flat, ab: SsaMerge, lastAB: Flat, mergedB: Flat, ba: SsaMerge, lastBA: Flat)
    requires SideBySide(a, b)
    requires SameApply(b, ab) && InTurn(a, mergedA, ab, lastAB)
    requires SameApply(a, ba) && InTurn(b, mergedB, ba, lastBA)
    ensures Stored(lastAB) == Stored(lastBA) <==> StaleAlike(a, b)
  {
    forall s
      ensures !Bystander(a, b, s) ==> Lookup(Stored(lastAB), s) == Lookup(Stored(lastBA), s)
      ensures Bystander(a, b, s) ==>
                (Lookup(Stored(lastAB), s) == Lookup(Stored(lastBA), s) <==> (StaleOn(a, s) <==> StaleOn(b, s)))
    {
      InTurnAt(a, b, mergedA, ab, lastAB, s);
      InTurnAt(b, a, mergedB, ba, lastBA, s);
      ThirdClaimsBoth(a, b, s);
      if s in a.current && !a.current[s].Null? && !SentOn(a, b, s) {
        GoneAlike(a, b, s);
        GoneAlike(b, a, s);
      }
    }
    if StaleAlike(a, b) {
      SameLookups(Stored(lastAB), Stored(lastBA));
    }
  }

  lemma SameLookups(x: Flat, y: Flat)
    requires forall s :: Lookup(x, s) == Lookup(y, s)
    ensures x == y
  {
    forall s ensures s in x <==> s in y {
      assert Lookup(x, s) == Lookup(y, s);
    }
    forall s | s in x ensures x[s] == y[s] {
      assert Lookup(x, s) == Lookup(y, s);
    }
  }

  // So it is whenever every field on record is there, as it is after any apply to a spec without null.
  lemma LiveClaimsCommute(
      a: SsaMerge, b: SsaMerge, mergedA: Flat, ab: SsaMerge, lastAB: Flat, mergedB: Flat, ba: SsaMerge, lastBA: Flat)
    requires SideBySide(a, b)
    requires SameApply(b, ab) && InTurn(a, mergedA, ab, lastAB)
    requires SameApply(a, ba) && InTurn(b, mergedB, ba, lastBA)
    requires forall f | f in a.owners :: f.path in a.current
    ensures Stored(lastAB) == Stored(lastBA)
  {
    OrderDoesNotMatterIff(a, b, mergedA, ab, lastAB, mergedB, ba, lastBA);
  }

  // ---- A record for which the order matters ----

  // What an apply leaves, and a record of it.
  lemma Outcome(m: SsaMerge) returns (merged: Flat)
    ensures m.IsMerged(merged)
  {
    merged := map s | s in m.current.Keys + m.sent.Keys && m.MergedAt(s, |m.owners|, m.sent.Keys).Some? ::
      m.MergedAt(s, |m.owners|, m.sent.Keys).value;
  }

  lemma {:induction false} KeptOf(m: SsaMerge, merged: Flat, n: nat) returns (kept: seq<ManagedField>)
    requires n <= |m.owners|
    ensures forall f :: f in kept <==> m.KeptAmong(f, merged, n)
    decreases n
  {
    kept := [];
    if n > 0 {
      kept := KeptOf(m, merged, n - 1);
      var o := m.owners[n - 1];
      if o.manager != m.manager && m.KeepOther(o, merged) {
        kept := kept + [o];
      }
    }
  }

  lemma {:induction false} ClaimsOf(m: SsaMerge, paths: set<string>) returns (claims: seq<ManagedField>)
    requires paths <= m.sent.Keys
    ensures forall f :: f in claims <==> f.manager == m.manager && f.path in paths && !m.sent[f.path].Null?
    decreases paths
  {
    claims := [];
    if p :| p in paths {
      claims := ClaimsOf(m, paths - {p});
      if !m.sent[p].Null? {
        claims := claims + [ManagedField(p, m.manager)];
      }
    }
  }

  // The apply of b to what a left.
  lemma After(a: SsaMerge, b: SsaMerge) returns (merged: Flat, later: SsaMerge, last: Flat)
    ensures SameApply(b, later) && InTurn(a, merged, later, last)
  {
    merged := Outcome(a);
    var kept := KeptOf(a, merged, |a.owners|);
    var claims := ClaimsOf(a, a.sent.Keys);
    later := SsaMerge(b.json, Stored(merged), b.sent, kept + claims, b.manager, b.force);
    last := Outcome(later);
  }

  // An image is applied by one manager and a port by another; the first has a claim on record for the
  // environment as a whole, which by now is stored as single variables.
  function StaleApply(json: JsonForm, value: Value, path: string, manager: string): SsaMerge {
    SsaMerge(json, map["/spec/env/KEY" := value], map[path := value], [ManagedField("/spec/env", "a")], manager, true)
  }

  lemma StaleLines()
    ensures "/spec/env/KEY" != "/spec/image" && "/spec/env/KEY" != "/spec/port" && "/spec/image" != "/spec/port"
    ensures Overlaps("/spec/env/KEY", "/spec/env") && !Overlaps("/spec/image", "/spec/port")
    ensures !Overlaps("/spec/env/KEY", "/spec/image") && !Overlaps("/spec/env/KEY", "/spec/port")
  {
    assert "/spec/env" + "/" <= "/spec/env/KEY";
    assert "/spec/image"[6] == 'i' && "/spec/port"[6] == 'p' && "/spec/env/KEY"[6] == 'e';
  }

  lemma VariableGoes(json: JsonForm, value: Value, merged: Flat, later: SsaMerge, last: Flat, s: string)
    requires !value.Null?
    requires var a, b := StaleApply(json, value, "/spec/image", "a"), StaleApply(json, value, "/spec/port", "b");
             SameApply(b, later) && InTurn(a, merged, later, last)
    ensures Lookup(Stored(last), s) == if s == "/spec/image" || s == "/spec/port" then Some(value) else None
  {
    var a, b := StaleApply(json, value, "/spec/image", "a"), StaleApply(json, value, "/spec/port", "b");
    StaleLines();
    assert SideBySide(a, b);
    InTurnAt(a, b, merged, later, last, s);
    assert a.Dropped(a.owners[0]);
    assert s == "/spec/image" ==> SentOn(a, b, s);
    assert s == "/spec/port" ==> SentOn(a, b, s);
    if s == "/spec/env/KEY" {
      assert a.Drops(s, |a.owners|);
    }
  }

  lemma VariableStays(json: JsonForm, value: Value, merged: Flat, later: SsaMerge, last: Flat, s: string)
    requires !value.Null?
    requires var a, b := StaleApply(json, value, "/spec/image", "a"), StaleApply(json, value, "/spec/port", "b");
             SameApply(a, later) && InTurn(b, merged, later, last)
    ensures Lookup(Stored(last), s) ==
            if s == "/spec/image" || s == "/spec/port" || s == "/spec/env/KEY" then Some(value) else None
  {
    var a, b := StaleApply(json, value, "/spec/image", "a"), StaleApply(json, value, "/spec/port", "b");
    StaleLines();
    assert SideBySide(b, a);
    InTurnAt(b, a, merged, later, last, s);
    assert s == "/spec/image" ==> SentOn(b, a, s);
    assert s == "/spec/port" ==> SentOn(b, a, s);
  }

  lemma WithoutVariable(json: JsonForm, value: Value, merged: Flat, later: SsaMerge, last: Flat)
    requires !value.Null?
    requires var a, b := StaleApply(json, value, "/spec/image", "a"), StaleApply(json, value, "/spec/port", "b");
             SameApply(b, later) && InTurn(a, merged, later, last)
    ensures Stored(last) == map["/spec/image" := value, "/spec/port" := value]
  {
    var stored := map["/spec/image" := value, "/spec/port" := value];
    forall s ensures Lookup(Stored(last), s) == Lookup(stored, s) {
      VariableGoes(json, value, merged, later, last, s);
    }
    SameLookups(Stored(last), stored);
  }

  lemma WithVariable(json: JsonForm, value: Value, merged: Flat, later: SsaMerge, last: Flat)
    requires !value.Null?
    requires var a, b := StaleApply(json, value, "/spec/image", "a"), StaleApply(json, value, "/spec/port", "b");
             SameApply(a, later) && InTurn(b, merged, later, last)
    ensures Stored(last) == map["/spec/image" := value, "/spec/port" := value, "/spec/env/KEY" := value]
  {
    var stored := map["/spec/image" := value, "/spec/port" := value, "/spec/env/KEY" := value];
    forall s ensures Lookup(Stored(last), s) == Lookup(stored, s) {
      VariableStays(json, value, merged, later, last, s);
    }
    SameLookups(Stored(last), stored);
  }

  // If a's apply comes first the variable is removed with the claim. If b's comes first it takes the claim off the
  // record, and the variable stays.
  lemma StaleClaimCounts(json: JsonForm, value: Value)
    returns (mergedA: Flat, ab: SsaMerge, lastAB: Flat, mergedB: Flat, ba: SsaMerge, lastBA: Flat)
    requires !value.Null?
    ensures var a, b := StaleApply(json, value, "/spec/image", "a"), StaleApply(json, value, "/spec/port", "b");
            && SideBySide(a, b)
            && SameApply(b, ab) && InTurn(a, mergedA, ab, lastAB)
            && SameApply(a, ba) && InTurn(b, mergedB, ba, lastBA)
    ensures Stored(lastAB) == map["/spec/image" := value, "/spec/port" := value]
    ensures Stored(lastBA) == map["/spec/image" := value, "/spec/port" := value, "/spec/env/KEY" := value]
    ensures Stored(lastAB) != Stored(lastBA)
  {
    var a, b := StaleApply(json, value, "/spec/image", "a"), StaleApply(json, value, "/spec/port", "b");
    mergedA, ab, lastAB := After(a, b);
    mergedB, ba, lastBA := After(b, a);
    StaleLines();
    WithoutVariable(json, value, mergedA, ab, lastAB);
    WithVariable(json, value, mergedB, ba, lastBA);
    assert "/spec/env/KEY" in Stored(lastBA) && "/spec/env/KEY" !in Stored(lastAB);
  }
}

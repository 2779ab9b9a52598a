// Filling the placeholders from --var, --values, --var-file and the allowlisted environment.
module ResolveVars {
  import opened Strings
  import opened Placeholders
  import opened Wrappers

  predicate ValidEnvKey(k: string) {
    && |k| > 0
    && forall i | 0 <= i < |k| ::
         NameStart(k[i]) || (i > 0 && ('0' <= k[i] <= '9' || k[i] == '.' || k[i] == '-'))
  }

  const CREDENTIAL_NAMES: set<string> := {"GITHUB_TOKEN", "GH_TOKEN", "GITLAB_TOKEN", "NPM_TOKEN", "CI_JOB_TOKEN"}

  const CREDENTIAL_PREFIXES: seq<string> := [
    "AWS_", "AZURE_", "GOOGLE_", "GCP_", "SSH_", "ARM_", "ACTIONS_", "S3_", "DIGITALOCEAN_", "CLOUDFLARE_API_"]

  const CREDENTIAL_WORDS: seq<string> := [
    "TOKEN", "SECRET", "PASSW", "CREDENTIAL", "PRIVATE", "ACCESS_KEY", "API_KEY", "_KEY_ID", "_KEY"]

  predicate LooksLikeCredential(name: string) {
    var up := ToUpper(name);
    || up in CREDENTIAL_NAMES
    || (exists i | 0 <= i < |CREDENTIAL_PREFIXES| :: CREDENTIAL_PREFIXES[i] <= up)
    || (exists i | 0 <= i < |CREDENTIAL_WORDS| :: Contains(up, CREDENTIAL_WORDS[i]))
  }

  // ---- The allowlist ----

  datatype Allowlist = Allowlist(exact: set<string>, prefixes: seq<string>)

  // Why a name is not filled.
  datatype Reason = NoSource | CredentialLike | AllowedButUnset

  predicate WildcardEntry(name: string) {
    |name| > 1 && name[|name| - 1] == '*' && ValidEnvKey(name[..|name| - 1])
  }

  predicate GoodEntry(raw: string) {
    WildcardEntry(TrimSpace(raw)) || ValidEnvKey(TrimSpace(raw))
  }

  function EntrySet(entries: seq<string>): set<string> {
    set raw | raw in entries
  }

  predicate AllGood(entries: set<string>) {
    forall raw | raw in entries :: GoodEntry(raw)
  }

  // The comma-separated entries of all flag values.
  function AllEntries(specs: seq<string>): seq<string> {
    if |specs| == 0 then [] else Split(specs[0], ',') + AllEntries(specs[1..])
  }

  // The values of the flag are read in order, each cut at its commas.
  lemma EntriesAreCut(spec: string, rest: seq<string>) returns (cut: seq<string>)
    ensures AllEntries([]) == [] && AllEntries([spec] + rest) == cut + AllEntries(rest)
    ensures |cut| > 0 && Joined(cut, ',') == spec && forall raw | raw in cut :: ',' !in raw
  {
    cut := Split(spec, ',');
    SplitIs(spec, ',');
    assert ([spec] + rest)[1..] == rest;
  }

  // A name begins with a letter or an underscore, and digits, dots and hyphens may follow; a wildcard is a name and
  // a star.
  lemma EntriesSpelled(name: string)
    ensures ValidEnvKey(name) <==>
              && |name| > 0 && (Lettered(name[0]) || name[0] == '_')
              && forall i | 0 <= i < |name| ::
                   Lettered(name[i]) || '0' <= name[i] <= '9' || name[i] in {'_', '.', '-'}
    ensures WildcardEntry(name) <==> exists prefix :: name == prefix + "*" && ValidEnvKey(prefix)
  {
    if WildcardEntry(name) {
      assert name == name[..|name| - 1] + "*";
    }
    if prefix :| name == prefix + "*" && ValidEnvKey(prefix) {
      assert name[..|name| - 1] == prefix;
    }
  }

  predicate Lettered(c: char) {
    'a' <= c <= 'z' || 'A' <= c <= 'Z'
  }

  // The names that are like a credential: five names, and those that begin with one of ten prefixes or contain one
  // of nine words, in any case.
  lemma CredentialsSpelled(name: string)
    ensures LooksLikeCredential(name) <==>
              var up := ToUpper(name);
              || up in {"GITHUB_TOKEN", "GH_TOKEN", "GITLAB_TOKEN", "NPM_TOKEN", "CI_JOB_TOKEN"}
              || BeginsLikeCredential(up) || ContainsCredentialWord(up)
  {
    PrefixesSpelled(ToUpper(name));
    WordsSpelled(ToUpper(name));
  }

  predicate BeginsLikeCredential(up: string) {
    || "AWS_" <= up || "AZURE_" <= up || "GOOGLE_" <= up || "GCP_" <= up || "SSH_" <= up || "ARM_" <= up
    || "ACTIONS_" <= up || "S3_" <= up || "DIGITALOCEAN_" <= up || "CLOUDFLARE_API_" <= up
  }

  ghost predicate Within(up: string, word: string) {
    exists a, b :: up == a + word + b
  }

  ghost predicate ContainsCredentialWord(up: string) {
    || Within(up, "TOKEN") || Within(up, "SECRET") || Within(up, "PASSW") || Within(up, "CREDENTIAL")
    || Within(up, "PRIVATE") || Within(up, "ACCESS_KEY") || Within(up, "API_KEY") || Within(up, "_KEY_ID")
    || Within(up, "_KEY")
  }

  lemma PrefixesSpelled(up: string)
    ensures BeginsLikeCredential(up) <==> exists i | 0 <= i < |CREDENTIAL_PREFIXES| :: CREDENTIAL_PREFIXES[i] <= up
  {
    var all := CREDENTIAL_PREFIXES;
    assert all[0] == "AWS_" && all[1] == "AZURE_" && all[2] == "GOOGLE_" && all[3] == "GCP_" && all[4] == "SSH_";
    assert all[5] == "ARM_" && all[6] == "ACTIONS_" && all[7] == "S3_" && all[8] == "DIGITALOCEAN_";
    assert all[9] == "CLOUDFLARE_API_" && |all| == 10;
  }

  lemma WordsSpelled(up: string)
    ensures ContainsCredentialWord(up) <==>
              exists i | 0 <= i < |CREDENTIAL_WORDS| :: Contains(up, CREDENTIAL_WORDS[i])
  {
    var all := CREDENTIAL_WORDS;
    assert all[0] == "TOKEN" && all[1] == "SECRET" && all[2] == "PASSW" && all[3] == "CREDENTIAL";
    assert all[4] == "PRIVATE" && all[5] == "ACCESS_KEY" && all[6] == "API_KEY" && all[7] == "_KEY_ID";
    assert all[8] == "_KEY" && |all| == 9;
    forall i | 0 <= i < |all| ensures Contains(up, all[i]) <==> Within(up, all[i]) {
      ContainsIff(up, all[i]);
    }
  }

  function Entries(specs: seq<string>): set<string> {
    EntrySet(AllEntries(specs))
  }

  // al is what the entries say: whole names, and wildcards without their star.
  ghost predicate Reads(al: Allowlist, entries: set<string>) {
    && (forall x | x in al.exact :: exists raw | raw in entries :: x == TrimSpace(raw) && ValidEnvKey(x))
    && (forall x | x in al.prefixes ::
          exists raw | raw in entries :: x + "*" == TrimSpace(raw) && WildcardEntry(x + "*"))
    && (forall raw | raw in entries :: GoodEntry(raw) && Covered(al, TrimSpace(raw)))
  }

  predicate Covered(al: Allowlist, name: string) {
    if WildcardEntry(name) then name[..|name| - 1] in al.prefixes else name in al.exact
  }

  function ReadEntry(al: Allowlist, raw: string): Option<Allowlist> {
    var name := TrimSpace(raw);
    if WildcardEntry(name) then Some(Allowlist(al.exact, al.prefixes + [name[..|name| - 1]]))
    else if ValidEnvKey(name) then Some(Allowlist(al.exact + {name}, al.prefixes))
    else None
  }

  function ReadEntries(al: Allowlist, entries: seq<string>): Option<Allowlist>
    decreases |entries|
  {
    if |entries| == 0 then Some(al)
    else
      var next := ReadEntry(al, entries[0]);
      if next.None? then None else ReadEntries(next.value, entries[1..])
  }

  const NOTHING_ALLOWED := Allowlist({}, [])

  // The entries of one value of the flag, before those in rest.
  method ReadSpec(spec: string, sofar: Allowlist, ghost rest: seq<string>) returns (al: Option<Allowlist>)
    ensures ReadEntries(sofar, Split(spec, ',') + rest) == if al.None? then None else ReadEntries(al.value, rest)
  {
    var entries := Split(spec, ',');
    var now := sofar;
    for j := 0 to |entries|
      invariant ReadEntries(sofar, entries + rest) == ReadEntries(now, entries[j..] + rest)
    {
      assert (entries[j..] + rest)[0] == entries[j] && (entries[j..] + rest)[1..] == entries[j + 1..] + rest;
      var next := ReadEntry(now, entries[j]);
      if next.None? {
        return None;
      }
      now := next.value;
    }
    assert entries[|entries|..] + rest == rest;
    al := Some(now);
  }

  method ParseAllowEnv(specs: seq<string>) returns (al: Option<Allowlist>)
    ensures al == ReadEntries(NOTHING_ALLOWED, AllEntries(specs))
  {
    var sofar := NOTHING_ALLOWED;
    for i := 0 to |specs|
      invariant ReadEntries(NOTHING_ALLOWED, AllEntries(specs)) == ReadEntries(sofar, AllEntries(specs[i..]))
    {
      assert specs[i..][0] == specs[i] && specs[i..][1..] == specs[i + 1..];
      var next := ReadSpec(specs[i], sofar, AllEntries(specs[i + 1..]));
      if next.None? {
        return None;
      }
      sofar := next.value;
    }
    al := Some(sofar);
  }

  lemma OneEntryReads(al: Allowlist, seen: set<string>, raw: string)
    requires Reads(al, seen)
    ensures ReadEntry(al, raw).Some? <==> GoodEntry(raw)
    ensures ReadEntry(al, raw).Some? ==> Reads(ReadEntry(al, raw).value, seen + {raw})
  {
    var name := TrimSpace(raw);
    if WildcardEntry(name) {
      WildcardReads(al, seen, raw);
    } else if ValidEnvKey(name) {
      NameReads(al, seen, raw);
    }
  }

  lemma WildcardReads(al: Allowlist, seen: set<string>, raw: string)
    requires Reads(al, seen) && WildcardEntry(TrimSpace(raw))
    ensures var name := TrimSpace(raw);
            Reads(Allowlist(al.exact, al.prefixes + [name[..|name| - 1]]), seen + {raw})
  {
    var name := TrimSpace(raw);
    var prefix := name[..|name| - 1];
    var prefixes := al.prefixes + [prefix];
    assert prefix + "*" == name;
    assert forall x :: x in prefixes <==> x in al.prefixes || x == prefix;
    forall x | x in prefixes
      ensures exists r | r in seen + {raw} :: x + "*" == TrimSpace(r) && WildcardEntry(x + "*")
    {
      if x in al.prefixes {
        var r :| r in seen && x + "*" == TrimSpace(r) && WildcardEntry(x + "*");
        assert r in seen + {raw};
      } else {
        assert raw in seen + {raw} && x + "*" == TrimSpace(raw);
      }
    }
  }

  lemma NameReads(al: Allowlist, seen: set<string>, raw: string)
    requires Reads(al, seen) && ValidEnvKey(TrimSpace(raw)) && !WildcardEntry(TrimSpace(raw))
    ensures Reads(Allowlist(al.exact + {TrimSpace(raw)}, al.prefixes), seen + {raw})
  {
    var name := TrimSpace(raw);
    forall x | x in al.exact + {name}
      ensures exists r | r in seen + {raw} :: x == TrimSpace(r) && ValidEnvKey(x)
    {
      if x in al.exact {
        var r :| r in seen && x == TrimSpace(r) && ValidEnvKey(x);
        assert r in seen + {raw};
      } else {
        assert raw in seen + {raw};
      }
    }
    forall x | x in al.prefixes
      ensures exists r | r in seen + {raw} :: x + "*" == TrimSpace(r) && WildcardEntry(x + "*")
    {
      var r :| r in seen && x + "*" == TrimSpace(r) && WildcardEntry(x + "*");
      assert r in seen + {raw};
    }
  }

  // The flag is refused exactly when an entry is neither a name nor a wildcard, and otherwise the
  // allowlist says what the entries say.
  lemma {:induction false} EntriesAreRead(al: Allowlist, seen: set<string>, entries: seq<string>)
    requires Reads(al, seen)
    ensures ReadEntries(al, entries).Some? <==> AllGood(EntrySet(entries))
    ensures ReadEntries(al, entries).Some? ==> Reads(ReadEntries(al, entries).value, seen + EntrySet(entries))
    decreases |entries|
  {
    if |entries| == 0 {
      assert seen + EntrySet(entries) == seen;
    } else {
      var raw := entries[0];
      OneEntryReads(al, seen, raw);
      assert EntrySet(entries) == {raw} + EntrySet(entries[1..]);
      if GoodEntry(raw) {
        EntriesAreRead(ReadEntry(al, raw).value, seen + {raw}, entries[1..]);
        assert (seen + {raw}) + EntrySet(entries[1..]) == seen + EntrySet(entries);
      }
    }
  }

  predicate Permitted(al: Allowlist, name: string) {
    || name in al.exact
    || ((exists i | 0 <= i < |al.prefixes| :: al.prefixes[i] <= name) && !LooksLikeCredential(name))
  }

  method Permits(al: Allowlist, name: string) returns (ok: bool, why: Reason)
    ensures ok <==> Permitted(al, name)
    ensures !ok ==> (why == CredentialLike <==> exists i | 0 <= i < |al.prefixes| :: al.prefixes[i] <= name)
    ensures !ok && why != CredentialLike ==> why == NoSource
  {
    if name in al.exact {
      return true, NoSource;
    }
    for i := 0 to |al.prefixes|
      invariant forall k | 0 <= k < i :: !(al.prefixes[k] <= name)
    {
      if al.prefixes[i] <= name {
        if LooksLikeCredential(name) {
          return false, CredentialLike;
        }
        return true, NoSource;
      }
    }
    return false, NoSource;
  }

  // A name that may hold a credential is read from the environment only if a flag names it in full.
  lemma CredentialsAreNamedExactly(specs: seq<string>, al: Allowlist, name: string)
    requires Reads(al, Entries(specs))
    requires Permitted(al, name) && LooksLikeCredential(name)
    ensures exists raw | raw in Entries(specs) :: TrimSpace(raw) == name
  {
    assert name in al.exact;
  }

  // ---- Values files ----

  datatype RawValue = Plain(text: string) | Nested

  predicate GoodValue(k: string, v: RawValue) {
    ValidEnvKey(k) && !LooksLikeCredential(k) && v.Plain?
  }

  // The file cannot be read, or has a key that is no name or like a credential, or a value that is not a scalar.
  ghost predicate BadFile(file: Option<map<string, RawValue>>) {
    file.None? || exists k | k in file.value :: !ValidEnvKey(k) || LooksLikeCredential(k) || file.value[k].Nested?
  }

  // None when a key is no name, may hold a credential, or has a value that is not a scalar.
  method ReadValuesFile(raw: map<string, RawValue>) returns (out: Option<map<string, string>>)
    ensures out.Some? <==> forall k | k in raw :: GoodValue(k, raw[k])
    ensures out.Some? ==> out.value == map k | k in raw && raw[k].Plain? :: raw[k].text
    ensures out.None? <==> BadFile(Some(raw))
  {
    var result: map<string, string> := map[];
    var todo := raw.Keys;
    while todo != {}
      invariant todo <= raw.Keys
      invariant forall k | k in raw && k !in todo :: GoodValue(k, raw[k])
      invariant result == map k | k in raw && k !in todo && raw[k].Plain? :: raw[k].text
      decreases todo
    {
      var k :| k in todo;
      todo := todo - {k};
      if !ValidEnvKey(k) || LooksLikeCredential(k) || raw[k].Nested? {
        return None;
      }
      result := result[k := raw[k].text];
    }
    out := Some(result);
  }

  // ---- Resolution ----

  // A file that cannot be read or parsed is None.
  datatype Sources = Sources(
    vars: map<string, string>,
    varFiles: seq<Option<map<string, string>>>,
    values: seq<Option<map<string, RawValue>>>,
    allowEnv: seq<string>)

  datatype Outcome =
    | BadVarFile
    | BadValuesFile
    | BadAllowEnv
    | Unresolved(missing: seq<(string, Reason)>)
    | Resolved(vars: map<string, string>)

  predicate GoodVarFiles(src: Sources) {
    forall i | 0 <= i < |src.varFiles| :: src.varFiles[i].Some?
  }

  predicate GoodValuesFile(file: Option<map<string, RawValue>>) {
    file.Some? && forall k | k in file.value :: GoodValue(k, file.value[k])
  }

  predicate GoodValuesFiles(src: Sources) {
    forall i | 0 <= i < |src.values| :: GoodValuesFile(src.values[i])
  }

  ghost predicate GoodAllowEnv(src: Sources) {
    AllGood(Entries(src.allowEnv))
  }

  // The last of the first n files that has the name.
  function LastVarFile(src: Sources, n: nat, name: string): Option<string>
    requires n <= |src.varFiles|
  {
    if n == 0 then None
    else
      var file := src.varFiles[n - 1];
      if file.Some? && name in file.value then Some(file.value[name]) else LastVarFile(src, n - 1, name)
  }

  function LastValues(src: Sources, n: nat, name: string): Option<string>
    requires n <= |src.values|
  {
    if n == 0 then None
    else
      var file := src.values[n - 1];
      if file.Some? && name in file.value && file.value[name].Plain? then Some(file.value[name].text)
      else LastValues(src, n - 1, name)
  }

  predicate VarFileHas(src: Sources, i: nat, name: string)
    requires i < |src.varFiles|
  {
    src.varFiles[i].Some? && name in src.varFiles[i].value
  }

  predicate ValuesHas(src: Sources, i: nat, name: string)
    requires i < |src.values|
  {
    src.values[i].Some? && name in src.values[i].value && src.values[i].value[name].Plain?
  }

  // ---- What the source promises for one name, highest first ----

  // No flag and no file has the name.
  predicate NotGiven(src: Sources, name: string) {
    && name !in src.vars
    && (forall i | 0 <= i < |src.values| :: !ValuesHas(src, i, name))
    && (forall i | 0 <= i < |src.varFiles| :: !VarFileHas(src, i, name))
  }

  // Named in full, or covered by a wildcard and not like a credential.
  predicate Allowed(al: Allowlist, name: string) {
    name in al.exact || (!LooksLikeCredential(name) && exists p | p in al.prefixes :: p <= name)
  }

  // The value comes from a flag; else from the last values file that has the name; else from the last var file
  // that has it; else from the environment, which may be asked for it.
  ghost predicate Sourced(src: Sources, al: Allowlist, env: map<string, string>, name: string, value: string) {
    && (name in src.vars ==> value == src.vars[name])
    && (name !in src.vars ==>
          forall i | 0 <= i < |src.values| && ValuesHas(src, i, name)
                     && forall j | i < j < |src.values| :: !ValuesHas(src, j, name) ::
            value == src.values[i].value[name].text)
    && (name !in src.vars && (forall i | 0 <= i < |src.values| :: !ValuesHas(src, i, name)) ==>
          forall i | 0 <= i < |src.varFiles| && VarFileHas(src, i, name)
                     && forall j | i < j < |src.varFiles| :: !VarFileHas(src, j, name) ::
            value == src.varFiles[i].value[name])
    && (NotGiven(src, name) ==> Allowed(al, name) && name in env && value == env[name])
  }

  // Why a name has no value: nothing may give it, or only a wildcard covers it and it is like a credential, or it is
  // allowed and not set.
  predicate Explained(src: Sources, al: Allowlist, env: map<string, string>, name: string, why: Reason) {
    && NotGiven(src, name) && name !in (if Allowed(al, name) then env else map[])
    && why == if Allowed(al, name) then AllowedButUnset
              else if exists p | p in al.prefixes :: p <= name then CredentialLike
              else NoSource
  }

  // What the flags and files give a name, highest first.
  function Given(src: Sources, name: string): Option<string> {
    if name in src.vars then Some(src.vars[name])
    else
      var fromValues := LastValues(src, |src.values|, name);
      if fromValues.Some? then fromValues else LastVarFile(src, |src.varFiles|, name)
  }

  function Fill(src: Sources, al: Allowlist, env: map<string, string>, name: string): Option<string> {
    var given := Given(src, name);
    if given.Some? then given
    else if Permitted(al, name) && name in env then Some(env[name])
    else None
  }

  // The environment may be asked for this name.
  predicate Asks(src: Sources, al: Allowlist, name: string) {
    Given(src, name).None? && Permitted(al, name)
  }

  function At(m: map<string, string>, name: string): Option<string> {
    if name in m then Some(m[name]) else None
  }

  method ReadVarFiles(src: Sources) returns (all: Option<map<string, string>>)
    ensures all.Some? <==> GoodVarFiles(src)
    ensures all.Some? ==> forall name :: At(all.value, name) == LastVarFile(src, |src.varFiles|, name)
  {
    var merged: map<string, string> := map[];
    for i := 0 to |src.varFiles|
      invariant forall k | 0 <= k < i :: src.varFiles[k].Some?
      invariant forall name :: At(merged, name) == LastVarFile(src, i, name)
    {
      if src.varFiles[i].None? {
        return None;
      }
      merged := merged + src.varFiles[i].value;
    }
    all := Some(merged);
  }

  method ReadValuesFiles(src: Sources) returns (all: Option<map<string, string>>)
    ensures all.Some? <==> GoodValuesFiles(src)
    ensures all.Some? ==> forall name :: At(all.value, name) == LastValues(src, |src.values|, name)
  {
    var merged: map<string, string> := map[];
    for i := 0 to |src.values|
      invariant forall k | 0 <= k < i :: GoodValuesFile(src.values[k])
      invariant forall name :: At(merged, name) == LastValues(src, i, name)
    {
      if src.values[i].None? {
        return None;
      }
      var m := ReadValuesFile(src.values[i].value);
      if m.None? {
        return None;
      }
      merged := merged + m.value;
    }
    all := Some(merged);
  }

  // Everything that is missing is reported at once, and then nothing is filled. asked lists the names
  // the environment was asked for, in order.
  method Resolve(files: seq<string>, src: Sources, env: map<string, string>)
    returns (out: Outcome, asked: seq<string>, ghost al: Allowlist)
    ensures out.BadVarFile? <==> !GoodVarFiles(src)
    ensures out.BadValuesFile? <==> GoodVarFiles(src) && !GoodValuesFiles(src)
    ensures out.BadVarFile? <==> None in src.varFiles
    ensures out.BadValuesFile? <==> None !in src.varFiles && exists file | file in src.values :: BadFile(file)
    ensures out.BadAllowEnv? <==> GoodVarFiles(src) && GoodValuesFiles(src) && !GoodAllowEnv(src)
    ensures out.Unresolved? || out.Resolved? ==>
              && Reads(al, Entries(src.allowEnv))
              && (out.Resolved? <==> forall name | Occurs(files, name) :: Fill(src, al, env, name).Some?)
              && (forall name :: name in asked <==> Occurs(files, name) && Asks(src, al, name))
    ensures out.Resolved? ==>
              && (forall name :: name in out.vars <==> Occurs(files, name))
              && (forall name | Occurs(files, name) :: At(out.vars, name) == Fill(src, al, env, name))
    ensures out.Resolved? ==> forall name | name in out.vars :: Sourced(src, al, env, name, out.vars[name])
    ensures out.Unresolved? ==>
              && |out.missing| > 0
              && (forall name, why :: (name, why) in out.missing ==> Explained(src, al, env, name, why))
              && (forall name, why :: Occurs(files, name) && Explained(src, al, env, name, why) ==>
                    (name, why) in out.missing)
    ensures out.Unresolved? || out.Resolved? ==>
              forall name :: name in asked <==> Occurs(files, name) && NotGiven(src, name) && Allowed(al, name)
    ensures out.Unresolved? ==>
              && (forall i, j | 0 <= i < j < |out.missing| :: Less(out.missing[i].0, out.missing[j].0))
              && (forall name, why :: (name, why) in out.missing ==>
                    Occurs(files, name) && Fill(src, al, env, name).None?)
              && (forall name :: Occurs(files, name) && Fill(src, al, env, name).None? ==>
                    (name, ReasonFor(al, name)) in out.missing)
  {
    FilesRight(src);
    asked, al := [], NOTHING_ALLOWED;
    var fromFiles := ReadVarFiles(src);
    if fromFiles.None? {
      return BadVarFile, asked, al;
    }
    var fromValues := ReadValuesFiles(src);
    if fromValues.None? {
      return BadValuesFile, asked, al;
    }
    var allow := ParseAllowEnv(src.allowEnv);
    EntriesAreRead(NOTHING_ALLOWED, {}, AllEntries(src.allowEnv));
    assert {} + Entries(src.allowEnv) == Entries(src.allowEnv);
    if allow.None? {
      return BadAllowEnv, asked, al;
    }
    al := allow.value;
    var names := PlaceholderNames(files);
    var vars, missing;
    vars, asked, missing := FillAll(names, src, fromValues.value, fromFiles.value, allow.value, env);
    FilledRight(files, src, al, env, vars, asked);
    MissingRight(files, src, al, env, missing);
    if |missing| > 0 {
      assert missing[0] in missing && (missing[0].0, missing[0].1) in missing;
      out := Unresolved(missing);
    } else {
      out := Resolved(vars);
    }
  }

  lemma FilesRight(src: Sources)
    ensures GoodVarFiles(src) <==> None !in src.varFiles
    ensures GoodValuesFiles(src) <==> forall file | file in src.values :: !BadFile(file)
  {
    if GoodValuesFiles(src) {
      forall file | file in src.values ensures !BadFile(file) {
        var i :| 0 <= i < |src.values| && src.values[i] == file;
        assert GoodValuesFile(src.values[i]);
      }
    }
    if forall file | file in src.values :: !BadFile(file) {
      forall i | 0 <= i < |src.values| ensures GoodValuesFile(src.values[i]) {
        assert src.values[i] in src.values;
      }
    }
  }

  lemma FilledRight(
      files: seq<string>, src: Sources, al: Allowlist, env: map<string, string>, vars: map<string, string>,
      asked: seq<string>)
    requires forall name :: At(vars, name) == if Occurs(files, name) then Fill(src, al, env, name) else None
    requires forall name :: name in asked <==> Occurs(files, name) && Asks(src, al, name)
    ensures forall name | name in vars :: Sourced(src, al, env, name, vars[name])
    ensures forall name :: name in asked <==> Occurs(files, name) && NotGiven(src, name) && Allowed(al, name)
  {
    forall name | name in vars ensures Sourced(src, al, env, name, vars[name]) {
      assert At(vars, name) == Some(vars[name]);
      FillIsSourced(src, al, env, name);
    }
    forall name ensures name in asked <==> Occurs(files, name) && NotGiven(src, name) && Allowed(al, name) {
      GivenOrNot(src, name);
      AllowedIff(al, name);
    }
  }

  lemma MissingRight(
      files: seq<string>, src: Sources, al: Allowlist, env: map<string, string>, missing: seq<(string, Reason)>)
    requires forall name, why :: (name, why) in missing ==> Occurs(files, name) && Fill(src, al, env, name).None?
    requires forall name, why :: (name, why) in missing ==> why == ReasonFor(al, name)
    requires forall name :: Occurs(files, name) && Fill(src, al, env, name).None? ==>
               (name, ReasonFor(al, name)) in missing
    ensures forall name, why :: (name, why) in missing ==> Explained(src, al, env, name, why)
    ensures forall name, why :: Occurs(files, name) && Explained(src, al, env, name, why) ==> (name, why) in missing
  {
    forall name, why
      ensures (name, why) in missing ==> Explained(src, al, env, name, why)
      ensures Occurs(files, name) && Explained(src, al, env, name, why) ==> (name, why) in missing
    {
      ExplainedIff(src, al, env, name, why);
    }
  }

  lemma AllowedIff(al: Allowlist, name: string)
    ensures Allowed(al, name) <==> Permitted(al, name)
    ensures (exists p | p in al.prefixes :: p <= name) <==> Prefixed(al, name)
  {
    if p :| p in al.prefixes && p <= name {
      var i :| 0 <= i < |al.prefixes| && al.prefixes[i] == p;
    }
    if i :| 0 <= i < |al.prefixes| && al.prefixes[i] <= name {
      assert al.prefixes[i] in al.prefixes;
    }
  }

  // The last file that has the name.
  lemma {:induction false} LastValuesIs(src: Sources, n: nat, name: string, i: nat)
    requires i < n <= |src.values| && ValuesHas(src, i, name) && forall j | i < j < n :: !ValuesHas(src, j, name)
    ensures LastValues(src, n, name) == Some(src.values[i].value[name].text)
  {
    assert n - 1 == i || !ValuesHas(src, n - 1, name);
    if i < n - 1 {
      LastValuesIs(src, n - 1, name, i);
    }
  }

  lemma {:induction false} LastVarFileIs(src: Sources, n: nat, name: string, i: nat)
    requires i < n <= |src.varFiles| && VarFileHas(src, i, name) && forall j | i < j < n :: !VarFileHas(src, j, name)
    ensures LastVarFile(src, n, name) == Some(src.varFiles[i].value[name])
  {
    assert n - 1 == i || !VarFileHas(src, n - 1, name);
    if i < n - 1 {
      LastVarFileIs(src, n - 1, name, i);
    }
  }

  lemma {:induction false} NoValues(src: Sources, n: nat, name: string)
    requires n <= |src.values|
    ensures LastValues(src, n, name).None? <==> forall i | 0 <= i < n :: !ValuesHas(src, i, name)
  {
    if n > 0 {
      NoValues(src, n - 1, name);
      assert ValuesHas(src, n - 1, name) ==> LastValues(src, n, name).Some?;
    }
  }

  lemma {:induction false} NoVarFile(src: Sources, n: nat, name: string)
    requires n <= |src.varFiles|
    ensures LastVarFile(src, n, name).None? <==> forall i | 0 <= i < n :: !VarFileHas(src, i, name)
  {
    if n > 0 {
      NoVarFile(src, n - 1, name);
      assert VarFileHas(src, n - 1, name) ==> LastVarFile(src, n, name).Some?;
    }
  }

  lemma GivenOrNot(src: Sources, name: string)
    ensures Given(src, name).None? <==> NotGiven(src, name)
    ensures LastValues(src, |src.values|, name).None? <==> forall i | 0 <= i < |src.values| :: !ValuesHas(src, i, name)
  {
    NoValues(src, |src.values|, name);
    NoVarFile(src, |src.varFiles|, name);
  }

  lemma FillIsSourced(src: Sources, al: Allowlist, env: map<string, string>, name: string)
    requires Fill(src, al, env, name).Some?
    ensures Sourced(src, al, env, name, Fill(src, al, env, name).value)
  {
    GivenOrNot(src, name);
    AllowedIff(al, name);
    forall i | 0 <= i < |src.values| && ValuesHas(src, i, name)
               && forall j | i < j < |src.values| :: !ValuesHas(src, j, name)
      ensures LastValues(src, |src.values|, name) == Some(src.values[i].value[name].text)
    {
      LastValuesIs(src, |src.values|, name, i);
    }
    forall i | 0 <= i < |src.varFiles| && VarFileHas(src, i, name)
               && forall j | i < j < |src.varFiles| :: !VarFileHas(src, j, name)
      ensures LastVarFile(src, |src.varFiles|, name) == Some(src.varFiles[i].value[name])
    {
      LastVarFileIs(src, |src.varFiles|, name, i);
    }
  }

  lemma ExplainedIff(src: Sources, al: Allowlist, env: map<string, string>, name: string, why: Reason)
    ensures Explained(src, al, env, name, why) <==> Fill(src, al, env, name).None? && why == ReasonFor(al, name)
  {
    GivenOrNot(src, name);
    AllowedIff(al, name);
  }

  method FillAll(names: seq<string>, src: Sources, fromValues: map<string, string>, fromFiles: map<string, string>,
                 al: Allowlist, env: map<string, string>)
    returns (vars: map<string, string>, asked: seq<string>, missing: seq<(string, Reason)>)
    requires StrictlySorted(names)
    requires forall name :: At(fromValues, name) == LastValues(src, |src.values|, name)
    requires forall name :: At(fromFiles, name) == LastVarFile(src, |src.varFiles|, name)
    ensures Filled(vars, asked, names, src, al, env)
    ensures MissingAre(missing, names, src, al, env)
  {
    vars, asked, missing := map[], [], [];
    for i := 0 to |names|
      invariant Filled(vars, asked, names[..i], src, al, env)
      invariant MissingAre(missing, names[..i], src, al, env)
    {
      var name := names[i];
      assert names[..i + 1] == names[..i] + [name];
      assert At(fromFiles, name) == LastVarFile(src, |src.varFiles|, name);
      assert At(fromValues, name) == LastValues(src, |src.values|, name);
      var value, asks, why := FillOne(src, fromValues, fromFiles, al, env, name);
      FilledMore(vars, asked, names[..i], src, al, env, name);
      if asks {
        asked := asked + [name];
      }
      if value.Some? {
        vars := vars[name := value.value];
        MissingSame(missing, names[..i], src, al, env, name);
      } else {
        MissingMore(missing, names[..i], src, al, env, name);
        missing := missing + [(name, why)];
      }
    }
    assert names[..|names|] == names;
  }

  // One name: the value, whether the environment was asked for it, and why it has none.
  method FillOne(src: Sources, fromValues: map<string, string>, fromFiles: map<string, string>, al: Allowlist,
                 env: map<string, string>, name: string)
    returns (value: Option<string>, asks: bool, why: Reason)
    requires At(fromValues, name) == LastValues(src, |src.values|, name)
    requires At(fromFiles, name) == LastVarFile(src, |src.varFiles|, name)
    ensures value == Fill(src, al, env, name) && asks == Asks(src, al, name)
    ensures value.None? ==> why == ReasonFor(al, name)
  {
    if name in src.vars {
      return Some(src.vars[name]), false, NoSource;
    }
    if name in fromValues {
      return Some(fromValues[name]), false, NoSource;
    }
    if name in fromFiles {
      return Some(fromFiles[name]), false, NoSource;
    }
    asks, why := Permits(al, name);
    value := None;
    if asks {
      if name in env {
        value := Some(env[name]);
      } else {
        why := AllowedButUnset;
      }
    }
  }

  // vars and asked are what they should be after these names.
  ghost predicate Filled(
      vars: map<string, string>, asked: seq<string>, names: seq<string>,
      src: Sources, al: Allowlist, env: map<string, string>)
  {
    && (forall name :: At(vars, name) == if name in names then Fill(src, al, env, name) else None)
    && (forall name :: name in asked <==> name in names && Asks(src, al, name))
  }

  lemma FilledMore(
      vars: map<string, string>, asked: seq<string>, names: seq<string>,
      src: Sources, al: Allowlist, env: map<string, string>, name: string)
    requires Filled(vars, asked, names, src, al, env)
    ensures var value := Fill(src, al, env, name);
            Filled(if value.Some? then vars[name := value.value] else vars,
                   if Asks(src, al, name) then asked + [name] else asked, names + [name], src, al, env)
  {
    assert forall x :: x in names + [name] <==> x in names || x == name;
    assert forall x :: x in asked + [name] <==> x in asked || x == name;
    assert At(vars, name) == if name in names then Fill(src, al, env, name) else None;
  }

  predicate Prefixed(al: Allowlist, name: string) {
    exists i | 0 <= i < |al.prefixes| :: al.prefixes[i] <= name
  }

  function ReasonFor(al: Allowlist, name: string): Reason {
    if Permitted(al, name) then AllowedButUnset else if Prefixed(al, name) then CredentialLike else NoSource
  }

  // missing lists the unfilled ones among names, in order.
  ghost predicate MissingAre(
      missing: seq<(string, Reason)>, names: seq<string>, src: Sources, al: Allowlist, env: map<string, string>)
  {
    && (forall i, j | 0 <= i < j < |missing| :: Less(missing[i].0, missing[j].0))
    && (forall name, why :: (name, why) in missing ==> name in names && Fill(src, al, env, name).None?)
    && (forall name, why :: (name, why) in missing ==> why == ReasonFor(al, name))
    && (forall name | name in names && Fill(src, al, env, name).None? :: (name, ReasonFor(al, name)) in missing)
  }

  lemma MissingMore(
      missing: seq<(string, Reason)>, names: seq<string>,
      src: Sources, al: Allowlist, env: map<string, string>, name: string)
    requires MissingAre(missing, names, src, al, env) && StrictlySorted(names + [name])
    requires Fill(src, al, env, name).None?
    ensures MissingAre(missing + [(name, ReasonFor(al, name))], names + [name], src, al, env)
  {
    var more := missing + [(name, ReasonFor(al, name))];
    assert forall x :: x in more <==> x in missing || x == (name, ReasonFor(al, name));
    assert forall x :: x in names + [name] <==> x in names || x == name;
    forall i | 0 <= i < |missing| ensures Less(missing[i].0, name) {
      assert (missing[i].0, missing[i].1) in missing;
      var j :| 0 <= j < |names| && names[j] == missing[i].0;
      assert (names + [name])[j] == names[j] && (names + [name])[|names|] == name;
    }
  }

  lemma MissingSame(
      missing: seq<(string, Reason)>, names: seq<string>,
      src: Sources, al: Allowlist, env: map<string, string>, name: string)
    requires MissingAre(missing, names, src, al, env)
    requires Fill(src, al, env, name).Some?
    ensures MissingAre(missing, names + [name], src, al, env)
  {
    assert forall x :: x in names + [name] <==> x in names || x == name;
  }

  // ---- Precedence and reach ----

  // Within a kind the last file that has the name decides.
  lemma {:induction false} LastVarFileWins(src: Sources, n: nat, name: string, v: string)
    requires n <= |src.varFiles|
    ensures LastVarFile(src, n, name) == Some(v) <==>
            exists i | 0 <= i < n ::
              && VarFileHas(src, i, name) && src.varFiles[i].value[name] == v
              && forall j | i < j < n :: !VarFileHas(src, j, name)
  {
    if n > 0 {
      LastVarFileWins(src, n - 1, name, v);
      if VarFileHas(src, n - 1, name) {
        assert LastVarFile(src, n, name) == Some(src.varFiles[n - 1].value[name]);
      }
    }
  }

  lemma {:induction false} LastValuesWins(src: Sources, n: nat, name: string, v: string)
    requires n <= |src.values|
    ensures LastValues(src, n, name) == Some(v) <==>
            exists i | 0 <= i < n ::
              && ValuesHas(src, i, name) && src.values[i].value[name].text == v
              && forall j | i < j < n :: !ValuesHas(src, j, name)
  {
    if n > 0 {
      LastValuesWins(src, n - 1, name, v);
      if ValuesHas(src, n - 1, name) {
        assert LastValues(src, n, name) == Some(src.values[n - 1].value[name].text);
      }
    }
  }

  // Nothing in the environment matters but the names that may be asked for, and a name that may hold a
  // credential is among those only if a flag names it in full.
  lemma OnlyAskedNamesMatter(
      src: Sources, al: Allowlist, env: map<string, string>, env': map<string, string>, name: string)
    requires Reads(al, Entries(src.allowEnv))
    requires Asks(src, al, name) ==> At(env, name) == At(env', name)
    ensures Fill(src, al, env, name) == Fill(src, al, env', name)
    ensures Asks(src, al, name) && LooksLikeCredential(name) ==>
              exists raw | raw in Entries(src.allowEnv) :: TrimSpace(raw) == name
  {
    if Asks(src, al, name) {
      assert At(env, name).Some? <==> name in env;
      assert At(env', name).Some? <==> name in env';
      if LooksLikeCredential(name) {
        CredentialsAreNamedExactly(src.allowEnv, al, name);
      }
    }
  }
}

// Comparing the environments of two apps without reading a secret value.
module EnvDiff {
  import opened Strings

  datatype Entry = Entry(key: string, a: string, b: string, secret: bool)

  datatype Diff = Diff(
    aName: string, bName: string, onlyA: seq<Entry>, onlyB: seq<Entry>, differ: seq<Entry>, same: nat)

  // One app: its plain variables and the names of its secrets.
  datatype App = App(name: string, env: map<string, string>, secrets: seq<string>)

  predicate Has(app: App, k: string) {
    k in app.env || k in app.secrets
  }

  function Plain(app: App, k: string, secret: bool): string {
    if secret || k !in app.env then "" else app.env[k]
  }

  datatype Bucket = OnlyA | OnlyB | Differ | Same

  function BucketOf(a: App, b: App, k: string): Bucket {
    if Has(a, k) && !Has(b, k) then OnlyA
    else if Has(b, k) && !Has(a, k) then OnlyB
    else if (k in a.secrets) != (k in b.secrets) then Differ
    else if k in a.secrets || Plain(a, k, false) == Plain(b, k, false) then Same
    else Differ
  }

  // What is shown for k: its values, unless it is secret on either side, and never both sides of a key
  // that only one app has.
  function EntryOf(a: App, b: App, k: string): Entry {
    var secret := k in a.secrets || k in b.secrets;
    Entry(k, Plain(a, k, secret), Plain(b, k, secret), secret)
  }

  function Select(a: App, b: App, keys: seq<string>, bucket: Bucket): seq<Entry> {
    if |keys| == 0 then []
    else
      var rest := Select(a, b, keys[..|keys| - 1], bucket);
      var k := keys[|keys| - 1];
      if BucketOf(a, b, k) == bucket then rest + [EntryOf(a, b, k)] else rest
  }

  function DiffOver(a: App, b: App, keys: seq<string>): Diff {
    Diff(a.name, b.name, Select(a, b, keys, OnlyA), Select(a, b, keys, OnlyB), Select(a, b, keys, Differ),
         |Select(a, b, keys, Same)|)
  }

  function Put(d: Diff, bucket: Bucket, e: Entry): Diff {
    match bucket
    case OnlyA => d.(onlyA := d.onlyA + [e])
    case OnlyB => d.(onlyB := d.onlyB + [e])
    case Differ => d.(differ := d.differ + [e])
    case Same => d.(same := d.same + 1)
  }

  lemma DiffNext(a: App, b: App, keys: seq<string>, i: nat)
    requires i < |keys|
    ensures DiffOver(a, b, keys[..i + 1]) ==
            Put(DiffOver(a, b, keys[..i]), BucketOf(a, b, keys[i]), EntryOf(a, b, keys[i]))
  {
    assert keys[..i + 1][..i] == keys[..i];
  }

  // The branch the comparison takes for one key.
  method Compare(a: App, b: App, aSec: set<string>, bSec: set<string>, k: string) returns (bucket: Bucket, e: Entry)
    requires aSec == ToSet(a.secrets) && bSec == ToSet(b.secrets) && k in AllKeys(a, b)
    ensures bucket == BucketOf(a, b, k) && e == EntryOf(a, b, k)
  {
    var aHas, bHas := k in a.env || k in aSec, k in b.env || k in bSec;
    var secret := k in aSec || k in bSec;
    if aHas && !bHas {
      return OnlyA, Entry(k, Plain(a, k, secret), "", secret);
    } else if bHas && !aHas {
      return OnlyB, Entry(k, "", Plain(b, k, secret), secret);
    } else if (k in aSec) != (k in bSec) {
      return Differ, Entry(k, "", "", true);
    } else if secret || a.env[k] == b.env[k] {
      return Same, EntryOf(a, b, k);
    } else {
      return Differ, Entry(k, a.env[k], b.env[k], false);
    }
  }

  function AllKeys(a: App, b: App): set<string> {
    a.env.Keys + b.env.Keys + ToSet(a.secrets) + ToSet(b.secrets)
  }

  // ---- What a comparison has to tell ----

  function KeysOf(app: App): set<string> {
    app.env.Keys + set k | k in app.secrets
  }

  ghost predicate Lists(entries: seq<Entry>, k: string) {
    exists e | e in entries :: e.key == k
  }

  // Both apps have the key, and it is secret on one side only, or on neither and the values are different.
  predicate Differs(a: App, b: App, k: string) {
    && k in KeysOf(a) && k in KeysOf(b)
    && if k in a.secrets then k !in b.secrets else k in b.secrets || a.env[k] != b.env[k]
  }

  // The value is that of the app, or withheld.
  predicate Shows(app: App, k: string, value: string, secret: bool) {
    if secret then value == "" else k in app.env && value == app.env[k]
  }

  // What the three lists say of one key.
  ghost predicate TellsOf(d: Diff, a: App, b: App, k: string) {
    && (Lists(d.onlyA, k) <==> k in KeysOf(a) && k !in KeysOf(b))
    && (Lists(d.onlyB, k) <==> k in KeysOf(b) && k !in KeysOf(a))
    && (Lists(d.differ, k) <==> Differs(a, b, k))
  }

  // A key is marked as secret if it is so on either side, and then no value is shown.
  ghost predicate Truthful(d: Diff, a: App, b: App) {
    && (forall e | e in d.onlyA :: e.secret == (e.key in a.secrets) && Shows(a, e.key, e.a, e.secret) && e.b == "")
    && (forall e | e in d.onlyB :: e.secret == (e.key in b.secrets) && Shows(b, e.key, e.b, e.secret) && e.a == "")
    && (forall e | e in d.differ ::
          && e.secret == (e.key in a.secrets || e.key in b.secrets)
          && Shows(a, e.key, e.a, e.secret) && Shows(b, e.key, e.b, e.secret))
  }

  // Every key is in the one place it belongs to, with the values of the two apps unless it is secret.
  ghost predicate Tells(d: Diff, a: App, b: App) {
    && d.aName == a.name && d.bName == b.name
    && (forall k :: TellsOf(d, a, b, k))
    && Truthful(d, a, b)
    && d.same == |set k | k in KeysOf(a) && k in KeysOf(b) && !Differs(a, b, k)|
    && SortedByKey(d.onlyA) && SortedByKey(d.onlyB) && SortedByKey(d.differ)
  }

  // The comparison over all keys of both apps in order.
  ghost function DiffOf(a: App, b: App): Diff {
    DiffOver(a, b, InOrder(AllKeys(a, b)))
  }

  method DiffEnv(a: App, b: App) returns (d: Diff)
    ensures d == DiffOf(a, b)
    ensures Tells(d, a, b)
  {
    TellsRight(a, b);
    var aSec, bSec := ToSet(a.secrets), ToSet(b.secrets);
    var sorted := SortedKeys(a.env.Keys + b.env.Keys + aSec + bSec);
    d := Diff(a.name, b.name, [], [], [], 0);
    for i := 0 to |sorted|
      invariant d == DiffOver(a, b, sorted[..i])
    {
      assert sorted[i] in ToSet(sorted);
      var bucket, e := Compare(a, b, aSec, bSec, sorted[i]);
      DiffNext(a, b, sorted, i);
      d := Put(d, bucket, e);
    }
    assert sorted[..|sorted|] == sorted;
  }

  // ---- Properties ----

  lemma {:induction false} BucketsAddUp(a: App, b: App, keys: seq<string>)
    ensures var d := DiffOver(a, b, keys);
            |d.onlyA| + |d.onlyB| + |d.differ| + d.same == |keys|
  {
    if |keys| > 0 {
      BucketsAddUp(a, b, keys[..|keys| - 1]);
    }
  }

  // Every key of the four inputs is counted once.
  lemma CountsAddUp(a: App, b: App)
    ensures var d := DiffOf(a, b);
            |d.onlyA| + |d.onlyB| + |d.differ| + d.same == |AllKeys(a, b)|
  {
    BucketsAddUp(a, b, InOrder(AllKeys(a, b)));
  }

  ghost predicate SortedByKey(entries: seq<Entry>) {
    forall i, j | 0 <= i < j < |entries| :: Less(entries[i].key, entries[j].key)
  }

  lemma {:induction false} SelectHolds(a: App, b: App, keys: seq<string>, bucket: Bucket, e: Entry)
    ensures e in Select(a, b, keys, bucket) <==>
            e.key in keys && BucketOf(a, b, e.key) == bucket && e == EntryOf(a, b, e.key)
  {
    if |keys| > 0 {
      var init, k := keys[..|keys| - 1], keys[|keys| - 1];
      SelectHolds(a, b, init, bucket, e);
      assert keys == init + [k];
      assert e.key in keys <==> e.key in init || e.key == k;
    }
  }

  lemma {:induction false} SelectSorted(a: App, b: App, keys: seq<string>, bucket: Bucket)
    requires StrictlySorted(keys)
    ensures SortedByKey(Select(a, b, keys, bucket))
  {
    if |keys| > 0 {
      var init, k := keys[..|keys| - 1], keys[|keys| - 1];
      SelectSorted(a, b, init, bucket);
      var rest := Select(a, b, init, bucket);
      forall i | 0 <= i < |rest| ensures Less(rest[i].key, k) {
        SelectHolds(a, b, init, bucket, rest[i]);
        var j :| 0 <= j < |init| && init[j] == rest[i].key;
        assert keys[j] == init[j];
      }
    }
  }

  function Listed(d: Diff, bucket: Bucket): seq<Entry> {
    match bucket
    case OnlyA => d.onlyA
    case OnlyB => d.onlyB
    case Differ => d.differ
    case Same => []
  }

  // Each list holds exactly the entries of the keys of its bucket, in strict order, and no value of a
  // secret key.
  lemma ListsAreExact(a: App, b: App, bucket: Bucket)
    requires bucket != Same
    ensures SortedByKey(Listed(DiffOf(a, b), bucket))
    ensures forall e :: e in Listed(DiffOf(a, b), bucket) <==>
              e == EntryOf(a, b, e.key) && (Has(a, e.key) || Has(b, e.key)) && BucketOf(a, b, e.key) == bucket
    ensures forall e | e in Listed(DiffOf(a, b), bucket) && e.secret :: e.a == e.b == ""
  {
    var keys := InOrder(AllKeys(a, b));
    SelectSorted(a, b, keys, bucket);
    forall e
      ensures e in Listed(DiffOf(a, b), bucket) <==>
              e == EntryOf(a, b, e.key) && (Has(a, e.key) || Has(b, e.key)) && BucketOf(a, b, e.key) == bucket
    {
      SelectHolds(a, b, keys, bucket, e);
      assert e.key in ToSet(keys) <==> e.key in AllKeys(a, b);
    }
  }

  function Flip(e: Entry): Entry {
    Entry(e.key, e.b, e.a, e.secret)
  }

  function FlipAll(entries: seq<Entry>): seq<Entry> {
    seq(|entries|, i requires 0 <= i < |entries| => Flip(entries[i]))
  }

  function Mirror(d: Diff): Diff {
    Diff(d.bName, d.aName, FlipAll(d.onlyB), FlipAll(d.onlyA), FlipAll(d.differ), d.same)
  }

  function Opposite(bucket: Bucket): Bucket {
    match bucket
    case OnlyA => OnlyB
    case OnlyB => OnlyA
    case _ => bucket
  }

  lemma {:induction false} SelectMirrors(a: App, b: App, keys: seq<string>, bucket: Bucket)
    ensures Select(b, a, keys, bucket) == FlipAll(Select(a, b, keys, Opposite(bucket)))
  {
    if |keys| > 0 {
      SelectMirrors(a, b, keys[..|keys| - 1], bucket);
    }
  }

  lemma AllKeysMirror(a: App, b: App)
    ensures AllKeys(b, a) == AllKeys(a, b)
  {
  }

  // Comparing the other way round gives the mirror image.
  lemma DiffMirrors(a: App, b: App)
    ensures DiffOf(b, a) == Mirror(DiffOf(a, b))
  {
    AllKeysMirror(a, b);
    DiffOverMirrors(a, b, InOrder(AllKeys(a, b)));
  }

  lemma DiffOverMirrors(a: App, b: App, keys: seq<string>)
    ensures DiffOver(b, a, keys) == Mirror(DiffOver(a, b, keys))
  {
    SelectMirrors(a, b, keys, OnlyA);
    SelectMirrors(a, b, keys, OnlyB);
    SelectMirrors(a, b, keys, Differ);
    SelectMirrors(a, b, keys, Same);
  }

  // The same app but for the values of keys that are secret here or on the other side.
  ghost predicate SameButSecrets(a: App, a': App, other: App) {
    && a'.name == a.name && a'.secrets == a.secrets && a'.env.Keys == a.env.Keys
    && forall k | k in a.env && k !in a.secrets && k !in other.secrets :: a'.env[k] == a.env[k]
  }

  lemma {:induction false} SelectIgnoresSecrets(a: App, a': App, b: App, b': App, keys: seq<string>, bucket: Bucket)
    requires SameButSecrets(a, a', b) && SameButSecrets(b, b', a)
    ensures Select(a', b', keys, bucket) == Select(a, b, keys, bucket)
  {
    if |keys| > 0 {
      SelectIgnoresSecrets(a, a', b, b', keys[..|keys| - 1], bucket);
      var k := keys[|keys| - 1];
      assert BucketOf(a', b', k) == BucketOf(a, b, k);
    }
  }

  // No secret value has any influence on the result.
  lemma SecretsDoNotShow(a: App, a': App, b: App, b': App)
    requires SameButSecrets(a, a', b) && SameButSecrets(b, b', a)
    ensures DiffOf(a', b') == DiffOf(a, b)
  {
    assert AllKeys(a', b') == AllKeys(a, b);
    var keys := InOrder(AllKeys(a, b));
    SelectIgnoresSecrets(a, a', b, b', keys, OnlyA);
    SelectIgnoresSecrets(a, a', b, b', keys, OnlyB);
    SelectIgnoresSecrets(a, a', b, b', keys, Differ);
    SelectIgnoresSecrets(a, a', b, b', keys, Same);
  }

  // ---- Every key is told of rightly ----

  lemma ListedRight(a: App, b: App, bucket: Bucket, k: string)
    requires bucket != Same
    ensures Lists(Listed(DiffOf(a, b), bucket), k) <==> (Has(a, k) || Has(b, k)) && BucketOf(a, b, k) == bucket
  {
    ListsAreExact(a, b, bucket);
    if (Has(a, k) || Has(b, k)) && BucketOf(a, b, k) == bucket {
      assert EntryOf(a, b, k) in Listed(DiffOf(a, b), bucket);
    }
  }

  lemma KeyRight(a: App, b: App, k: string)
    ensures TellsOf(DiffOf(a, b), a, b, k)
  {
    ListedRight(a, b, OnlyA, k);
    ListedRight(a, b, OnlyB, k);
    ListedRight(a, b, Differ, k);
  }

  lemma EntryRight(a: App, b: App, bucket: Bucket, e: Entry)
    requires bucket != Same && e in Listed(DiffOf(a, b), bucket)
    ensures e.secret == (e.key in a.secrets || e.key in b.secrets)
    ensures if bucket.OnlyB? then e.a == "" && e.key !in a.secrets else Shows(a, e.key, e.a, e.secret)
    ensures if bucket.OnlyA? then e.b == "" && e.key !in b.secrets else Shows(b, e.key, e.b, e.secret)
  {
    ListsAreExact(a, b, bucket);
  }

  lemma EntriesRight(a: App, b: App)
    ensures Truthful(DiffOf(a, b), a, b)
  {
    var d := DiffOf(a, b);
    forall e | e in d.onlyA
      ensures e.secret == (e.key in a.secrets) && Shows(a, e.key, e.a, e.secret) && e.b == ""
    {
      EntryRight(a, b, OnlyA, e);
    }
    forall e | e in d.onlyB
      ensures e.secret == (e.key in b.secrets) && Shows(b, e.key, e.b, e.secret) && e.a == ""
    {
      EntryRight(a, b, OnlyB, e);
    }
    forall e | e in d.differ
      ensures e.secret == (e.key in a.secrets || e.key in b.secrets)
      ensures Shows(a, e.key, e.a, e.secret) && Shows(b, e.key, e.b, e.secret)
    {
      EntryRight(a, b, Differ, e);
    }
  }

  lemma OrderRight(a: App, b: App)
    ensures SortedByKey(DiffOf(a, b).onlyA) && SortedByKey(DiffOf(a, b).onlyB) && SortedByKey(DiffOf(a, b).differ)
  {
    ListsAreExact(a, b, OnlyA);
    ListsAreExact(a, b, OnlyB);
    ListsAreExact(a, b, Differ);
  }

  function InBucket(a: App, b: App, keys: seq<string>, bucket: Bucket): set<string> {
    set k | k in keys && BucketOf(a, b, k) == bucket
  }

  lemma InBucketNext(a: App, b: App, keys: seq<string>, bucket: Bucket, k: string)
    requires k !in keys
    ensures |InBucket(a, b, keys + [k], bucket)| ==
            |InBucket(a, b, keys, bucket)| + if BucketOf(a, b, k) == bucket then 1 else 0
  {
    assert InBucket(a, b, keys + [k], bucket) ==
           InBucket(a, b, keys, bucket) + if BucketOf(a, b, k) == bucket then {k} else {};
  }

  // The number of keys in a bucket.
  lemma {:induction false} SelectSize(a: App, b: App, keys: seq<string>, bucket: Bucket)
    requires StrictlySorted(keys)
    ensures |Select(a, b, keys, bucket)| == |InBucket(a, b, keys, bucket)|
  {
    if |keys| > 0 {
      var init, k := keys[..|keys| - 1], keys[|keys| - 1];
      SelectSize(a, b, init, bucket);
      assert k !in init;
      InBucketNext(a, b, init, bucket, k);
      assert keys == init + [k];
    }
  }

  lemma SameIff(a: App, b: App, k: string)
    ensures k in AllKeys(a, b) && BucketOf(a, b, k) == Same <==> k in KeysOf(a) && k in KeysOf(b) && !Differs(a, b, k)
  {
  }

  lemma SameKeys(a: App, b: App)
    ensures InBucket(a, b, InOrder(AllKeys(a, b)), Same) ==
            set k | k in KeysOf(a) && k in KeysOf(b) && !Differs(a, b, k)
  {
    var all := InOrder(AllKeys(a, b));
    forall k ensures k in InBucket(a, b, all, Same) <==> k in KeysOf(a) && k in KeysOf(b) && !Differs(a, b, k) {
      SameIff(a, b, k);
      assert k in all <==> k in ToSet(all);
    }
  }

  lemma SameRight(a: App, b: App)
    ensures DiffOf(a, b).same == |set k | k in KeysOf(a) && k in KeysOf(b) && !Differs(a, b, k)|
  {
    SelectSize(a, b, InOrder(AllKeys(a, b)), Same);
    SameKeys(a, b);
  }

  lemma TellsRight(a: App, b: App)
    ensures Tells(DiffOf(a, b), a, b)
  {
    forall k ensures TellsOf(DiffOf(a, b), a, b, k) {
      KeyRight(a, b, k);
    }
    EntriesRight(a, b);
    OrderRight(a, b);
    SameRight(a, b);
  }

  lemma NothingListed(entries: seq<Entry>)
    requires forall k :: !Lists(entries, k)
    ensures entries == []
  {
    assert |entries| == 0 || (entries[0] in entries && Lists(entries, entries[0].key));
  }

  // An app compared with itself: nothing is listed, and every key counts as the same.
  lemma NothingDiffers(a: App)
    ensures var d := DiffOf(a, a); d.onlyA == d.onlyB == d.differ == [] && d.same == |KeysOf(a)|
  {
    var d := DiffOf(a, a);
    TellsRight(a, a);
    forall k ensures !Lists(d.onlyA, k) && !Lists(d.onlyB, k) && !Lists(d.differ, k) {
      assert TellsOf(d, a, a, k);
    }
    NothingListed(d.onlyA);
    NothingListed(d.onlyB);
    NothingListed(d.differ);
    assert (set k | k in KeysOf(a) && k in KeysOf(a) && !Differs(a, a, k)) == KeysOf(a);
  }
}

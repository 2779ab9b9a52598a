// The ETag cache under concurrent calls of open: any number of calls, one atomic step at a time, in any order.
module EtagCache {
  import opened Wrappers

  type Bytes = seq<bv8>

  // The files never change; digest stands for the hash and its rendering; an opened file that cannot
  // seek is read into memory first.
  datatype Store = Store(files: map<string, Bytes>, digest: Bytes -> string, seekable: string -> bool)

  // Where one call of open is. at is the position of its reader over content.
  datatype Call =
    | Begin(file: string)
    | Opened(file: string)
    | Reading(file: string, content: Bytes, at: nat)
    | Missed(file: string, content: Bytes, at: nat)
    | Hashed(file: string, content: Bytes, at: nat, etag: string)
    | Rewound(file: string, content: Bytes, at: nat, etag: string)
    | Returned(file: string, content: Bytes, at: nat, etag: string)
    | Failed(file: string)

  datatype State = State(etags: map<string, string>, calls: seq<Call>)

  // The next atomic step of a call; fails means that reading or seeking fails in this step.
  function StepCall(store: Store, etags: map<string, string>, c: Call, fails: bool): (map<string, string>, Call) {
    match c
    case Begin(f) =>
      if f !in store.files || fails then (etags, Failed(f))
      else if store.seekable(f) then (etags, Reading(f, store.files[f], 0))
      else (etags, Opened(f))
    case Opened(f) =>
      if f !in store.files || fails then (etags, Failed(f)) else (etags, Reading(f, store.files[f], 0))
    case Reading(f, content, at) =>
      if f in etags then (etags, Returned(f, content, at, etags[f])) else (etags, Missed(f, content, at))
    case Missed(f, content, at) =>
      // copying hashes from the reader's position and leaves it at the end
      if fails || at > |content| then (etags, Failed(f))
      else (etags, Hashed(f, content, |content|, store.digest(content[at..])))
    case Hashed(f, content, _, etag) =>
      if fails then (etags, Failed(f)) else (etags, Rewound(f, content, 0, etag))
    case Rewound(f, content, at, etag) =>
      (etags[f := etag], Returned(f, content, at, etag))
    case Returned(_, _, _, _) => (etags, c)
    case Failed(_) => (etags, c)
  }

  // A new call, or one step of a running one.
  datatype Move = Start(file: string) | Go(call: nat, fails: bool)

  function Step(store: Store, s: State, m: Move): State {
    match m
    case Start(f) => s.(calls := s.calls + [Begin(f)])
    case Go(i, fails) =>
      if i >= |s.calls| then s
      else
        var (etags, c) := StepCall(store, s.etags, s.calls[i], fails);
        State(etags, s.calls[i := c])
  }

  function Run(store: Store, s: State, moves: seq<Move>): State
    decreases |moves|
  {
    if |moves| == 0 then s else Run(store, Step(store, s, moves[0]), moves[1..])
  }

  const EMPTY := State(map[], [])

  function EtagOf(store: Store, f: string): Option<string> {
    if f in store.files then Some(store.digest(store.files[f])) else None
  }

  // Every cached tag is the tag of its file.
  ghost predicate CacheAgrees(store: Store, etags: map<string, string>) {
    forall f | f in etags :: EtagOf(store, f) == Some(etags[f])
  }

  // What is true of a call at each point.
  predicate CallAgrees(store: Store, c: Call) {
    match c
    case Begin(_) => true
    case Opened(f) => f in store.files
    case Reading(f, content, at) => f in store.files && content == store.files[f] && at == 0
    case Missed(f, content, at) => f in store.files && content == store.files[f] && at == 0
    case Hashed(f, content, _, etag) => HasTag(store, f, content, etag)
    case Rewound(f, content, at, etag) => HasTag(store, f, content, etag) && at == 0
    case Returned(f, content, at, etag) => HasTag(store, f, content, etag) && at == 0
    case Failed(_) => true
  }

  predicate HasTag(store: Store, f: string, content: Bytes, etag: string) {
    f in store.files && content == store.files[f] && EtagOf(store, f) == Some(etag)
  }

  ghost predicate Good(store: Store, s: State) {
    && CacheAgrees(store, s.etags)
    && forall i | 0 <= i < |s.calls| ::
         CallAgrees(store, s.calls[i]) && (s.calls[i].Returned? ==> s.calls[i].file in s.etags)
  }

  lemma StepKeepsGood(store: Store, s: State, m: Move)
    requires Good(store, s)
    ensures Good(store, Step(store, s, m))
  {
    if m.Go? && m.call < |s.calls| {
      var c := s.calls[m.call];
      assert CallAgrees(store, c);
      if c.Missed? {
        assert c.content[0..] == c.content;
      }
    }
  }

  // A call for a file that is missing, and one whose opening, reading or seeking fails, ends in failure and leaves the
  // cache alone. Nothing else fails, and only a call that has hashed and rewound stores a tag.
  lemma FaultsFail(store: Store, etags: map<string, string>, c: Call, fails: bool)
    requires CallAgrees(store, c)
    ensures var (etags', next) := StepCall(store, etags, c, fails);
            && (next.Failed? <==> || c.Failed? || (c.Begin? && c.file !in store.files)
                                  || (fails && (c.Begin? || c.Opened? || c.Missed? || c.Hashed?)))
            && etags' == if c.Rewound? then etags[c.file := c.etag] else etags
  {
  }

  // In every reachable state the cache agrees with the files, and every call that returned handed out
  // the file's own tag with a reader at the start of the whole file.
  lemma {:induction false} ReachableIsGood(store: Store, s: State, moves: seq<Move>)
    requires Good(store, s)
    ensures Good(store, Run(store, s, moves))
    decreases |moves|
  {
    if |moves| > 0 {
      StepKeepsGood(store, s, moves[0]);
      ReachableIsGood(store, Step(store, s, moves[0]), moves[1..]);
    }
  }

  // Two calls for the same content get the same tag, whichever of them filled the cache.
  lemma CallsAgree(store: Store, moves: seq<Move>, i: nat, j: nat)
    requires var calls := Run(store, EMPTY, moves).calls;
             i < |calls| && j < |calls| && calls[i].Returned? && calls[j].Returned?
    ensures var calls := Run(store, EMPTY, moves).calls;
            && calls[i].at == calls[j].at == 0
            && (calls[i].file == calls[j].file ==> calls[i] == calls[j])
            && (calls[i].content == calls[j].content ==> calls[i].etag == calls[j].etag)
            && EtagOf(store, calls[i].file) == Some(calls[i].etag)
            && store.files[calls[i].file] == calls[i].content
            && calls[i].file in Run(store, EMPTY, moves).etags
  {
    ReachableIsGood(store, EMPTY, moves);
    var calls := Run(store, EMPTY, moves).calls;
    assert CallAgrees(store, calls[i]) && CallAgrees(store, calls[j]);
  }

  // ---- Progress ----

  // Steps a call has left at most.
  function StepsLeft(c: Call): nat {
    match c
    case Begin(_) => 6
    case Opened(_) => 5
    case Reading(_, _, _) => 4
    case Missed(_, _, _) => 3
    case Hashed(_, _, _, _) => 2
    case Rewound(_, _, _, _) => 1
    case Returned(_, _, _, _) => 0
    case Failed(_) => 0
  }

  // The steps that call i takes among the moves.
  function OwnSteps(moves: seq<Move>, i: nat): nat {
    if |moves| == 0 then 0
    else (if moves[0].Go? && moves[0].call == i then 1 else 0) + OwnSteps(moves[1..], i)
  }

  // Nothing fails in the steps of call i.
  predicate NoFaults(moves: seq<Move>, i: nat) {
    forall k | 0 <= k < |moves| :: moves[k].Go? && moves[k].call == i ==> !moves[k].fails
  }

  // A call for an existing file returns after six of its own steps at most, whatever the others do.
  lemma {:induction false} CallFinishes(store: Store, s: State, moves: seq<Move>, i: nat)
    requires Good(store, s) && i < |s.calls| && !s.calls[i].Failed?
    requires s.calls[i].file in store.files && NoFaults(moves, i)
    ensures var after := Run(store, s, moves).calls;
            && i < |after| && !after[i].Failed? && after[i].file == s.calls[i].file
            && (OwnSteps(moves, i) >= StepsLeft(s.calls[i]) ==> after[i].Returned?)
    decreases |moves|
  {
    if |moves| > 0 {
      StepKeepsGood(store, s, moves[0]);
      var next := Step(store, s, moves[0]);
      assert CallAgrees(store, s.calls[i]);
      assert NoFaults(moves[1..], i);
      CallFinishes(store, next, moves[1..], i);
    }
  }

  // ---- Who hashes ----

  // The state before the k-th move of a run.
  function Before(store: Store, moves: seq<Move>, k: nat): State
    requires k <= |moves|
  {
    Run(store, EMPTY, moves[..k])
  }

  lemma {:induction false} RunConcat(store: Store, s: State, first: seq<Move>, second: seq<Move>)
    ensures Run(store, s, first + second) == Run(store, Run(store, s, first), second)
    decreases |first|
  {
    if |first| == 0 {
      assert first + second == second;
    } else {
      assert (first + second)[1..] == first[1..] + second;
      RunConcat(store, Step(store, s, first[0]), first[1..], second);
    }
  }

  lemma NextState(store: Store, moves: seq<Move>, k: nat)
    requires k < |moves|
    ensures Before(store, moves, k + 1) == Step(store, Before(store, moves, k), moves[k])
  {
    assert moves[..k + 1] == moves[..k] + [moves[k]];
    RunConcat(store, EMPTY, moves[..k], [moves[k]]);
    assert [moves[k]][1..] == [];
  }

  // The k-th move takes a step of call i.
  predicate MovesCall(store: Store, moves: seq<Move>, i: nat, k: nat) {
    k < |moves| && moves[k].Go? && moves[k].call == i && i < |Before(store, moves, k).calls|
  }

  // Call i looks into the cache in the k-th move.
  predicate LooksAt(store: Store, moves: seq<Move>, i: nat, k: nat) {
    MovesCall(store, moves, i, k) && Before(store, moves, k).calls[i].Reading?
  }

  // Call i hashes its file in the k-th move.
  predicate HashesAt(store: Store, moves: seq<Move>, i: nat, k: nat) {
    MovesCall(store, moves, i, k) && Before(store, moves, k).calls[i].Missed? && !moves[k].fails
  }

  // None of the moves from k on to n is one of call i.
  ghost predicate Rests(store: Store, moves: seq<Move>, i: nat, k: nat, n: nat) {
    forall h: nat | k <= h < n :: !MovesCall(store, moves, i, h)
  }

  // From k on to n calls stay in the list with their file, their progress never goes back, a call that is
  // not moved stays as it is, and what is cached stays cached.
  lemma {:induction false} Onwards(store: Store, moves: seq<Move>, i: nat, k: nat, n: nat)
    requires k <= n <= |moves| && i < |Before(store, moves, k).calls|
    ensures var s, t := Before(store, moves, k), Before(store, moves, n);
            && i < |t.calls|
            && t.calls[i].file == s.calls[i].file
            && StepsLeft(t.calls[i]) <= StepsLeft(s.calls[i])
            && (Rests(store, moves, i, k, n) ==> t.calls[i] == s.calls[i])
            && s.etags.Keys <= t.etags.Keys
    decreases n - k
  {
    if k < n {
      NextState(store, moves, n - 1);
      Onwards(store, moves, i, k, n - 1);
      if Rests(store, moves, i, k, n) {
        assert Rests(store, moves, i, k, n - 1) && !MovesCall(store, moves, i, n - 1);
      }
    }
  }

  // A call hashes in its next step exactly when its file was not cached when it looked.
  lemma HashesIffNotCached(store: Store, moves: seq<Move>, i: nat, k: nat, n: nat)
    requires LooksAt(store, moves, i, k) && k < n < |moves|
    requires moves[n] == Go(i, false) && Rests(store, moves, i, k + 1, n)
    ensures HashesAt(store, moves, i, n) <==>
            Before(store, moves, k).calls[i].file !in Before(store, moves, k).etags
  {
    NextState(store, moves, k);
    NextState(store, moves, n);
    Onwards(store, moves, i, k + 1, n);
    ReachableIsGood(store, EMPTY, moves[..k]);
    assert CallAgrees(store, Before(store, moves, k).calls[i]);
  }

  // A call that hashes did look before, did not find its file, and took no other step in between.
  lemma {:induction false} MissedLooked(store: Store, moves: seq<Move>, i: nat, n: nat) returns (k: nat)
    requires n <= |moves| && i < |Before(store, moves, n).calls| && Before(store, moves, n).calls[i].Missed?
    ensures k < n && LooksAt(store, moves, i, k)
    ensures Before(store, moves, k).calls[i].file == Before(store, moves, n).calls[i].file
    ensures Before(store, moves, k).calls[i].file !in Before(store, moves, k).etags
    ensures Rests(store, moves, i, k + 1, n)
    decreases n
  {
    NextState(store, moves, n - 1);
    if MovesCall(store, moves, i, n - 1) {
      k := n - 1;
    } else {
      k := MissedLooked(store, moves, i, n - 1);
    }
  }

  // No call hashes twice.
  lemma HashesOnce(store: Store, moves: seq<Move>, i: nat, m: nat, n: nat)
    requires HashesAt(store, moves, i, m) && HashesAt(store, moves, i, n)
    ensures m == n
  {
    NextState(store, moves, m);
    NextState(store, moves, n);
    if m < n {
      Onwards(store, moves, i, m + 1, n);
    } else if n < m {
      Onwards(store, moves, i, n + 1, m);
    }
  }

  // Two calls hash the same file only when each of them looked before the other one had returned: once
  // a call for the file has returned, no call that looks after that hashes it.
  lemma LateCallsDoNotHash(store: Store, moves: seq<Move>, i: nat, r: nat, j: nat, n: nat)
    requires r <= |moves| && i < |Before(store, moves, r).calls| && Before(store, moves, r).calls[i].Returned?
    requires HashesAt(store, moves, j, n)
    requires Before(store, moves, n).calls[j].file == Before(store, moves, r).calls[i].file
    ensures exists k: nat :: k < r && k < n && LooksAt(store, moves, j, k)
  {
    var k := MissedLooked(store, moves, j, n);
    ReachableIsGood(store, EMPTY, moves[..r]);
    if r <= k {
      Onwards(store, moves, i, r, k);
      assert false;
    }
  }

  // One step of each of the first two calls.
  const BOTH := [Go(0, false), Go(1, false)]

  // Two calls for one file in step: both start, open and read, look, and hash.
  function InStep(store: Store, f: string): seq<Move> {
    [Start(f), Start(f)] + ((BOTH + if store.seekable(f) then [] else BOTH) + (BOTH + BOTH))
  }

  lemma Together(store: Store, etags: map<string, string>, c: Call)
    requires StepCall(store, etags, c, false).0 == etags
    ensures var next := StepCall(store, etags, c, false).1;
            Run(store, State(etags, [c, c]), BOTH) == State(etags, [next, next])
  {
    var next := StepCall(store, etags, c, false).1;
    assert BOTH[1..] == [Go(1, false)] && BOTH[1..][1..] == [];
    assert Step(store, State(etags, [c, c]), BOTH[0]) == State(etags, [next, c]);
  }

  lemma TwoStarted(store: Store, f: string)
    ensures Run(store, EMPTY, [Start(f), Start(f)]) == State(map[], [Begin(f), Begin(f)])
  {
    var start := [Start(f), Start(f)];
    assert start[1..] == [Start(f)] && [Start(f)][1..] == [];
    assert Step(store, EMPTY, start[0]) == State(map[], [Begin(f)]);
    assert [Begin(f)] + [Begin(f)] == [Begin(f), Begin(f)];
    assert Run(store, State(map[], [Begin(f)]), [Start(f)]) == State(map[], [Begin(f), Begin(f)]);
  }

  lemma TwoRead(store: Store, f: string)
    requires f in store.files
    ensures var read := Reading(f, store.files[f], 0);
            Run(store, State(map[], [Begin(f), Begin(f)]), BOTH + if store.seekable(f) then [] else BOTH)
            == State(map[], [read, read])
  {
    RunConcat(store, State(map[], [Begin(f), Begin(f)]), BOTH, if store.seekable(f) then [] else BOTH);
    Together(store, map[], Begin(f));
    Together(store, map[], Opened(f));
  }

  // A file can be hashed twice: two calls that look before either of them has stored the tag both hash it.
  lemma HashedTwice(store: Store, f: string)
    requires f in store.files
    ensures var calls := Run(store, EMPTY, InStep(store, f)).calls;
            |calls| == 2 && calls[0].file == calls[1].file == f && calls[0].Hashed? && calls[1].Hashed?
  {
    var read := Reading(f, store.files[f], 0);
    var reading := BOTH + if store.seekable(f) then [] else BOTH;
    RunConcat(store, EMPTY, [Start(f), Start(f)], reading + (BOTH + BOTH));
    TwoStarted(store, f);
    RunConcat(store, State(map[], [Begin(f), Begin(f)]), reading, BOTH + BOTH);
    TwoRead(store, f);
    RunConcat(store, State(map[], [read, read]), BOTH, BOTH);
    Together(store, map[], read);
    Together(store, map[], Missed(f, store.files[f], 0));
  }
}

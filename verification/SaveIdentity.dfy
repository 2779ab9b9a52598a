// Writing a newly enrolled identity and reading it back, in an environment where either may fail.
module SaveIdentity {
  import opened Agent
  import opened Wrappers

  // One attempt as the environment lets it happen: cancellation during the wait before it, whether the
  // write succeeds, and what reading back yields (None when it fails).
  datatype Attempt = Attempt(cancelled: bool, written: bool, readBack: Option<Identity>)

  datatype Fault = WriteFailed | ReadFailed | WrongNode(nodeId: string)

  datatype SaveResult = Saved | Cancelled | Failed(fault: Fault)

  const ATTEMPTS := 4

  // Milliseconds to wait before attempt i.
  function WaitBefore(i: nat): nat {
    i * 500
  }

  predicate Succeeds(id: Identity, a: Attempt) {
    a.written && a.readBack.Some? && a.readBack.value.nodeId == id.nodeId
  }

  function FaultOf(a: Attempt): Fault {
    if !a.written then WriteFailed
    else if a.readBack.None? then ReadFailed
    else WrongNode(a.readBack.value.nodeId)
  }

  // Attempt i is reached and not cancelled.
  ghost predicate Made(id: Identity, attempts: seq<Attempt>, i: nat)
    requires i < |attempts|
  {
    && (forall j | 0 <= j < i :: !Succeeds(id, attempts[j]))
    && (forall j | 0 < j <= i :: !attempts[j].cancelled)
  }

  // Attempt i is the one after which success is reported.
  ghost predicate SavedAt(id: Identity, attempts: seq<Attempt>, i: nat)
    requires i < |attempts|
  {
    Made(id, attempts, i) && Succeeds(id, attempts[i])
  }

  // ---- What the source promises of an attempt ----

  // It wrote the file, read it back, and found the node id written.
  predicate Verified(id: Identity, a: Attempt) {
    a.written && a.readBack.Some? && a.readBack.value.nodeId == id.nodeId
  }

  // The first n attempts found no such identity, and no wait among them was cancelled.
  ghost predicate Tried(id: Identity, attempts: seq<Attempt>, n: nat)
    requires n <= |attempts|
  {
    (forall j | 0 <= j < n :: !Verified(id, attempts[j])) && (forall j | 0 < j < n :: !attempts[j].cancelled)
  }

  // What was tried, what is reported, and the milliseconds waited: 500 before the second attempt, 1000 before the
  // third, 1500 before the fourth.
  ghost predicate Reported(id: Identity, attempts: seq<Attempt>, result: SaveResult, waited: nat)
    requires |attempts| == 4
  {
    match result
    case Saved =>
      exists i | 0 <= i < 4 :: Tried(id, attempts, i) && (i == 0 || !attempts[i].cancelled)
                               && Verified(id, attempts[i]) && waited == 250 * (i * (i + 1))
    case Cancelled =>
      exists i | 0 < i < 4 :: Tried(id, attempts, i) && attempts[i].cancelled && waited == 250 * (i * (i - 1))
    case Failed(fault) =>
      && Tried(id, attempts, 4) && waited == 3000
      && fault == if !attempts[3].written then WriteFailed
                  else if attempts[3].readBack.None? then ReadFailed
                  else WrongNode(attempts[3].readBack.value.nodeId)
  }

  // Success is reported exactly when one of the four attempts was made and read the same node id back;
  // the wait is three seconds at most.
  method SaveVerified(id: Identity, attempts: seq<Attempt>) returns (result: SaveResult, waited: nat)
    requires |attempts| == ATTEMPTS
    ensures result.Saved? <==> exists i | 0 <= i < ATTEMPTS :: SavedAt(id, attempts, i)
    ensures result.Failed? <==> Made(id, attempts, ATTEMPTS - 1) && !Succeeds(id, attempts[ATTEMPTS - 1])
    ensures result.Failed? ==> result.fault == FaultOf(attempts[ATTEMPTS - 1])
    ensures waited <= 3000
    ensures Reported(id, attempts, result, waited)
  {
    var err := WriteFailed;
    waited := 0;
    for i := 0 to ATTEMPTS
      invariant forall j | 0 <= j < i :: !Succeeds(id, attempts[j])
      invariant forall j | 0 < j < i :: !attempts[j].cancelled
      invariant i > 0 ==> err == FaultOf(attempts[i - 1])
      invariant 2 * waited == if i == 0 then 0 else 500 * (i * (i - 1))
    {
      if i > 0 {
        if attempts[i].cancelled {
          assert Tried(id, attempts, i);
          return Cancelled, waited;
        }
        waited := waited + WaitBefore(i);
      }
      if !attempts[i].written {
        err := WriteFailed;
        continue;
      }
      var got := attempts[i].readBack;
      if got.Some? && got.value.nodeId == id.nodeId {
        assert SavedAt(id, attempts, i) && Tried(id, attempts, i);
        return Saved, waited;
      }
      err := if got.Some? then WrongNode(got.value.nodeId) else ReadFailed;
    }
    return Failed(err), waited;
  }

  // ---- What success says about the file ----

  // Reading back yields only identities that can stand in the file.
  ghost predicate ReadsFrom(attempts: seq<Attempt>, disk: iset<Identity>) {
    forall i | 0 <= i < |attempts| && attempts[i].readBack.Some? :: attempts[i].readBack.value in disk
  }

  // Whenever success is reported, the whole identity was read back.
  ghost predicate SavedIsWhole(id: Identity, disk: iset<Identity>) {
    forall attempts: seq<Attempt>, i: nat |
      |attempts| == ATTEMPTS && i < ATTEMPTS && ReadsFrom(attempts, disk) && SavedAt(id, attempts, i) ::
      attempts[i].readBack == Some(id)
  }

  // Success means the file holds the new identity exactly if nothing else that can stand in the file has
  // its node id.
  lemma SavedIsWholeIff(id: Identity, disk: iset<Identity>)
    ensures SavedIsWhole(id, disk) <==> forall other | other in disk && other.nodeId == id.nodeId :: other == id
  {
    if SavedIsWhole(id, disk) {
      forall other | other in disk && other.nodeId == id.nodeId ensures other == id {
        var attempts := SavedAtOnce(id, other);
        assert attempts[0].readBack == Some(id);
      }
    }
  }

  // Four attempts of which the first writes and reads back this other identity.
  lemma SavedAtOnce(id: Identity, other: Identity) returns (attempts: seq<Attempt>)
    requires other.nodeId == id.nodeId
    ensures |attempts| == ATTEMPTS && SavedAt(id, attempts, 0)
    ensures forall i | 0 <= i < ATTEMPTS :: attempts[i].readBack == Some(other)
  {
    var a := Attempt(false, true, Some(other));
    attempts := [a, a, a, a];
  }

  // Success is reported although the file holds a certificate of an earlier enrolment of the node.
  lemma OldCertificatePasses(nodeId: string, stale: string, cert: string, notAfter: Option<int>)
    requires stale != cert
    ensures var id, onDisk := Identity(nodeId, cert, notAfter), Identity(nodeId, stale, notAfter);
            exists attempts: seq<Attempt> ::
              |attempts| == ATTEMPTS && SavedAt(id, attempts, 0) && attempts[0].readBack == Some(onDisk) && onDisk != id
  {
    var attempts := SavedAtOnce(Identity(nodeId, cert, notAfter), Identity(nodeId, stale, notAfter));
  }
}

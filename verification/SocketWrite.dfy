// Writing a reply or a request to a socket that may take only part of it, refuse for
// a while, or fail: successWrite on the server, writeAll on the client.
module SocketWrite {
  import opened Common

  // What one write(2) does: take that many bytes (at most what is offered), EAGAIN or
  // EWOULDBLOCK, EINTR, or any other error.
  datatype Outcome = Wrote(n: nat) | Again | Interrupted | Failed

  const MAX_WAITS: nat := 20

  function Min(a: nat, b: nat): nat { if a < b then a else b }

  // The socket answers the k-th write with script(k): the proofs quantify over every
  // script.
  class Socket {
    const script: nat -> Outcome
    var calls: nat
    var delivered: seq<Byte>

    constructor (script: nat -> Outcome)
      ensures this.script == script && calls == 0 && delivered == []
    {
      this.script := script;
      calls := 0;
      delivered := [];
    }

    method Write(data: seq<Byte>) returns (r: Outcome)
      modifies this
      ensures calls == old(calls) + 1
      ensures r == match script(old(calls)) case Wrote(n) => Wrote(Min(n, |data|)) case other => other
      ensures delivered == old(delivered) + if r.Wrote? then data[..r.n] else []
    {
      r := script(calls);
      calls := calls + 1;
      if r.Wrote? {
        r := Wrote(Min(r.n, |data|));
        delivered := delivered + data[..r.n];
      }
    }
  }

  // ---------- The server: successWrite ----------

  ghost predicate NeverZero(script: nat -> Outcome) {
    forall k: nat {:trigger script(k)} :: script(k) != Wrote(0)
  }

  // Whether it reports success, how many bytes were delivered, and how many writes
  // were made, after k writes that delivered `sent` bytes and ended in `waits` refusals.
  ghost function SuccessRun(script: nat -> Outcome, at: nat, len: nat, k: nat, sent: nat, waits: nat): (bool, nat, nat)
    requires NeverZero(script) && sent <= len && waits <= MAX_WAITS + 1
    decreases len - sent, MAX_WAITS + 1 - waits
  {
    if sent == len then (true, sent, k) else
      var o := script(at + k);
      var now := sent + if o.Wrote? then Min(o.n, len - sent) else 0;
      if waits > MAX_WAITS then (false, now, k + 1)
      else match o
        case Wrote(_) => SuccessRun(script, at, len, k + 1, now, 0)
        case Again => SuccessRun(script, at, len, k + 1, sent, waits + 1)
        case _ => (false, sent, k + 1)
  }

  method SuccessWrite(fd: Socket, data: seq<Byte>) returns (ok: bool)
    requires NeverZero(fd.script)
    modifies fd
    ensures var (success, sent, k) := SuccessRun(fd.script, old(fd.calls), |data|, 0, 0, 0);
            && ok == success && fd.calls == old(fd.calls) + k
            && sent <= |data| && fd.delivered == old(fd.delivered) + data[..sent]
  {
    var totalWritten: nat := 0;
    var remaining: nat := |data|;
    var waitsDone: nat := 0;
    ghost var at := fd.calls;
    while totalWritten < |data|
      invariant totalWritten + remaining == |data|
      invariant waitsDone <= MAX_WAITS + 1
      invariant fd.calls >= at
      invariant fd.delivered == old(fd.delivered) + data[..totalWritten]
      invariant SuccessRun(fd.script, at, |data|, 0, 0, 0) ==
                SuccessRun(fd.script, at, |data|, fd.calls - at, totalWritten, waitsDone)
      decreases remaining, MAX_WAITS + 1 - waitsDone
    {
      var written := fd.Write(data[totalWritten..]);
      ghost var now := totalWritten + if written.Wrote? then written.n else 0;
      assert data[..totalWritten] + data[totalWritten..][..now - totalWritten] == data[..now];
      if waitsDone > MAX_WAITS {
        return false;
      }
      if !written.Wrote? {
        if written.Again? {
          waitsDone := waitsDone + 1;
          continue;
        }
        return false;
      }
      waitsDone := 0;
      totalWritten := totalWritten + written.n;
      remaining := remaining - written.n;
    }
    assert data[..totalWritten] == data;
    return true;
  }

  // Bytes taken by the first m writes.
  ghost function Taken(script: nat -> Outcome, at: nat, len: nat, m: nat): (n: nat)
    ensures n <= len
  {
    if m == 0 then 0 else
      var before := Taken(script, at, len, m - 1);
      var o := script(at + m - 1);
      before + if o.Wrote? then Min(o.n, len - before) else 0
  }

  // A write takes as many bytes as the socket grants, but no more than are left.
  lemma {:induction false} WriteTakes(script: nat -> Outcome, at: nat, len: nat, m: nat, granted: nat)
    requires script(at + m) == Wrote(granted)
    ensures Taken(script, at, len, m + 1) ==
            if Taken(script, at, len, m) + granted <= len then Taken(script, at, len, m) + granted else len
  {
    assert at + (m + 1) - 1 == at + m;
  }

  ghost predicate Refused(script: nat -> Outcome, k: nat) {
    script(k).Again?
  }

  ghost predicate Usable(script: nat -> Outcome, k: nat) {
    script(k).Wrote? || script(k).Again?
  }

  // The m writes from `at` on ended in more than 20 refusals in a row.
  ghost predicate RefusedTooLong(script: nat -> Outcome, at: nat, m: nat) {
    m > 20 && forall j: nat :: at + m - 21 <= j < at + m ==> Refused(script, j)
  }

  // m writes deliver everything, none of them fails, and none is made after too long
  // a run of refusals.
  ghost predicate Delivers(script: nat -> Outcome, at: nat, len: nat, m: nat) {
    && Taken(script, at, len, m) == len
    && NoFailure(script, at, m)
  }

  // The write after the first i neither fails nor comes after too long a run of refusals.
  ghost predicate GoesOn(script: nat -> Outcome, at: nat, i: nat) {
    Usable(script, at + i) && !RefusedTooLong(script, at, i)
  }

  ghost predicate NoFailure(script: nat -> Outcome, at: nat, m: nat) {
    forall i: nat :: i < m ==> GoesOn(script, at, i)
  }

  lemma {:induction false} TakenGrows(script: nat -> Outcome, at: nat, len: nat, m: nat, n: nat)
    requires m <= n
    ensures Taken(script, at, len, m) <= Taken(script, at, len, n)
    decreases n - m
  {
    if m < n {
      TakenGrows(script, at, len, m, n - 1);
    }
  }

  // `waits` is the number of refusals that the first k writes end in.
  ghost predicate Waiting(script: nat -> Outcome, at: nat, k: nat, waits: nat) {
    && waits <= k
    && (forall j: nat :: at + k - waits <= j < at + k ==> Refused(script, j))
    && (waits < k ==> !Refused(script, at + k - waits - 1))
  }

  lemma {:induction false} WaitingTooLong(script: nat -> Outcome, at: nat, k: nat, waits: nat)
    requires Waiting(script, at, k, waits)
    ensures waits > MAX_WAITS <==> RefusedTooLong(script, at, k)
  {}

  // True means that some number of writes delivers everything, and conversely.
  lemma {:induction false} RunExact(script: nat -> Outcome, at: nat, len: nat, k: nat, waits: nat)
    requires NeverZero(script) && waits <= MAX_WAITS + 1 && Waiting(script, at, k, waits)
    requires NoFailure(script, at, k)
    ensures SuccessRun(script, at, len, k, Taken(script, at, len, k), waits).0 <==>
            exists m :: Delivers(script, at, len, m)
    decreases len - Taken(script, at, len, k), MAX_WAITS + 1 - waits
  {
    var sent := Taken(script, at, len, k);
    WaitingTooLong(script, at, k, waits);
    if sent == len {
      assert Delivers(script, at, len, k);
    } else if waits > MAX_WAITS || !Usable(script, at + k) {
      forall m | Delivers(script, at, len, m)
        ensures false
      {
        StuckAt(script, at, len, k, m);
      }
    } else {
      var waits' := if script(at + k).Again? then waits + 1 else 0;
      assert Taken(script, at, len, k + 1) ==
             sent + if script(at + k).Wrote? then Min(script(at + k).n, len - sent) else 0;
      assert GoesOn(script, at, k);
      RunExact(script, at, len, k + 1, waits');
    }
  }

  // No sequence of writes delivers everything past a failure.
  lemma {:induction false} StuckAt(script: nat -> Outcome, at: nat, len: nat, k: nat, m: nat)
    requires Taken(script, at, len, k) < len
    requires RefusedTooLong(script, at, k) || !Usable(script, at + k)
    ensures !Delivers(script, at, len, m)
  {
    if m <= k {
      TakenGrows(script, at, len, m, k);
    } else {
      assert NoFailure(script, at, m) ==> GoesOn(script, at, k);
    }
  }

  lemma {:induction false} SuccessExact(script: nat -> Outcome, at: nat, len: nat)
    requires NeverZero(script)
    ensures SuccessRun(script, at, len, 0, 0, 0).0 <==> exists m :: Delivers(script, at, len, m)
  {
    RunExact(script, at, len, 0, 0);
  }

  // Reported success means complete delivery; in any case a prefix is delivered.
  lemma {:induction false} SuccessMeansDelivered(script: nat -> Outcome, at: nat, len: nat, k: nat, sent: nat,
      waits: nat)
    requires NeverZero(script) && sent <= len && waits <= MAX_WAITS + 1
    ensures var (ok, total, _) := SuccessRun(script, at, len, k, sent, waits);
            sent <= total <= len && (ok ==> total == len)
    decreases len - sent, MAX_WAITS + 1 - waits
  {
    if sent < len && waits <= MAX_WAITS {
      match script(at + k)
      case Wrote(n) => SuccessMeansDelivered(script, at, len, k + 1, sent + Min(n, len - sent), 0);
      case Again => SuccessMeansDelivered(script, at, len, k + 1, sent, waits + 1);
      case _ =>
    }
  }

  // Any error ends it at once; an interrupted write is one, unlike on the client.
  lemma {:induction false} ErrorStops(script: nat -> Outcome, at: nat, len: nat, k: nat, sent: nat, waits: nat)
    requires NeverZero(script) && sent < len && waits <= 21
    requires script(at + k) == Interrupted || script(at + k) == Failed
    ensures SuccessRun(script, at, len, k, sent, waits) == (false, sent, k + 1)
    ensures forall m :: m > k && Taken(script, at, len, k) < len ==> !Delivers(script, at, len, m)
  {
    forall m: nat | m > k && Taken(script, at, len, k) < len
      ensures !Delivers(script, at, len, m)
    {
      StuckAt(script, at, len, k, m);
    }
  }

  // The write after more than 20 refusals is still made, and takes all the rest.
  ghost predicate DeliversLate(script: nat -> Outcome, at: nat, len: nat, m: nat) {
    && NoFailure(script, at, m) && RefusedTooLong(script, at, m)
    && Taken(script, at, len, m) < len == Taken(script, at, len, m + 1)
  }

  // Only the first run of refusals that is too long counts, and nothing after it.
  lemma {:induction false} LateOnlyAt(script: nat -> Outcome, at: nat, len: nat, k: nat, m: nat)
    requires NoFailure(script, at, k)
    requires Taken(script, at, len, k) == len || RefusedTooLong(script, at, k) || !Usable(script, at + k)
    ensures DeliversLate(script, at, len, m) ==> m == k
  {
    if m < k {
      assert GoesOn(script, at, m);
    } else if m > k {
      TakenGrows(script, at, len, k, m);
      assert NoFailure(script, at, m) ==> GoesOn(script, at, k);
    }
  }

  lemma {:induction false} RunLate(script: nat -> Outcome, at: nat, len: nat, k: nat, waits: nat)
    requires NeverZero(script) && waits <= MAX_WAITS + 1 && Waiting(script, at, k, waits)
    requires NoFailure(script, at, k)
    ensures var (ok, total, _) := SuccessRun(script, at, len, k, Taken(script, at, len, k), waits);
            !ok && total == len <==> exists m :: DeliversLate(script, at, len, m)
    decreases len - Taken(script, at, len, k), MAX_WAITS + 1 - waits
  {
    var sent := Taken(script, at, len, k);
    WaitingTooLong(script, at, k, waits);
    assert Taken(script, at, len, k + 1) ==
           sent + if script(at + k).Wrote? then Min(script(at + k).n, len - sent) else 0;
    if sent == len || waits > MAX_WAITS || !Usable(script, at + k) {
      forall m: nat
        ensures DeliversLate(script, at, len, m) ==> m == k
      {
        LateOnlyAt(script, at, len, k, m);
      }
      assert DeliversLate(script, at, len, k) <==> waits > MAX_WAITS && sent < len == Taken(script, at, len, k + 1);
    } else {
      assert GoesOn(script, at, k);
      RunLate(script, at, len, k + 1, if script(at + k).Again? then waits + 1 else 0);
    }
  }

  // Failure is reported although everything was delivered exactly when the write after
  // the first run of more than 20 refusals takes all that is left.
  lemma {:induction false} FailureAfterDeliveryExact(script: nat -> Outcome, at: nat, len: nat)
    requires NeverZero(script)
    ensures var (ok, total, _) := SuccessRun(script, at, len, 0, 0, 0);
            !ok && total == len <==> exists m :: DeliversLate(script, at, len, m)
  {
    RunLate(script, at, len, 0, 0);
  }

  // It happens: 21 refusals from the first write on, then one complete write.
  lemma {:induction false} FailureAfterDelivery(script: nat -> Outcome, len: nat, k: nat)
    requires NeverZero(script) && len > 0 && k <= 21
    requires forall j: nat :: j <= 20 ==> script(j) == Again
    requires script(21) == Wrote(len)
    ensures SuccessRun(script, 0, len, k, 0, k) == (false, len, 22)
    decreases 21 - k
  {
    if k <= 20 {
      assert script(0 + k) == Again;
      FailureAfterDelivery(script, len, k + 1);
    }
  }

  // ---------- The client: writeAll ----------

  // Signals do not interrupt every write from some point on.
  ghost predicate NotForeverInterrupted(script: nat -> Outcome) {
    forall k: nat :: EventuallyFree(script, k)
  }

  ghost predicate EventuallyFree(script: nat -> Outcome, k: nat) {
    exists j: nat :: j >= k && Free(script, j)
  }

  ghost predicate Free(script: nat -> Outcome, j: nat) {
    !script(j).Interrupted?
  }

  // The first k writes from `at` on took `total` bytes, and each of them took something
  // or was interrupted.
  ghost predicate Progress(script: nat -> Outcome, at: nat, len: nat, k: nat, total: nat) {
    && Taken(script, at, len, k) == total
    && forall j: nat :: at <= j < at + k ==> script(j).Interrupted? || (script(j).Wrote? && script(j).n > 0)
  }

  ghost predicate Passes(o: Outcome) {
    o.Interrupted? || (o.Wrote? && o.n > 0)
  }

  lemma {:induction false} ProgressStep(script: nat -> Outcome, at: nat, len: nat, k: nat, total: nat)
    requires Progress(script, at, len, k, total) && Passes(script(at + k))
    ensures var o := script(at + k);
            Progress(script, at, len, k + 1, total + if o.Wrote? then Min(o.n, len - total) else 0)
  {}

  // Interruptions are waited out, however many: the write after them may finish.
  lemma {:induction false} InterruptionsAreWaitedOut(script: nat -> Outcome, at: nat, len: nat, k: nat)
    requires forall j: nat :: at <= j < at + k ==> script(j) == Interrupted
    requires script(at + k).Wrote? && script(at + k).n >= len > 0
    ensures Progress(script, at, len, k + 1, len)
  {
    NothingTaken(script, at, len, k);
    WriteTakes(script, at, len, k, script(at + k).n);
  }

  lemma {:induction false} NothingTaken(script: nat -> Outcome, at: nat, len: nat, k: nat)
    requires forall j: nat :: at <= j < at + k ==> script(j) == Interrupted
    ensures Taken(script, at, len, k) == 0
  {
    if k > 0 {
      NothingTaken(script, at, len, k - 1);
    }
  }

  // A failed or refused write, or one that takes nothing, is the end.
  lemma {:induction false} OthersEndIt(script: nat -> Outcome, at: nat, len: nat, k: nat, m: nat)
    requires Taken(script, at, len, k) < len
    requires script(at + k) == Failed || script(at + k) == Again || script(at + k) == Wrote(0)
    ensures !Progress(script, at, len, m, len)
  {
    if m <= k {
      TakenGrows(script, at, len, m, k);
    } else {
      assert at <= at + k < at + m;
    }
  }

  // Once a write does not let it go on, no number of writes delivers everything.
  lemma {:induction false} ClientFails(script: nat -> Outcome, at: nat, len: nat, k: nat, total: nat)
    requires Progress(script, at, len, k, total) && total < len && !Passes(script(at + k))
    ensures !exists m :: Progress(script, at, len, m, len)
  {
    forall m: nat
      ensures !Progress(script, at, len, m, len)
    {
      if m <= k {
        TakenGrows(script, at, len, m, k);
      }
    }
  }

  lemma {:induction false} NextFree(script: nat -> Outcome, k: nat) returns (stop: nat)
    requires NotForeverInterrupted(script)
    ensures stop >= k && Free(script, stop)
  {
    assert EventuallyFree(script, k);
    stop :| stop >= k && Free(script, stop);
  }

  // The client reports success exactly when everything was delivered, and that is so
  // exactly when some number of writes delivers it with nothing but interruptions between.
  method WriteAll(fd: Socket, data: seq<Byte>) returns (ok: bool)
    requires NotForeverInterrupted(fd.script)
    modifies fd
    ensures ok <==> fd.delivered == old(fd.delivered) + data
    ensures ok <==> exists m :: Progress(fd.script, old(fd.calls), |data|, m, |data|)
    ensures exists sent :: 0 <= sent <= |data| && fd.delivered == old(fd.delivered) + data[..sent]
  {
    var totalWritten: nat := 0;
    ghost var at, k := fd.calls, 0;
    ghost var stop := NextFree(fd.script, at);
    while totalWritten < |data|
      invariant totalWritten <= |data| && fd.calls == at + k
      invariant fd.delivered == old(fd.delivered) + data[..totalWritten]
      invariant Progress(fd.script, at, |data|, k, totalWritten)
      invariant stop >= fd.calls && Free(fd.script, stop)
      decreases |data| - totalWritten, stop - fd.calls
    {
      var written := fd.Write(data[totalWritten..]);
      if !Passes(fd.script(at + k)) {
        ClientFails(fd.script, at, |data|, k, totalWritten);
      } else {
        ProgressStep(fd.script, at, |data|, k, totalWritten);
      }
      k := k + 1;
      if written.Wrote? && written.n > 0 {
        assert data[..totalWritten] + data[totalWritten..][..written.n] == data[..totalWritten + written.n];
        totalWritten := totalWritten + written.n;
        stop := NextFree(fd.script, fd.calls);
        continue;
      }
      assert fd.delivered == old(fd.delivered) + data[..totalWritten];
      if written.Interrupted? {
        continue;
      }
      return false;
    }
    assert data[..totalWritten] == data;
    return true;
  }
}

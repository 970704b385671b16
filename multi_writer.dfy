/** multiReopenWriter: a fixed list of reopenable writers that every Write
    and every Reopen is passed to, in list order, stopping at the first
    member that fails. The members are abstract: what each call answers is
    supplied by an oracle, and each member records the calls it received. */
module MultiWriters {
  import opened Io

  /** The answer of a Write: a count and an error. */
  datatype WriteResult = WriteResult(n: int, err: Option<Error>)

  /** A call a member received: a Write with its payload, or a Reopen. */
  datatype Call = WriteCall(m: Member, p: Bytes) | ReopenCall(m: Member)

  /** An observer of the calls made to members: each member appends every
      call it receives to the log it is handed, so that the order of calls
      across members can be stated. */
  class Log {
    ghost var calls: seq<Call>

    constructor ()
      ensures calls == []
    {
      calls := [];
    }
  }

  /** Any reopenable writer, seen from outside: an identity whose calls are
      recorded in the log it is handed, and whose answers come from an
      oracle. */
  class Member {
    method Write(p: Bytes, outcome: WriteResult, ghost log: Log) returns (n: int, err: Option<Error>)
      modifies log
      ensures log.calls == old(log.calls) + [WriteCall(this, p)]
      ensures WriteResult(n, err) == outcome
    {
      log.calls := log.calls + [WriteCall(this, p)];
      n, err := outcome.n, outcome.err;
    }

    method Reopen(outcome: Option<Error>, ghost log: Log) returns (err: Option<Error>)
      modifies log
      ensures log.calls == old(log.calls) + [ReopenCall(this)]
      ensures err == outcome
    {
      log.calls := log.calls + [ReopenCall(this)];
      err := outcome;
    }
  }

  /** A Write of p to each member of ws, in list order. */
  function WritesTo(ws: seq<Member>, p: Bytes): (cs: seq<Call>)
    ensures |cs| == |ws|
  {
    if ws == [] then [] else WritesTo(ws[..|ws| - 1], p) + [WriteCall(ws[|ws| - 1], p)]
  }

  /** The i-th call of WritesTo(ws, p) is the Write to the i-th member. */
  lemma {:induction false} WritesToInOrder(ws: seq<Member>, p: Bytes)
    ensures forall i | 0 <= i < |ws| :: WritesTo(ws, p)[i] == WriteCall(ws[i], p)
  {
    if ws != [] {
      WritesToInOrder(ws[..|ws| - 1], p);
    }
  }

  /** A Reopen of each member of ws, in list order. */
  function ReopensTo(ws: seq<Member>): (cs: seq<Call>)
    ensures |cs| == |ws|
  {
    if ws == [] then [] else ReopensTo(ws[..|ws| - 1]) + [ReopenCall(ws[|ws| - 1])]
  }

  /** The i-th call of ReopensTo(ws) is the Reopen of the i-th member. */
  lemma {:induction false} ReopensToInOrder(ws: seq<Member>)
    ensures forall i | 0 <= i < |ws| :: ReopensTo(ws)[i] == ReopenCall(ws[i])
  {
    if ws != [] {
      ReopensToInOrder(ws[..|ws| - 1]);
    }
  }

  /** Writing p to each member of ws writes p to a member once per place it
      holds in ws, and reopens no member. */
  lemma {:induction false} WritesToEachPlace(m: Member, ws: seq<Member>, p: Bytes)
    ensures multiset(WritesTo(ws, p))[WriteCall(m, p)] == multiset(ws)[m]
    ensures multiset(WritesTo(ws, p))[ReopenCall(m)] == 0
  {
    if ws != [] {
      var front: seq<Member>, last: Member := ws[..|ws| - 1], ws[|ws| - 1];
      WritesToEachPlace(m, front, p);
      assert multiset(WritesTo(ws, p)) == multiset(WritesTo(front, p)) + multiset([WriteCall(last, p)]);
      assert multiset([WriteCall(last, p)])[WriteCall(m, p)] == multiset([last])[m];
      assert ws == front + [last];
      assert multiset(ws) == multiset(front) + multiset([last]);
    }
  }

  /** Reopening each member of ws reopens a member once per place it holds
      in ws, and writes to no member. */
  lemma {:induction false} ReopensToEachPlace(m: Member, ws: seq<Member>, p: Bytes)
    ensures multiset(ReopensTo(ws))[ReopenCall(m)] == multiset(ws)[m]
    ensures multiset(ReopensTo(ws))[WriteCall(m, p)] == 0
  {
    if ws != [] {
      var front: seq<Member>, last: Member := ws[..|ws| - 1], ws[|ws| - 1];
      ReopensToEachPlace(m, front, p);
      assert multiset(ReopensTo(ws)) == multiset(ReopensTo(front)) + multiset([ReopenCall(last)]);
      assert multiset([ReopenCall(last)])[ReopenCall(m)] == multiset([last])[m];
      assert ws == front + [last];
      assert multiset(ws) == multiset(front) + multiset([last]);
    }
  }

  /** The position of the first element of s that is not ok, or |s| when
      all are. */
  function FirstFailure<T>(s: seq<T>, ok: T -> bool): (k: nat)
    ensures k <= |s|
    ensures forall i | 0 <= i < k :: ok(s[i])
    ensures k < |s| ==> !ok(s[k])
  {
    if s == [] then 0
    else if !ok(s[0]) then 0
    else 1 + FirstFailure(s[1..], ok)
  }

  /** The first failure is the only position with every earlier element ok
      and itself not ok (or the end). */
  lemma FirstFailureAt<T>(s: seq<T>, ok: T -> bool, k: nat)
    requires k <= |s|
    requires forall i | 0 <= i < k :: ok(s[i])
    requires k < |s| ==> !ok(s[k])
    ensures FirstFailure(s, ok) == k
  {
  }

  /** A member took the whole payload without error. */
  predicate Accepted(p: Bytes, o: WriteResult)
  {
    o.err.None? && o.n == |p|
  }

  /** multiReopenWriter.Write, as a function of the members' answers:
      success with len(p), or the answer of the first member that failed,
      with ErrShortWrite in place of an absent error. */
  function FanOutWrite(p: Bytes, outcomes: seq<WriteResult>): (r: WriteResult)
    ensures r.err.None? ==> r.n == |p|
    ensures r.err.Some? <==> 0 < WriteCalls(p, outcomes) && !Accepted(p, outcomes[WriteCalls(p, outcomes) - 1])
    ensures r.err.Some? ==> r.n == outcomes[WriteCalls(p, outcomes) - 1].n
  {
    var k := FirstFailure(outcomes, o => Accepted(p, o));
    if k == |outcomes| then WriteResult(|p|, None)
    else if outcomes[k].err.Some? then outcomes[k]
    else WriteResult(outcomes[k].n, Some(ErrShortWrite))
  }

  /** How many members a Write calls: all up to and including the first
      that fails. */
  function WriteCalls(p: Bytes, outcomes: seq<WriteResult>): (c: nat)
    ensures c <= |outcomes|
    ensures forall i | 0 <= i < c - 1 :: Accepted(p, outcomes[i])
    ensures c < |outcomes| ==> 0 < c && !Accepted(p, outcomes[c - 1])
  {
    var k := FirstFailure(outcomes, o => Accepted(p, o));
    if k < |outcomes| then k + 1 else k
  }

  /** A fan-out write succeeds exactly when every member takes all of p,
      and then reports len(p). */
  lemma FanOutWriteSucceedsIff(p: Bytes, outcomes: seq<WriteResult>)
    ensures FanOutWrite(p, outcomes).err.None? <==> forall i | 0 <= i < |outcomes| :: Accepted(p, outcomes[i])
    ensures FanOutWrite(p, outcomes).err.None? ==> FanOutWrite(p, outcomes).n == |p|
  {
  }

  /** When member k is the first to fail, the fan-out answers with its
      (n, err), or with (n, ErrShortWrite) when it gave no error. */
  lemma FanOutWriteReportsFirstFailure(p: Bytes, outcomes: seq<WriteResult>, k: nat)
    requires k < |outcomes| && !Accepted(p, outcomes[k])
    requires forall i | 0 <= i < k :: Accepted(p, outcomes[i])
    ensures outcomes[k].err.Some? ==> FanOutWrite(p, outcomes) == outcomes[k]
    ensures outcomes[k].err.None? ==> FanOutWrite(p, outcomes) == WriteResult(outcomes[k].n, Some(ErrShortWrite))
    ensures WriteCalls(p, outcomes) == k + 1
  {
    FirstFailureAt(outcomes, o => Accepted(p, o), k);
  }

  /** multiReopenWriter.Reopen, as a function of the members' answers: the
      first error, or none. */
  function FanOutReopen(outcomes: seq<Option<Error>>): (r: Option<Error>)
    ensures r.Some? <==> 0 < ReopenCalls(outcomes) && outcomes[ReopenCalls(outcomes) - 1].Some?
    ensures r.Some? ==> r == outcomes[ReopenCalls(outcomes) - 1]
  {
    var k := FirstFailure(outcomes, (e: Option<Error>) => e.None?);
    if k == |outcomes| then None else outcomes[k]
  }

  /** How many members a Reopen calls: all up to and including the first
      that fails. */
  function ReopenCalls(outcomes: seq<Option<Error>>): (c: nat)
    ensures c <= |outcomes|
    ensures forall i | 0 <= i < c - 1 :: outcomes[i].None?
    ensures c < |outcomes| ==> 0 < c && outcomes[c - 1].Some?
  {
    var k := FirstFailure(outcomes, (e: Option<Error>) => e.None?);
    if k < |outcomes| then k + 1 else k
  }

  /** A fan-out reopen succeeds exactly when every member's reopen does;
      otherwise it reports the first member's error and stops there. */
  lemma FanOutReopenReportsFirstError(outcomes: seq<Option<Error>>, k: nat)
    requires k <= |outcomes|
    requires forall i | 0 <= i < k :: outcomes[i].None?
    requires k < |outcomes| ==> outcomes[k].Some?
    ensures FanOutReopen(outcomes).None? <==> k == |outcomes|
    ensures k < |outcomes| ==> FanOutReopen(outcomes) == outcomes[k] && ReopenCalls(outcomes) == k + 1
    ensures k == |outcomes| ==> ReopenCalls(outcomes) == |outcomes|
  {
    FirstFailureAt(outcomes, (e: Option<Error>) => e.None?, k);
  }

  class MultiReopenWriter {
    const writers: seq<Member>

    /** MultiWriter: the member list is copied, so it is fixed from now on. */
    constructor (writers: seq<Member>)
      ensures this.writers == writers
    {
      this.writers := writers;
    }

    /** Write p to every member in order, stopping at the first error or
        short count: the log gains exactly a Write of p to each member up to
        the first that failed, in list order. */
    method Write(p: Bytes, outcomes: seq<WriteResult>, ghost log: Log) returns (n: int, err: Option<Error>)
      requires |outcomes| == |writers|
      modifies log
      ensures WriteResult(n, err) == FanOutWrite(p, outcomes)
      ensures log.calls == old(log.calls) + WritesTo(writers[..WriteCalls(p, outcomes)], p)
    {
      var i := 0;
      while i < |writers|
        invariant 0 <= i <= |writers|
        invariant forall j | 0 <= j < i :: Accepted(p, outcomes[j])
        invariant log.calls == old(log.calls) + WritesTo(writers[..i], p)
      {
        var wn, werr := writers[i].Write(p, outcomes[i], log);
        assert writers[..i + 1][..i] == writers[..i];
        if werr.Some? || wn != |p| {
          FanOutWriteReportsFirstFailure(p, outcomes, i);
          if werr.Some? {
            return wn, werr;
          }
          return wn, Some(ErrShortWrite);
        }
        i := i + 1;
      }
      assert writers[..i] == writers;
      FanOutWriteSucceedsIff(p, outcomes);
      FirstFailureAt(outcomes, o => Accepted(p, o), i);
      return |p|, None;
    }

    /** Reopen every member in order, stopping at the first that fails: the
        log gains exactly a Reopen of each member up to the first that
        failed, in list order. */
    method Reopen(outcomes: seq<Option<Error>>, ghost log: Log) returns (err: Option<Error>)
      requires |outcomes| == |writers|
      modifies log
      ensures err == FanOutReopen(outcomes)
      ensures log.calls == old(log.calls) + ReopensTo(writers[..ReopenCalls(outcomes)])
    {
      ghost var ok := (e: Option<Error>) => e.None?;
      var i := 0;
      while i < |writers|
        invariant 0 <= i <= |writers|
        invariant forall j | 0 <= j < i :: outcomes[j].None?
        invariant log.calls == old(log.calls) + ReopensTo(writers[..i])
      {
        var e := writers[i].Reopen(outcomes[i], log);
        assert writers[..i + 1][..i] == writers[..i];
        if e.Some? {
          FirstFailureAt(outcomes, ok, i);
          return e;
        }
        i := i + 1;
      }
      assert writers[..i] == writers;
      FirstFailureAt(outcomes, ok, i);
      return None;
    }
  }
}

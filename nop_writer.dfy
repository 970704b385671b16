/** nopReopenWriter: a plain writer (one that cannot be reopened, such as a
    process's standard output) made reopenable by a Reopen that does nothing. */
module NopWriters {
  import opened Io
  import MultiWriters

  /** The adapter around a writer w, of which only Write is ever used. */
  datatype NopReopenWriter = NopReopenWriter(w: MultiWriters.Member)
  {
    /** Reopen succeeds and touches nothing: it reads no state at all. */
    function Reopen(): (err: Option<Error>)
      ensures err.None?
    {
      None
    }

    /** Write goes straight to the wrapped writer. */
    method Write(p: Bytes, outcome: MultiWriters.WriteResult, ghost log: MultiWriters.Log) returns (n: int, err: Option<Error>)
      modifies log
      ensures log.calls == old(log.calls) + [MultiWriters.WriteCall(w, p)]
      ensures MultiWriters.WriteResult(n, err) == outcome
    {
      n, err := w.Write(p, outcome, log);
    }
  }

  /** NopWriter: wrap w without copying or changing it. */
  function NopWriter(w: MultiWriters.Member): (r: NopReopenWriter)
    ensures r.w == w && r.Reopen().None?
  {
    NopReopenWriter(w)
  }

  /** A fan-out whose members are all no-op adapters reopens every one of
      them and never fails, however many there are. */
  lemma FanOutOfNopWritersReopens(ws: seq<NopReopenWriter>)
    ensures var outcomes := seq(|ws|, i requires 0 <= i < |ws| => ws[i].Reopen());
      MultiWriters.FanOutReopen(outcomes).None? && MultiWriters.ReopenCalls(outcomes) == |ws|
  {
    var outcomes := seq(|ws|, i requires 0 <= i < |ws| => ws[i].Reopen());
    MultiWriters.FanOutReopenReportsFirstError(outcomes, |ws|);
  }
}

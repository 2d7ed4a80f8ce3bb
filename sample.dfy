/**
 The records the sample hosted service emits, run through a FilterProcessor.
 Loop number i logs inside a scope "Scope {keep}" whose "keep" value is i % 2.
 Two runs are proved: one where every record arrives fresh, which is what the
 filter is meant to achieve, and one where the SDK hands out the same pooled
 record again after the batch processor has buffered it, which is what the
 program does as written.
 */
module Sample {
  import opened Scopes
  import opened FilterStage

  /** The scope `BeginScope("Scope {keep}", loop % 2)` opens: the named
      argument, then the message template under "{OriginalFormat}". */
  function SampleScope(loop: nat): Scope
  {
    [Item(KeepKey, Int((loop % 2) as Int32)), Item("{OriginalFormat}", Str("Scope {keep}"))]
  }

  /** The record handed to the filter for loop number `loop`: one live frame,
      and the buffer state `pooled` of the record it reuses (None when the
      record is new). */
  function Emit(loop: nat, pooled: Option<seq<Scope>>): LogRecord
  {
    LogRecord([SampleScope(loop)], pooled)
  }

  /** What the pool keeps of a returned record's buffer: a record that was
      buffered comes back with a buffer that is present but empty. */
  function ReturnToPool(r: LogRecord): Option<seq<Scope>>
  {
    if r.buffer.Some? then Some([]) else None
  }

  /** The record of loop number `loop` as the batch processor holds it: its
      scope chain copied into its buffer. */
  function Delivered(loop: nat): LogRecord
  {
    Buffered(Emit(loop, None))
  }

  /** Even loops carry "keep" = 0, odd loops "keep" = 1. A fresh record is
      dropped for even loops and forwarded for odd loops; a record reusing a
      buffered one is forwarded for every loop. */
  lemma SampleDecision(loop: nat)
    ensures WalkChain([SampleScope(loop)]) == if loop % 2 == 0 then Match else NoMatch
    ensures Forwards(Emit(loop, None)) <==> loop % 2 == 1
    ensures Forwards(Emit(loop, Some([])))
  {
    var scope := SampleScope(loop);
    assert "{OriginalFormat}"[0] != KeepKey[0];
    assert ScanScope(scope[1..]) == NoMatch by {
      assert scope[1..][1..] == [];
    }
    assert ScanScope(scope) == if loop % 2 == 0 then Match else NoMatch;
    var chain: seq<Scope> := [scope];
    assert chain[1..] == [];
  }

  /** The intended behaviour: run the first `n` sample records through one
      processor, each arriving fresh. The batch processor receives exactly the
      odd-numbered ones, in order, and no call throws. */
  method RunFreshSample(n: nat) returns (sent: seq<LogRecord>, allOk: bool)
    ensures sent == seq(n / 2, j requires 0 <= j => Delivered(2 * j + 1))
    ensures allOk
  {
    var p := new FilterProcessor();
    var loop := 0;
    allOk := true;
    while loop < n
      invariant 0 <= loop <= n
      invariant p.forwarded == seq(loop / 2, j requires 0 <= j => Delivered(2 * j + 1))
      invariant allOk
    {
      var r := Emit(loop, None);
      SampleDecision(loop);
      SecondWalkAgrees(r);
      var status, data := p.OnEnd(r);
      allOk := allOk && status == Ok;
      if loop % 2 == 1 {
        assert loop == 2 * (loop / 2) + 1;
        assert seq((loop + 1) / 2, j requires 0 <= j => Delivered(2 * j + 1))
            == seq(loop / 2, j requires 0 <= j => Delivered(2 * j + 1)) + [Delivered(loop)];
      }
      loop := loop + 1;
    }
    sent := p.forwarded;
  }

  /** The program as written: run the first `n` sample records through one
      processor, where each emission reuses the record of the previous one.
      Loop 0 is dropped and loop 1 forwarded; from then on every record
      arrives with an empty buffer, so the filter sees no scopes and every
      record is forwarded, including those that carry "keep" = 0. No call
      throws. */
  method RunPooledSample(n: nat) returns (sent: seq<LogRecord>, allOk: bool)
    ensures sent == seq(if n == 0 then 0 else n - 1, j requires 0 <= j => Delivered(j + 1))
    ensures n >= 3 ==> ChainHasKeepZero(sent[1].scopes)
    ensures allOk
  {
    var p := new FilterProcessor();
    var pooled: Option<seq<Scope>> := None;
    var loop := 0;
    allOk := true;
    while loop < n
      invariant 0 <= loop <= n
      invariant pooled == if loop >= 2 then Some([]) else None
      invariant p.forwarded == seq(if loop == 0 then 0 else loop - 1, j requires 0 <= j => Delivered(j + 1))
      invariant allOk
    {
      var r := Emit(loop, pooled);
      SampleDecision(loop);
      if loop < 2 {
        SecondWalkAgrees(r);
      } else {
        StaleBufferBypassesFilter(r);
      }
      var status, data := p.OnEnd(r);
      allOk := allOk && status == Ok;
      pooled := ReturnToPool(data);
      if loop >= 1 {
        assert seq(loop, j requires 0 <= j => Delivered(j + 1))
            == seq(loop - 1, j requires 0 <= j => Delivered(j + 1)) + [Delivered(loop)];
      }
      loop := loop + 1;
    }
    sent := p.forwarded;
    if n >= 3 {
      assert IsKeepZero(SampleScope(2)[0]);
      assert HasKeepZero(sent[1].scopes[0]);
    }
  }
}

/**
 The FilterProcessor: a composite log processor that walks each record's
 scopes with a static callback, which raises a flag when it sees "keep" = 0,
 and hands the record to its wrapped batch processor only while the flag is
 down.
 */
module FilterStage {
  import opened Scopes

  /** How a call ends: normally, or with the exception the `(int)` cast throws
      on a "keep" value that is not a boxed int. */
  datatype Status = Ok | CastThrows

  /** The walk decides to forward the record: it neither matched nor threw. */
  predicate Forwards(r: LogRecord)
  {
    WalkChain(Visited(r)) == NoMatch
  }

  /** The record as the second walk sees it: buffered by the batch processor
      when it was forwarded, untouched when it was dropped. */
  function AfterHandOff(r: LogRecord): LogRecord
  {
    if Forwards(r) then Buffered(r) else r
  }

  class FilterProcessor {
    /** The `_filter` flag: one thread's copy of the ThreadLocal<bool>. */
    var filter: bool
    /** The records handed to the wrapped batch processor, oldest first. */
    var forwarded: seq<LogRecord>

    constructor ()
      ensures !filter && forwarded == []
    {
      filter := false;
      forwarded := [];
    }

    /** The scope callback. A raised flag makes it return at once; otherwise it
        scans the frame's items in order, raises the flag at the first "keep"
        = 0 and stops, and throws if the cast meets a value that is not a
        boxed int first. It never lowers the flag. */
    method Filter(scope: Scope) returns (status: Status)
      modifies this`filter
      ensures old(filter) ==> filter && status == Ok
      ensures !old(filter) ==> filter == (ScanScope(scope) == Match)
      ensures !old(filter) ==> (status == CastThrows <==> ScanScope(scope) == CastError)
    {
      if filter {
        return Ok;
      }
      var i := 0;
      while i < |scope|
        invariant 0 <= i <= |scope|
        invariant !filter
        invariant ScanScope(scope[i..]) == ScanScope(scope)
      {
        var item := scope[i];
        if item.key == KeepKey {
          match item.value
          case Int(n) =>
            if n == 0 {
              filter := true;
              return Ok;
            }
          case _ =>
            return CastThrows;
        }
        assert scope[i..][1..] == scope[i + 1..];
        i := i + 1;
      }
      return Ok;
    }

    /** `data.ForEachScope(Filter, data)`: the callback runs on every frame the
        record visits, in order, and an exception from it ends the walk. The
        flag ends up raised exactly when it was raised before or the walk
        matched. */
    method ForEachScope(r: LogRecord) returns (status: Status)
      modifies this`filter
      ensures filter == (old(filter) || WalkChain(Visited(r)) == Match)
      ensures status == (if !old(filter) && WalkChain(Visited(r)) == CastError then CastThrows else Ok)
    {
      var chain := Visited(r);
      var i := 0;
      status := Ok;
      while i < |chain|
        invariant 0 <= i <= |chain|
        invariant status == Ok
        invariant filter == (old(filter) || WalkChain(chain[..i]) == Match)
        invariant !old(filter) ==> WalkChain(chain[..i]) != CastError
      {
        WalkChainAppend(chain[..i], [chain[i]]);
        assert chain[..i + 1] == chain[..i] + [chain[i]];
        assert WalkChain([chain[i]]) == ScanScope(chain[i]);
        status := Filter(chain[i]);
        if status == CastThrows {
          WalkChainAppend(chain[..i + 1], chain[i + 1..]);
          assert chain[..i + 1] + chain[i + 1..] == chain;
          return;
        }
        i := i + 1;
      }
      assert chain[..i] == chain;
    }

    /** Clear the flag, walk the scopes, forward the record if the flag is still
        down, then clear the flag and walk the scopes again. The caller and the
        batch processor share the record, so `data` is the record as the
        caller holds it afterwards: buffered when it was forwarded. The decision
        and the new state depend only on the record, never on earlier calls. */
    method OnEnd(r: LogRecord) returns (status: Status, data: LogRecord)
      modifies this
      ensures data == AfterHandOff(r)
      ensures forwarded == if Forwards(r) then old(forwarded) + [Buffered(r)] else old(forwarded)
      ensures status == (if WalkChain(Visited(r)) == CastError
                           || WalkChain(Visited(AfterHandOff(r))) == CastError
                         then CastThrows else Ok)
      ensures filter == (WalkChain(Visited(r)) != CastError
                         && WalkChain(Visited(AfterHandOff(r))) == Match)
    {
      data := r;
      filter := false;
      status := ForEachScope(data);
      if status == CastThrows {
        return;
      }
      if !filter {
        // base.OnEnd: the batch processor takes the record and buffers its scopes
        data := Buffered(data);
        forwarded := forwarded + [data];
      }
      filter := false;
      status := ForEachScope(data);
    }
  }

  /** A record is forwarded exactly when every visited "keep" value is a boxed
      int and no visited frame holds "keep" = 0; on a record whose visited
      "keep" values are all boxed ints the first walk does not throw. */
  lemma ForwardIffNoKeepZero(r: LogRecord)
    ensures Forwards(r) <==> ChainWellTyped(Visited(r)) && !ChainHasKeepZero(Visited(r))
    ensures ChainWellTyped(Visited(r)) ==> WalkChain(Visited(r)) != CastError
  {
    WalkChainDecides(Visited(r));
  }

  /** For a record that has no buffer yet, the second walk sees the same frames
      as the first, so it cannot disagree with the decision: the flag left
      behind is raised exactly when the record was dropped, and the call
      throws in neither walk when the "keep" values are boxed ints. */
  lemma SecondWalkAgrees(r: LogRecord)
    requires r.buffer.None?
    ensures Visited(AfterHandOff(r)) == Visited(r) == r.scopes
    ensures WalkChain(Visited(r)) != CastError ==>
      (WalkChain(Visited(AfterHandOff(r))) == Match <==> !Forwards(r))
    ensures ChainWellTyped(r.scopes) ==>
      WalkChain(Visited(AfterHandOff(r))) != CastError
      && (WalkChain(Visited(AfterHandOff(r))) == Match <==> ChainHasKeepZero(r.scopes))
  {
    WalkChainDecides(r.scopes);
  }

  /** A pooled record that arrives with an empty buffer is forwarded whatever
      its scopes hold: the first walk visits nothing. After the hand-off the
      second walk sees the live frames, so on a record holding "keep" = 0 the
      flag is left raised although the record was already forwarded. */
  lemma StaleBufferBypassesFilter(r: LogRecord)
    requires r.buffer == Some([])
    ensures Forwards(r)
    ensures Visited(AfterHandOff(r)) == r.scopes
    ensures ChainWellTyped(r.scopes) ==>
      (WalkChain(Visited(AfterHandOff(r))) == Match <==> ChainHasKeepZero(r.scopes))
  {
    WalkChainDecides(r.scopes);
  }

  /** The drop decision is the same whatever order the visited frames come in,
      as long as every "keep" value is a boxed int. */
  lemma DecisionIgnoresFrameOrder(r: LogRecord, s: LogRecord)
    requires ChainWellTyped(Visited(r))
    requires multiset(Visited(r)) == multiset(Visited(s))
    ensures Forwards(r) == Forwards(s)
  {
    WalkChainPermutation(Visited(r), Visited(s));
  }
}

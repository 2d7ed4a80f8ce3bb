/**
 The data a FilterProcessor inspects: the values attached to scope items, the
 scope frames of a log record, the record itself with its scope buffer, and
 the specification of the "keep = 0" test over one frame and over a chain of
 frames.
 */
module Scopes {

  /** A boxed C# `int` is a 32-bit signed integer. */
  newtype Int32 = x: int | -0x8000_0000 <= x < 0x8000_0000

  /** The value half of a scope item (a `KeyValuePair<string, object>`). */
  datatype Value =
    | Int(n: Int32)   // a boxed int, or a boxed enum whose underlying type is int:
                      // the values the `(int)` unboxing cast accepts
    | Str(s: string)  // a string, such as a message template; the cast throws
    | Other           // null (the cast throws NullReferenceException), or a boxed
                      // value of any other type such as long or double (it throws
                      // InvalidCastException)

  /** One key/value pair of a scope. */
  datatype Item = Item(key: string, value: Value)

  /** A scope frame: its items in enumeration order. */
  type Scope = seq<Item>

  /** The key the filter looks for. */
  const KeepKey: string := "keep"

  datatype Option<T> = None | Some(value: T)

  /**
   A log record as far as scopes are concerned: the live scope chain captured
   when the record was emitted, in the order the scope provider visits it, and
   the record's scope buffer. The buffer is None for a record that no batch
   processor has buffered yet, and Some(frames) once one has. A pooled record
   that went through a batch processor before is ASSUMED to come back with a
   buffer that is present but empty: the code's own comment says only that its
   buffer is not null and that the walk then visits nothing.
   */
  datatype LogRecord = LogRecord(scopes: seq<Scope>, buffer: Option<seq<Scope>>)

  /** The frames `LogRecord.ForEachScope` visits, in order: the buffered frames
      when the record has a buffer, otherwise the live chain. */
  function Visited(r: LogRecord): seq<Scope>
  {
    match r.buffer
    case Some(frames) => frames
    case None => r.scopes
  }

  /** The record as the batch processor leaves it after accepting it: the live
      chain has been copied into the buffer. */
  function Buffered(r: LogRecord): LogRecord
  {
    r.(buffer := Some(r.scopes))
  }

  /** The item that makes the filter drop a record: key "keep", boxed int 0. */
  predicate IsKeepZero(item: Item)
  {
    item.key == KeepKey && item.value == Int(0)
  }

  /** An item on which the `(int)` cast throws: key "keep", value not a boxed int. */
  predicate CastFails(item: Item)
  {
    item.key == KeepKey && !item.value.Int?
  }

  /** Some item of the frame is "keep" = 0. */
  predicate HasKeepZero(scope: Scope)
  {
    exists i :: 0 <= i < |scope| && IsKeepZero(scope[i])
  }

  /** No item of the frame makes the cast throw. */
  predicate WellTyped(scope: Scope)
  {
    forall i :: 0 <= i < |scope| ==> !CastFails(scope[i])
  }

  /** Some frame of the chain holds "keep" = 0. */
  predicate ChainHasKeepZero(chain: seq<Scope>)
  {
    exists j :: 0 <= j < |chain| && HasKeepZero(chain[j])
  }

  /** No frame of the chain makes the cast throw. */
  predicate ChainWellTyped(chain: seq<Scope>)
  {
    forall j :: 0 <= j < |chain| ==> WellTyped(chain[j])
  }

  /** What a scan of one frame, or a walk of a chain, comes to. */
  datatype Scan =
    | NoMatch    // finished without finding "keep" = 0
    | Match      // found "keep" = 0 and stopped there
    | CastError  // the cast threw before any "keep" = 0 was found

  /** One scan of a frame from a clear flag: items in order; the first item
      that is "keep" = 0 or on which the cast throws ends the scan. */
  function ScanScope(scope: Scope): Scan
  {
    if scope == [] then NoMatch
    else if IsKeepZero(scope[0]) then Match
    else if CastFails(scope[0]) then CastError
    else ScanScope(scope[1..])
  }

  /** One walk of a chain from a clear flag: frames in order; once a frame
      matches, the later frames are skipped, and a throwing frame aborts. */
  function WalkChain(chain: seq<Scope>): Scan
  {
    if chain == [] then NoMatch
    else if ScanScope(chain[0]) == NoMatch then WalkChain(chain[1..])
    else ScanScope(chain[0])
  }

  /** A frame scans to Match exactly when some item is "keep" = 0 and no item
      before it makes the cast throw: the scan stops at the first such item. */
  lemma {:induction false} ScanScopeMatch(scope: Scope)
    ensures ScanScope(scope) == Match <==>
      exists k :: 0 <= k < |scope| && IsKeepZero(scope[k]) && WellTyped(scope[..k])
  {
    if scope != [] {
      var tail := scope[1..];
      ScanScopeMatch(tail);
      if IsKeepZero(scope[0]) {
        assert WellTyped(scope[..0]);
      } else if CastFails(scope[0]) {
        forall k | 0 < k < |scope|
          ensures !WellTyped(scope[..k])
        {
          assert scope[..k][0] == scope[0];
        }
      } else {
        // the head neither matches nor throws: witnesses shift by one
        forall k | 0 < k <= |scope|
          ensures WellTyped(scope[..k]) <==> WellTyped(tail[..k - 1])
        {
          assert scope[..k] == [scope[0]] + tail[..k - 1];
          assert forall i :: 0 < i < k ==> scope[..k][i] == tail[..k - 1][i - 1];
          assert !CastFails(scope[..k][0]);
        }
        if ScanScope(scope) == Match {
          var k :| 0 <= k < |tail| && IsKeepZero(tail[k]) && WellTyped(tail[..k]);
          assert IsKeepZero(scope[k + 1]) && WellTyped(scope[..k + 1]);
        }
        if exists k :: 0 <= k < |scope| && IsKeepZero(scope[k]) && WellTyped(scope[..k]) {
          var k :| 0 <= k < |scope| && IsKeepZero(scope[k]) && WellTyped(scope[..k]);
          assert k > 0;
          assert IsKeepZero(tail[k - 1]) && WellTyped(tail[..k - 1]);
        }
      }
    }
  }

  /** A frame scans to CastError exactly when some "keep" item holds a value
      that is not a boxed int and no item before it is "keep" = 0. */
  lemma {:induction false} ScanScopeCastError(scope: Scope)
    ensures ScanScope(scope) == CastError <==>
      exists k :: 0 <= k < |scope| && CastFails(scope[k]) && !HasKeepZero(scope[..k])
  {
    if scope != [] {
      var tail := scope[1..];
      ScanScopeCastError(tail);
      if IsKeepZero(scope[0]) {
        forall k | 0 < k < |scope|
          ensures HasKeepZero(scope[..k])
        {
          assert IsKeepZero(scope[..k][0]);
        }
      } else if CastFails(scope[0]) {
        assert !HasKeepZero(scope[..0]);
      } else {
        forall k | 0 < k <= |scope|
          ensures HasKeepZero(scope[..k]) <==> HasKeepZero(tail[..k - 1])
        {
          assert scope[..k] == [scope[0]] + tail[..k - 1];
          if HasKeepZero(scope[..k]) {
            var i :| 0 <= i < k && IsKeepZero(scope[..k][i]);
            assert i > 0 && IsKeepZero(tail[..k - 1][i - 1]);
          }
          if HasKeepZero(tail[..k - 1]) {
            var i :| 0 <= i < k - 1 && IsKeepZero(tail[..k - 1][i]);
            assert IsKeepZero(scope[..k][i + 1]);
          }
        }
        if ScanScope(scope) == CastError {
          var k :| 0 <= k < |tail| && CastFails(tail[k]) && !HasKeepZero(tail[..k]);
          assert CastFails(scope[k + 1]) && !HasKeepZero(scope[..k + 1]);
        }
        if exists k :: 0 <= k < |scope| && CastFails(scope[k]) && !HasKeepZero(scope[..k]) {
          var k :| 0 <= k < |scope| && CastFails(scope[k]) && !HasKeepZero(scope[..k]);
          assert k > 0;
          assert CastFails(tail[k - 1]) && !HasKeepZero(tail[..k - 1]);
        }
      }
    }
  }

  /** The three scan outcomes in terms of the frame's contents: a match means
      "keep" = 0 is present, no match means it is absent and every "keep"
      value is a boxed int, and on such a frame the scan is exactly the test
      "some item is keep = 0". */
  lemma ScanScopeDecides(scope: Scope)
    ensures ScanScope(scope) == Match ==> HasKeepZero(scope)
    ensures ScanScope(scope) == NoMatch ==> !HasKeepZero(scope) && WellTyped(scope)
    ensures ScanScope(scope) == CastError ==> !WellTyped(scope)
    ensures WellTyped(scope) ==> (ScanScope(scope) == Match <==> HasKeepZero(scope))
  {
    ScanScopeMatch(scope);
    ScanScopeCastError(scope);
    if ScanScope(scope) == NoMatch {
      if !WellTyped(scope) {
        // the first throwing item would have been reached unless a match came first
        var k :| 0 <= k < |scope| && CastFails(scope[k]);
        FirstWitness(scope, k);
      }
    }
  }

  /** Helper for ScanScopeDecides: below a throwing item there is either a
      throwing item with no "keep" = 0 before it, or a "keep" = 0 with no
      throwing item before it. */
  lemma {:induction false} FirstWitness(scope: Scope, k: nat)
    requires k < |scope| && CastFails(scope[k])
    ensures (exists m :: 0 <= m < |scope| && CastFails(scope[m]) && !HasKeepZero(scope[..m]))
         || (exists m :: 0 <= m < |scope| && IsKeepZero(scope[m]) && WellTyped(scope[..m]))
  {
    if !HasKeepZero(scope[..k]) {
    } else if WellTyped(scope[..k]) {
      var i :| 0 <= i < k && IsKeepZero(scope[..k][i]);
      assert IsKeepZero(scope[i]);
      assert scope[..i] == scope[..k][..i];
      assert WellTyped(scope[..i]);
    } else {
      var i :| 0 <= i < k && CastFails(scope[..k][i]);
      FirstWitness(scope, i);
    }
  }

  /** Walking a chain split in two: the second part is reached only when the
      first part neither matched nor threw, so frames after the deciding one
      are never inspected. */
  lemma {:induction false} WalkChainAppend(first: seq<Scope>, rest: seq<Scope>)
    ensures WalkChain(first + rest) ==
      if WalkChain(first) == NoMatch then WalkChain(rest) else WalkChain(first)
  {
    if first == [] {
      assert first + rest == rest;
    } else {
      assert (first + rest)[0] == first[0];
      assert (first + rest)[1..] == first[1..] + rest;
      WalkChainAppend(first[1..], rest);
    }
  }

  /** The walk's outcome in terms of the chain's contents: on a chain whose
      "keep" values are all boxed ints it never throws, and it matches exactly
      when some frame, wherever it stands, holds "keep" = 0. */
  lemma {:induction false} WalkChainDecides(chain: seq<Scope>)
    ensures WalkChain(chain) == Match ==> ChainHasKeepZero(chain)
    ensures WalkChain(chain) == NoMatch ==> !ChainHasKeepZero(chain) && ChainWellTyped(chain)
    ensures WalkChain(chain) == CastError ==> !ChainWellTyped(chain)
    ensures ChainWellTyped(chain) ==>
      WalkChain(chain) != CastError && (WalkChain(chain) == Match <==> ChainHasKeepZero(chain))
  {
    if chain != [] {
      ScanScopeDecides(chain[0]);
      WalkChainDecides(chain[1..]);
      assert forall j :: 1 <= j < |chain| ==> chain[j] == chain[1..][j - 1];
      if ChainHasKeepZero(chain[1..]) {
        var j :| 0 <= j < |chain[1..]| && HasKeepZero(chain[1..][j]);
        assert HasKeepZero(chain[j + 1]);
      }
      if !ChainWellTyped(chain[1..]) {
        var j :| 0 <= j < |chain[1..]| && !WellTyped(chain[1..][j]);
        assert !WellTyped(chain[j + 1]);
      }
    }
  }

  /** On a chain whose "keep" values are all boxed ints, the walk's outcome
      does not depend on the order of the frames. */
  lemma WalkChainPermutation(chain: seq<Scope>, other: seq<Scope>)
    requires ChainWellTyped(chain)
    requires multiset(chain) == multiset(other)
    ensures WalkChain(chain) == WalkChain(other)
  {
    forall j | 0 <= j < |other|
      ensures WellTyped(other[j])
    {
      assert other[j] in multiset(chain);
      var i :| 0 <= i < |chain| && chain[i] == other[j];
    }
    if ChainHasKeepZero(chain) {
      var i :| 0 <= i < |chain| && HasKeepZero(chain[i]);
      assert chain[i] in multiset(other);
      var j :| 0 <= j < |other| && other[j] == chain[i];
    }
    if ChainHasKeepZero(other) {
      var j :| 0 <= j < |other| && HasKeepZero(other[j]);
      assert other[j] in multiset(chain);
      var i :| 0 <= i < |chain| && chain[i] == other[j];
    }
    WalkChainDecides(chain);
    WalkChainDecides(other);
  }

  /** Once a "keep" value is not a boxed int, frame order matters: the same
      two frames throw in one order and drop the record in the other. */
  lemma MalformedKeepMakesOrderMatter()
    ensures var bad := [Item(KeepKey, Str("0"))];
            var zero := [Item(KeepKey, Int(0))];
            WalkChain([bad, zero]) == CastError && WalkChain([zero, bad]) == Match
  {
    var bad := [Item(KeepKey, Str("0"))];
    var zero := [Item(KeepKey, Int(0))];
    assert ScanScope(bad) == CastError;
    assert ScanScope(zero) == Match;
  }
}

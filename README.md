# FilterProcessor: dropping log records whose scopes say "keep" = 0

This project models the `FilterProcessor` of the ForEachScopeProblem sample.
It is an OpenTelemetry composite log processor that wraps a batch export
processor. For each log record that ends (`OnEnd`), it does five things in order:

1. It clears its `_filter` flag.
2. It walks the record's scopes with `LogRecord.ForEachScope`, passing the static callback `Filter`.
3. It hands the record to the wrapped processor (`base.OnEnd`) only if the flag is still down.
4. It clears the flag again.
5. It walks the scopes a second time.

`Filter` returns at once if the flag is already raised. Otherwise it scans the
scope's key/value items in order. It raises the flag and stops at the first item
whose key is `"keep"` and whose value, cast with `(int)`, is `0`.

The model has three modules:

- `Scopes` (scopes.dfy) holds the data and the specification:
  - scope values, items and frames;
  - a log record with its live scope chain and its scope buffer;
  - `ScanScope`, the outcome of scanning one frame;
  - `WalkChain`, the outcome of walking a chain of frames;
  - the lemmas that state what those outcomes mean in terms of the frames' contents.
- `FilterStage` (filter_processor.dfy) holds:
  - the class `FilterProcessor`, with the flag as a field and the records handed downstream as a field `forwarded`;
  - its methods `Filter`, `ForEachScope` and `OnEnd`, each proved against the specification functions;
  - lemmas about the forwarding decision.
- `Sample` (sample.dfy) builds the records the sample's hosted service emits and runs them through one processor twice:
  - with every record arriving fresh, exactly the odd-numbered ones are forwarded, which is what the filter is meant to do;
  - with the SDK reusing one pooled record, every record from loop 1 on is forwarded, including those with "keep" = 0, which is what the program does as written.

Modelling decisions:

- The cast `(int)scopeItem.Value` throws when the value under `"keep"` is not a boxed int. That covers null (NullReferenceException), strings and other boxed types (InvalidCastException). A boxed enum whose underlying type is int unboxes like an int. The model returns the exception as the error outcome `CastThrows`. The exception propagates out of the walk and out of `OnEnd`, and the model stops the call at that point. The code does not treat such a value as "no match", and neither does the model.
- `LogRecord.ForEachScope` is library code. The model takes it to visit the record's buffered frames when the record has a buffer, and its live chain otherwise, in list order.
- `base.OnEnd` is modelled by two effects. It fills the record's buffer with the live chain, as the batch processor does when it accepts a record. It appends that buffered record to `forwarded`. The caller and the batch processor share the record object, so `OnEnd` also returns the record as the caller holds it afterwards.
- The comment at Program.cs:52-54 says that a record that went through the batch processor before has a buffer that is not null, and that the walk then does not run. The model ASSUMES from this comment that such a pooled record comes back with a buffer that is present but empty, and represents it as `buffer == Some([])`. The library code that does this is not part of this model.
- The thread-local flag is one field of one sequential processor.

## Model

| member | source | states |
|---|---|---|
| Scopes.ScanScopeMatch | ForEachScopeProblem/Program.cs:69-75 | scanning a frame finds "keep" = 0 exactly when such an item exists and no item before it holds a "keep" value that is not a boxed int; the scan stops at the first such item |
| Scopes.ScanScopeCastError | ForEachScopeProblem/Program.cs:71 | the cast throws exactly when some "keep" item holds a value that is not a boxed int and no "keep" = 0 item comes before it |
| Scopes.ScanScopeDecides | ForEachScopeProblem/Program.cs:69-76 | a match implies the frame holds "keep" = 0; finishing without a match implies it holds none and every "keep" value is an int; on such a frame the scan is exactly the "has keep = 0" test |
| Scopes.WalkChainAppend | ForEachScopeProblem/Program.cs:67 | once a frame has matched or thrown, later frames cannot change the outcome of the walk (the raised flag makes Filter return at once) |
| Scopes.WalkChainDecides | ForEachScopeProblem/Program.cs:65-77 | a walk over a chain whose "keep" values are ints never throws, and it matches exactly when some frame, in any position, holds "keep" = 0 |
| Scopes.WalkChainPermutation | ForEachScopeProblem/Program.cs:65-77 | on such a chain the walk's outcome does not depend on the order of the frames |
| Scopes.MalformedKeepMakesOrderMatter | ForEachScopeProblem/Program.cs:71 | with a non-int "keep" value, frame order decides between throwing and dropping: [bad, zero] throws, [zero, bad] matches |
| FilterStage.FilterProcessor.constructor | ForEachScopeProblem/Program.cs:79 | the flag starts down and nothing has been forwarded |
| FilterStage.FilterProcessor.Filter | ForEachScopeProblem/Program.cs:65-77 | a raised flag makes it return at once, changing nothing; otherwise the flag ends up raised exactly when the frame scans to a match, and the call throws exactly when the scan meets a failing cast first; the flag is never lowered |
| FilterStage.FilterProcessor.ForEachScope | ForEachScopeProblem/Program.cs:55 | the callback runs on each visited frame in order; afterwards the flag is raised exactly when it was raised before or the walk over the visited frames matched; it throws exactly when the flag was down and the walk meets a failing cast |
| FilterStage.FilterProcessor.OnEnd | ForEachScopeProblem/Program.cs:49-63 | the record, buffered by the hand-off, is appended to the downstream log exactly once when the first walk neither matches nor throws, and the log is unchanged otherwise; the caller's record is left buffered exactly when it was forwarded; the final flag and the outcome depend only on the record (the second walk sees the record as the hand-off left it), never on earlier calls |
| FilterStage.ForwardIffNoKeepZero | ForEachScopeProblem/Program.cs:51-58 | any record is forwarded exactly when every visited "keep" value is an int and no visited frame holds "keep" = 0; when the visited "keep" values are ints, the first walk does not throw |
| FilterStage.SecondWalkAgrees | ForEachScopeProblem/Program.cs:60-62 | for a record with no buffer yet, the second walk sees the same frames as the first, so the flag it leaves is raised exactly when the record was dropped |
| FilterStage.StaleBufferBypassesFilter | ForEachScopeProblem/Program.cs:52-58 | a record arriving with an empty buffer is forwarded whatever its scopes hold; the second walk then sees its live frames and raises the flag exactly when they hold "keep" = 0 |
| FilterStage.DecisionIgnoresFrameOrder | ForEachScopeProblem/Program.cs:55-58 | the forward/drop decision is the same for any reordering of the visited frames when all "keep" values are ints |
| Sample.SampleDecision | ForEachScopeProblem/Program.cs:96 | a fresh record logged in scope "Scope {keep}" with keep = loop % 2 is dropped for even loops and forwarded for odd loops; a record that reuses a buffered one is forwarded for every loop |
| Sample.RunFreshSample | ForEachScopeProblem/Program.cs:91-101 | the intended behaviour: when every sample record arrives fresh, one processor forwards exactly the odd-numbered records, in order, and no call throws |
| Sample.RunPooledSample | ForEachScopeProblem/Program.cs:52-58 | the behaviour as written, when each emission reuses the previous record: loop 0 is dropped, every record from loop 1 on is forwarded in order, including loop 2's "keep" = 0 record, and no call throws |

## Left out

- Host bootstrap and logging configuration (Program.cs:8-28): framework wiring and I/O.
- `Extenstions.AddFilteredAsyncConsoleExporter` (Program.cs:30-41): only library constructor calls. The 100 ms scheduled delay belongs to the batch processor.
- Internals of `BatchLogRecordExportProcessor`, `ConsoleLogRecordExporter`, `CompositeProcessor` and `LogRecord.ForEachScope`. This is library code whose source is not part of this model. The batch processor is reduced to the `forwarded` log plus the buffering of the record's scopes. Its timer-driven flushing, batching and console rendering are left out.
- Per-thread isolation of the `ThreadLocal<bool>` flag (Program.cs:79): the model is one sequential processor, so concurrent `OnEnd` calls on different threads are not modelled.
- `HostedService` (Program.cs:82-103): its async loop, `Task.Delay` and cancellation are left out. Only the shape of the records it emits is used, in `Sample`.
- The record's message, timestamp and level are left out. Only its scopes affect the filter.
- Sample.RunPooledSample: the record pool is reduced to one record, reused by every emission after the previous record has left the batch processor. A returned record keeps its buffer, emptied. Both are assumptions taken from the comment at Program.cs:52-54, since the pool's code is not part of this model.
- What the SDK does with an exception thrown out of `OnEnd` is left out. The model reports it as the `CastThrows` outcome of the call.
- FilterStage.FilterProcessor.OnEnd: the batch processor is assumed to fill the buffer with exactly the live chain. A stale buffer that is not empty is not appended to.

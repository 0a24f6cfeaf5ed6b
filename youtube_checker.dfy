/**
 * The session lookup cache and the batch client in front of the remote
 * handle-availability service.  The remote call is not made here: its outcome
 * is a `Response` passed in, and what would be sent is returned as `request`.
 */
module YoutubeChecker {
  import opened Wrappers

  datatype Status = Available | Taken | Error | Checking

  /** When a result was produced; nothing is assumed about it. */
  datatype Timestamp = Timestamp(millis: int)

  datatype HandleResult = HandleResult(handle: string, status: Status, error: Option<string>, checkedAt: Timestamp)

  /** What one call to the remote service comes back with. */
  datatype Response =
    | Success(records: seq<HandleResult>)   // no error, and the body holds an array of records
    | Malformed                             // no error, but the body holds no array
    | ServiceError(message: Option<string>) // the service reported an error, with its message if any
    | Thrown(message: Option<string>)       // the call itself failed; the message when it threw an `Error`

  /** One call of the progress callback: `onProgress(completed, total)`. */
  datatype ProgressTick = ProgressTick(completed: nat, total: nat)

  const FallbackMessage := "Failed to check handle"
  const InvalidResponseMessage := "Invalid response from backend"
  const MissingResultMessage := "Handle check failed"

  type Cache = map<string, HandleResult>

  /** Every cached result is stored under its own handle. */
  predicate KeyedByHandle(m: Cache) {
    forall k :: k in m ==> m[k].handle == k
  }

  function ErrorResult(handle: string, message: string, now: Timestamp): HandleResult {
    HandleResult(handle, Error, Some(message), now)
  }

  /**
   * `handles.filter(h => !handleCache.has(h))`: the handles to send, in order,
   * duplicates kept. `UncachedSingle` and `UncachedAppend` fix the result:
   * each handle is kept or dropped on its own, and the pieces are concatenated.
   */
  function Uncached(m: Cache, handles: seq<string>): (r: seq<string>)
    ensures |r| <= |handles|
    ensures forall h :: h in r <==> h in handles && h !in m
  {
    if handles == [] then []
    else (if handles[0] in m then [] else [handles[0]]) + Uncached(m, handles[1..])
  }

  /** One handle is sent exactly when it is not cached. */
  lemma UncachedSingle(m: Cache, h: string)
    ensures Uncached(m, [h]) == if h in m then [] else [h]
  {
    assert [h][1..] == [];
  }

  /** Filtering a concatenation filters each part, and keeps the parts in order. */
  lemma {:induction false} UncachedAppend(m: Cache, a: seq<string>, b: seq<string>)
    ensures Uncached(m, a + b) == Uncached(m, a) + Uncached(m, b)
  {
    if a == [] {
      assert a + b == b;
    } else {
      assert (a + b)[1..] == a[1..] + b;
      UncachedAppend(m, a[1..], b);
    }
  }

  /** After `clearHandleCache`, every handle of a batch is sent again. */
  lemma {:induction false} UncachedOfEmpty(handles: seq<string>)
    ensures Uncached(map[], handles) == handles
  {
    if handles != [] {
      UncachedOfEmpty(handles[1..]);
    }
  }

  /**
   * The message stored for every uncached handle when the batch call fails:
   * the error's message, or the fallback text when there is none (or, for a
   * reported error, when it is empty).
   */
  function FailureMessage(resp: Response): (msg: string)
    requires !resp.Success?
    ensures msg == FallbackMessage || ((resp.ServiceError? || resp.Thrown?) && resp.message == Some(msg))
    ensures msg == [] <==> resp == Thrown(Some([]))
    ensures resp.Malformed? ==> msg == FallbackMessage
    ensures resp.ServiceError? ==>
      msg == (if resp.message.Some? && resp.message.value != [] then resp.message.value else FallbackMessage)
    ensures resp.Thrown? ==> msg == (if resp.message.Some? then resp.message.value else FallbackMessage)
  {
    match resp
    case Malformed => FallbackMessage
    case ServiceError(m) => if m.Some? && m.value != [] then m.value else FallbackMessage
    case Thrown(m) => m.GetOr(FallbackMessage)
  }

  /** The cache after a failed batch: an error result for every handle sent, the rest as before. */
  function MarkFailed(m: Cache, sent: seq<string>, msg: string, now: Timestamp): (r: Cache)
    ensures r.Keys == m.Keys + set h | h in sent
  {
    map k | k in m.Keys + (set h | h in sent) :: if k in sent then ErrorResult(k, msg, now) else m[k]
  }

  lemma MarkFailedSnoc(m: Cache, sent: seq<string>, h: string, msg: string, now: Timestamp)
    ensures MarkFailed(m, sent + [h], msg, now) == MarkFailed(m, sent, msg, now)[h := ErrorResult(h, msg, now)]
  {
    var a := MarkFailed(m, sent + [h], msg, now);
    var b := MarkFailed(m, sent, msg, now)[h := ErrorResult(h, msg, now)];
    assert a.Keys == b.Keys;
    forall k | k in a ensures a[k] == b[k] {
      if k != h && k in sent + [h] { assert k in sent; }
    }
  }

  /** The cache after a successful batch: each echoed record written under its own handle, in order. */
  function MergeRecords(m: Cache, records: seq<HandleResult>): (r: Cache)
    ensures m.Keys <= r.Keys
  {
    if records == [] then m
    else
      var last := records[|records| - 1];
      MergeRecords(m, records[..|records| - 1])[last.handle := last]
  }

  /** A key is present after the merge exactly when it was before or some record echoes it. */
  lemma {:induction false} MergeRecordsKeys(m: Cache, records: seq<HandleResult>, k: string)
    ensures k in MergeRecords(m, records) <==> k in m || exists j :: 0 <= j < |records| && records[j].handle == k
  {
    if records != [] {
      var n := |records| - 1;
      MergeRecordsKeys(m, records[..n], k);
      if exists j :: 0 <= j < n && records[..n][j].handle == k {
        var j :| 0 <= j < n && records[..n][j].handle == k;
        assert records[j].handle == k;
      }
      if exists j :: 0 <= j < |records| && records[j].handle == k {
        var j :| 0 <= j < |records| && records[j].handle == k;
        if j < n { assert records[..n][j].handle == k; }
      }
    }
  }

  /** A key no record echoes keeps its entry. */
  lemma {:induction false} MergeRecordsUntouched(m: Cache, records: seq<HandleResult>, k: string)
    requires k in m
    requires forall j :: 0 <= j < |records| ==> records[j].handle != k
    ensures k in MergeRecords(m, records) && MergeRecords(m, records)[k] == m[k]
  {
    if records != [] {
      var n := |records| - 1;
      assert forall j :: 0 <= j < n ==> records[..n][j] == records[j];
      MergeRecordsUntouched(m, records[..n], k);
    }
  }

  /** An echoed handle holds the last record echoed for it. */
  lemma {:induction false} MergeRecordsLastWins(m: Cache, records: seq<HandleResult>, j: nat)
    requires j < |records|
    requires forall l :: j < l < |records| ==> records[l].handle != records[j].handle
    ensures records[j].handle in MergeRecords(m, records)
    ensures MergeRecords(m, records)[records[j].handle] == records[j]
  {
    var n := |records| - 1;
    if j < n {
      assert forall l :: j < l < n ==> records[..n][l] == records[l];
      MergeRecordsLastWins(m, records[..n], j);
    }
  }

  lemma {:induction false} MergeRecordsKeyedByHandle(m: Cache, records: seq<HandleResult>)
    requires KeyedByHandle(m)
    ensures KeyedByHandle(MergeRecords(m, records))
  {
    if records != [] {
      MergeRecordsKeyedByHandle(m, records[..|records| - 1]);
    }
  }

  /** The cache after `checkMultipleHandles` has made (or skipped) its one remote call. */
  function AfterBatch(m: Cache, handles: seq<string>, resp: Response, now: Timestamp): (r: Cache)
    ensures m.Keys <= r.Keys
    ensures Uncached(m, handles) == [] ==> r == m
    ensures !resp.Success? ==> forall h :: h in handles ==> h in r
  {
    var sent := Uncached(m, handles);
    if sent == [] then m
    else if resp.Success? then MergeRecords(m, resp.records)
    else MarkFailed(m, sent, FailureMessage(resp), now)
  }

  /** What the walk over the input reads for one handle: the cached result, or a synthesized error. */
  function CollectOne(m: Cache, handle: string, now: Timestamp): (r: HandleResult)
    ensures KeyedByHandle(m) ==> r.handle == handle
    ensures handle !in m ==> r.status == Error
  {
    if handle in m then m[handle] else ErrorResult(handle, MissingResultMessage, now)
  }

  function Collect(m: Cache, handles: seq<string>, now: Timestamp): (r: seq<HandleResult>)
    ensures |r| == |handles|
  {
    seq(|handles|, i requires 0 <= i < |handles| => CollectOne(m, handles[i], now))
  }

  /** `(1, n), (2, n), ..., (n, n)` */
  function ProgressTrace(n: nat): (r: seq<ProgressTick>)
    ensures |r| == n
    ensures forall i :: 0 <= i < n ==> r[i] == ProgressTick(i + 1, n)
  {
    seq(n, i requires 0 <= i < n => ProgressTick(i + 1, n))
  }

  /** When every handle is already cached, nothing is sent and the cache is unchanged. */
  lemma AllCachedNoCall(m: Cache, handles: seq<string>, resp: Response, now: Timestamp)
    requires forall h :: h in handles ==> h in m
    ensures Uncached(m, handles) == []
    ensures AfterBatch(m, handles, resp, now) == m
  {
  }

  /** A batch keeps every cached result under its own handle. */
  lemma AfterBatchKeyedByHandle(m: Cache, handles: seq<string>, resp: Response, now: Timestamp)
    requires KeyedByHandle(m)
    ensures KeyedByHandle(AfterBatch(m, handles, resp, now))
  {
    if Uncached(m, handles) != [] && resp.Success? {
      MergeRecordsKeyedByHandle(m, resp.records);
    }
  }

  /**
   * A failed call leaves an error result, carrying the failure message, for
   * every handle that was not cached, and leaves the cached ones alone.
   */
  lemma FailedBatchMarksUncached(m: Cache, handles: seq<string>, resp: Response, now: Timestamp)
    requires !resp.Success?
    ensures var after := AfterBatch(m, handles, resp, now);
      && (forall h :: h in handles && h !in m ==>
            h in after && after[h] == ErrorResult(h, FailureMessage(resp), now))
      && (forall k :: k in m ==> k in after && after[k] == m[k])
      && after.Keys == m.Keys + set h | h in handles
  {
    var sent := Uncached(m, handles);
    if sent == [] {
      assert forall h :: h in handles ==> h in m;
    }
  }

  /**
   * A successful call writes exactly the echoed handles, each under the
   * handle its record carries; every other entry is untouched.
   */
  lemma SuccessfulBatchWritesEchoed(m: Cache, handles: seq<string>, records: seq<HandleResult>, now: Timestamp)
    requires Uncached(m, handles) != []
    ensures var after := AfterBatch(m, handles, Success(records), now);
      && (forall k :: (forall j :: 0 <= j < |records| ==> records[j].handle != k) ==>
            (k in after <==> k in m) && (k in m ==> after[k] == m[k]))
      && (forall j :: 0 <= j < |records| ==> records[j].handle in after)
      && (forall j :: 0 <= j < |records| && (forall l :: j < l < |records| ==> records[l].handle != records[j].handle) ==>
            after[records[j].handle] == records[j])
  {
    var after := AfterBatch(m, handles, Success(records), now);
    forall k | forall j :: 0 <= j < |records| ==> records[j].handle != k
      ensures (k in after <==> k in m) && (k in m ==> after[k] == m[k])
    {
      MergeRecordsKeys(m, records, k);
      if k in m { MergeRecordsUntouched(m, records, k); }
    }
    forall j | 0 <= j < |records| ensures records[j].handle in after {
      MergeRecordsKeys(m, records, records[j].handle);
    }
    forall j | 0 <= j < |records| && (forall l :: j < l < |records| ==> records[l].handle != records[j].handle)
      ensures after[records[j].handle] == records[j]
    {
      MergeRecordsLastWins(m, records, j);
    }
  }

  /**
   * The collected results line up with the input: one per handle, in order,
   * each carrying its handle; a cached handle yields its cached result and a
   * missing one the synthesized error.
   */
  lemma CollectInInputOrder(m: Cache, handles: seq<string>, now: Timestamp)
    requires KeyedByHandle(m)
    ensures |Collect(m, handles, now)| == |handles|
    ensures forall i :: 0 <= i < |handles| ==> Collect(m, handles, now)[i].handle == handles[i]
    ensures forall i :: 0 <= i < |handles| && handles[i] in m ==> Collect(m, handles, now)[i] == m[handles[i]]
    ensures forall i :: 0 <= i < |handles| && handles[i] !in m ==>
      Collect(m, handles, now)[i] == ErrorResult(handles[i], MissingResultMessage, now)
  {
  }

  /**
   * After a failed batch every input handle is cached, so the same batch
   * again sends nothing and changes nothing, whatever the service would say.
   */
  lemma RepeatAfterFailureIsCached(m: Cache, handles: seq<string>, resp: Response, now: Timestamp,
                                   resp2: Response, now2: Timestamp)
    requires !resp.Success?
    ensures var after := AfterBatch(m, handles, resp, now);
      Uncached(after, handles) == [] && AfterBatch(after, handles, resp2, now2) == after
  {
    FailedBatchMarksUncached(m, handles, resp, now);
    AllCachedNoCall(AfterBatch(m, handles, resp, now), handles, resp2, now2);
  }

  /** The same holds after a successful batch whose response echoed every handle sent. */
  lemma RepeatAfterFullEchoIsCached(m: Cache, handles: seq<string>, records: seq<HandleResult>, now: Timestamp,
                                    resp2: Response, now2: Timestamp)
    requires forall h :: h in Uncached(m, handles) ==> exists j :: 0 <= j < |records| && records[j].handle == h
    ensures var after := AfterBatch(m, handles, Success(records), now);
      Uncached(after, handles) == [] && AfterBatch(after, handles, resp2, now2) == after
  {
    var after := AfterBatch(m, handles, Success(records), now);
    if Uncached(m, handles) != [] {
      forall h | h in handles ensures h in after {
        MergeRecordsKeys(m, records, h);
      }
    }
    AllCachedNoCall(after, handles, resp2, now2);
  }

  /**
   * A failed batch never fails the caller: every result is an error carrying
   * the failure message, except for handles that were cached before.
   */
  lemma FailedBatchResults(m: Cache, handles: seq<string>, resp: Response, now: Timestamp)
    requires KeyedByHandle(m)
    requires !resp.Success?
    ensures var results := Collect(AfterBatch(m, handles, resp, now), handles, now);
      && |results| == |handles|
      && forall i :: 0 <= i < |handles| ==>
           if handles[i] in m then results[i] == m[handles[i]]
           else results[i] == ErrorResult(handles[i], FailureMessage(resp), now)
  {
    FailedBatchMarksUncached(m, handles, resp, now);
  }

  /**
   * The synthesized "Handle check failed" result is reachable: a successful
   * response that does not echo a handle that was sent leaves that handle
   * uncached, and the walk reports it as an error.
   */
  lemma UnechoedHandleGetsSynthesizedError(m: Cache, handles: seq<string>, records: seq<HandleResult>,
                                           now: Timestamp, i: nat)
    requires i < |handles| && handles[i] !in m
    requires forall j :: 0 <= j < |records| ==> records[j].handle != handles[i]
    ensures Collect(AfterBatch(m, handles, Success(records), now), handles, now)[i]
      == ErrorResult(handles[i], MissingResultMessage, now)
  {
    MergeRecordsKeys(m, records, handles[i]);
  }

  /** The message stored by the single-handle path when its call does not yield a record. */
  function SingleFailureMessage(resp: Response): (msg: string)
    requires !(resp.Success? && resp.records != [])
    ensures resp.Thrown? ==> msg == resp.message.GetOr(FallbackMessage)
    ensures resp.ServiceError? ==> msg == resp.message.GetOr([])
    ensures resp.Success? || resp.Malformed? ==> msg == InvalidResponseMessage
  {
    match resp
    case Success(_) => InvalidResponseMessage
    case Malformed => InvalidResponseMessage
    case ServiceError(m) => m.GetOr([])
    case Thrown(m) => m.GetOr(FallbackMessage)
  }

  /** The process-wide cache of lookup results, keyed by handle. */
  class HandleCache {
    var entries: Cache

    ghost predicate Valid()
      reads this
    {
      KeyedByHandle(entries)
    }

    constructor ()
      ensures Valid() && entries == map[]
    {
      entries := map[];
    }

    /** `clearHandleCache` */
    method Clear()
      modifies this
      ensures Valid() && entries == map[]
    {
      entries := map[];
    }

    /**
     * `checkYouTubeHandle`: a cached result is returned without a call;
     * otherwise one call is made and its outcome, a failure included, is
     * cached under `handle`. In the code this lookup is module-private and
     * nothing calls it; it is modelled because it shares the cache.
     */
    method CheckYouTubeHandle(handle: string, resp: Response, now: Timestamp)
      returns (result: HandleResult, called: bool)
      requires Valid()
      modifies this
      ensures Valid()
      ensures called <==> handle !in old(entries)
      ensures !called ==> result == old(entries)[handle] && entries == old(entries)
      ensures called ==> entries == old(entries)[handle := result]
      ensures result.handle == handle
      ensures called && resp.Success? && resp.records != [] ==>
        && result.status == resp.records[0].status
        && result.error == resp.records[0].error
        && result.checkedAt == resp.records[0].checkedAt
      ensures called && !(resp.Success? && resp.records != []) ==>
        result == ErrorResult(handle, SingleFailureMessage(resp), now)
    {
      if handle in entries {
        return entries[handle], false;
      }
      called := true;
      result := HandleResult(handle, Checking, None, now);
      var failure: Option<string> := None;
      match resp {
        case Success(records) =>
          if |records| > 0 {
            var backend := records[0];
            result := result.(status := backend.status, error := backend.error, checkedAt := backend.checkedAt);
          } else {
            failure := Some(InvalidResponseMessage);
          }
        case Malformed =>
          failure := Some(InvalidResponseMessage);
        case ServiceError(m) =>
          failure := Some(m.GetOr([]));
        case Thrown(m) =>
          failure := Some(m.GetOr(FallbackMessage));
      }
      if failure.Some? {
        result := result.(status := Error, error := failure);
      }
      entries := entries[handle := result];
    }

    /**
     * `checkMultipleHandles`: one call for the uncached handles (none when
     * all are cached), merged into the cache, then the input walked in order,
     * one result and one progress tick per handle.
     */
    method CheckMultipleHandles(handles: seq<string>, resp: Response, now: Timestamp)
      returns (results: seq<HandleResult>, request: seq<string>, progress: seq<ProgressTick>)
      requires Valid()
      modifies this
      ensures Valid()
      ensures request == Uncached(old(entries), handles)
      ensures entries == AfterBatch(old(entries), handles, resp, now)
      ensures results == Collect(entries, handles, now)
      ensures |results| == |handles|
      ensures forall i :: 0 <= i < |handles| ==> results[i].handle == handles[i]
      ensures progress == ProgressTrace(|handles|)
    {
      request := Uncached(entries, handles);
      if |request| > 0 {
        if resp.Success? {
          MergeResponse(resp.records);
        } else {
          MarkRequestFailed(request, FailureMessage(resp), now);
        }
      }
      results, progress := CollectResults(handles, now);
    }

    /** The success path: every echoed record written under its own handle, in order. */
    method MergeResponse(records: seq<HandleResult>)
      requires Valid()
      modifies this
      ensures Valid()
      ensures entries == MergeRecords(old(entries), records)
    {
      for j := 0 to |records|
        invariant entries == MergeRecords(old(entries), records[..j])
        invariant Valid()
      {
        assert records[..j + 1][..j] == records[..j];
        entries := entries[records[j].handle := records[j]];
      }
      assert records[..|records|] == records;
    }

    /** The failure path: an error result for every handle sent. */
    method MarkRequestFailed(sent: seq<string>, msg: string, now: Timestamp)
      requires Valid()
      modifies this
      ensures Valid()
      ensures entries == MarkFailed(old(entries), sent, msg, now)
    {
      for j := 0 to |sent|
        invariant entries == MarkFailed(old(entries), sent[..j], msg, now)
        invariant Valid()
      {
        assert sent[..j + 1] == sent[..j] + [sent[j]];
        MarkFailedSnoc(old(entries), sent[..j], sent[j], msg, now);
        entries := entries[sent[j] := ErrorResult(sent[j], msg, now)];
      }
      assert sent[..|sent|] == sent;
    }

    /** The walk over the input: one result and one progress tick per handle, in order. */
    method CollectResults(handles: seq<string>, now: Timestamp)
      returns (results: seq<HandleResult>, progress: seq<ProgressTick>)
      requires Valid()
      ensures results == Collect(entries, handles, now)
      ensures forall i :: 0 <= i < |handles| ==> results[i].handle == handles[i]
      ensures progress == ProgressTrace(|handles|)
    {
      results, progress := [], [];
      var completed: nat := 0;
      for i := 0 to |handles|
        invariant completed == i
        invariant results == Collect(entries, handles[..i], now)
        invariant progress == ProgressTrace(|handles|)[..i]
      {
        var handle := handles[i];
        if handle in entries {
          results := results + [entries[handle]];
        } else {
          results := results + [ErrorResult(handle, MissingResultMessage, now)];
        }
        completed := completed + 1;
        progress := progress + [ProgressTick(completed, |handles|)];
      }
      assert handles[..|handles|] == handles;
      assert ProgressTrace(|handles|)[..|handles|] == ProgressTrace(|handles|);
    }
  }
}

/**
 * The cache delegator's LIST fallback: the cacher is asked first, and the
 * storage of record is asked only when the cacher answered ResourceExpired
 * and the ListFromCacheSnapshot feature is on; otherwise the cacher's
 * error, nil included, is returned as it is.
 */
module Fallback {

  import opened Wrappers

  /** The reason carried by an API status error. */
  datatype StatusReason = ResourceExpired | NotFound | Timeout | InternalError

  datatype StatusError = StatusError(reason: StatusReason, message: string)

  /** The back ends the delegator can call, in the order it calls them. */
  datatype Backend = Cacher | Storage

  /** The calls the delegator made, and the error it returned. */
  datatype Delegation = Delegation(calls: seq<Backend>, err: Option<StatusError>)

  predicate IsResourceExpired(err: Option<StatusError>)
  {
    err.Some? && err.value.reason == ResourceExpired
  }

  /**
   * GetList: cacherErr is what the cacher returns, storageErr what the
   * storage would return if it were called.
   */
  function GetList(cacherErr: Option<StatusError>, storageErr: Option<StatusError>, snapshotFeature: bool): (d: Delegation)
    ensures |d.calls| >= 1 && d.calls[0] == Cacher
    ensures Storage in d.calls <==> IsResourceExpired(cacherErr) && snapshotFeature
    ensures Storage in d.calls ==> d.calls == [Cacher, Storage] && d.err == storageErr
    ensures Storage !in d.calls ==> d.calls == [Cacher] && d.err == cacherErr
  {
    if IsResourceExpired(cacherErr) && snapshotFeature then
      Delegation([Cacher, Storage], storageErr)
    else
      Delegation([Cacher], cacherErr)
  }

  /** With the feature off the storage is never called, whatever the cacher answered. */
  lemma FeatureOffNeverCallsStorage(cacherErr: Option<StatusError>, storageErr: Option<StatusError>)
    ensures GetList(cacherErr, storageErr, false).calls == [Cacher]
    ensures GetList(cacherErr, storageErr, false).err == cacherErr
  {
  }

  /**
   * The rows of the fallback test: with the feature on and the cacher
   * answering ResourceExpired the storage is called; with the feature off,
   * for every resource version and limit, the cacher answers nil and the
   * storage is not called.
   */
  lemma FallbackTableRows(storageErr: Option<StatusError>)
    ensures GetList(Some(StatusError(ResourceExpired, "expired")), storageErr, true).calls == [Cacher, Storage]
    ensures GetList(None, storageErr, false).calls == [Cacher]
    ensures GetList(None, storageErr, false).err == None
  {
  }
}

/**
 * The verdict of one polling cycle: the `match` over the remote and local
 * block-number results in the watchdog loop. The source only prints in each branch;
 * the model returns which branch was taken, with the lag or the error it printed;
 * the heights that some branches also print are the inputs of `Classify`.
 */
module Health {
  import opened Results
  import opened ParseInt

  /** The five outcomes of a cycle. `E` is the fetch error reported with a failure. */
  datatype Verdict<E> =
    | Synced(lag: U64)
    | Lagging(lag: U64)
    | LocalAhead
    | RemoteFailed(remoteError: E)
    | LocalDown(localError: E)

  /**
   * Classifies the two fetch results against the lag threshold. The remote result is
   * inspected first; the lag `remote - local` is only computed when it cannot underflow.
   */
  function Classify<E>(remote: Result<U64, E>, local: Result<U64, E>, threshold: U64): (v: Verdict<E>)
    ensures (v.Synced? || v.Lagging?) ==> remote.Ok? && local.Ok? && local.value + v.lag == remote.value
    ensures v.Synced? ==> v.lag < threshold
    ensures v.Lagging? ==> threshold <= v.lag
    ensures v.LocalAhead? ==> remote.Ok? && local.Ok? && remote.value < local.value
  {
    match (remote, local)
    case (Ok(r), Ok(l)) =>
      if l <= r then
        var lag: U64 := r - l;
        if lag < threshold then Synced(lag) else Lagging(lag)
      else LocalAhead
    case (Err(e), _) => RemoteFailed(e)
    case (Ok(_), Err(e)) => LocalDown(e)
  }

  /** A failed remote fetch decides the verdict whatever the local result is. */
  lemma ClassifyRemoteFailed<E>(remote: Result<U64, E>, local: Result<U64, E>, threshold: U64)
    ensures Classify(remote, local, threshold).RemoteFailed? <==> remote.Err?
    ensures remote.Err? ==> Classify(remote, local, threshold) == RemoteFailed(remote.error)
  {
  }

  /** With the remote fetched, a failed local fetch means the local node is down. */
  lemma ClassifyLocalDown<E>(remote: Result<U64, E>, local: Result<U64, E>, threshold: U64)
    ensures Classify(remote, local, threshold).LocalDown? <==> remote.Ok? && local.Err?
    ensures remote.Ok? && local.Err? ==> Classify(remote, local, threshold) == LocalDown(local.error)
  {
  }

  /** A local head above the remote one is reported as ahead, never as synced or lagging. */
  lemma ClassifyLocalAhead<E>(remote: U64, local: U64, threshold: U64)
    ensures Classify<E>(Ok(remote), Ok(local), threshold) == LocalAhead <==> remote < local
  {
  }

  /** Synced exactly when both heights are known, local is not ahead and the lag is below the threshold. */
  lemma ClassifySynced<E>(remote: Result<U64, E>, local: Result<U64, E>, threshold: U64)
    ensures Classify(remote, local, threshold).Synced?
        <==> remote.Ok? && local.Ok? && local.value <= remote.value && remote.value - local.value < threshold
  {
  }

  /** Lagging exactly when both heights are known, local is not ahead and the lag reaches the threshold. */
  lemma ClassifyLagging<E>(remote: Result<U64, E>, local: Result<U64, E>, threshold: U64)
    ensures Classify(remote, local, threshold).Lagging?
        <==> remote.Ok? && local.Ok? && local.value <= remote.value && threshold <= remote.value - local.value
  {
  }

  /** The threshold is an exclusive bound on health: a lag equal to it is lagging. */
  lemma ClassifyAtThreshold<E>(remote: U64, local: U64, threshold: U64)
    requires local + threshold == remote
    ensures Classify<E>(Ok(remote), Ok(local), threshold) == Lagging(threshold)
  {
  }

  /** With a zero threshold no pair of heights is ever synced. */
  lemma ClassifyZeroThreshold<E>(remote: Result<U64, E>, local: Result<U64, E>)
    ensures !Classify(remote, local, 0).Synced?
  {
  }
}

/**
 * One pass of the watchdog loop, without its network calls, printing and 10-second
 * sleep: the remote and local replies (as the transport delivered them) become block
 * numbers and then a verdict against the configured threshold.
 */
module Watchdog {
  import opened Results
  import opened ParseInt
  import opened BlockNumber
  import opened Health

  /** The verdict of one cycle from the remote reply, the local reply and the threshold. */
  function Poll(remoteReply: Result<RpcResponse, TransportError>, localReply: Result<RpcResponse, TransportError>,
                threshold: U64): Verdict<FetchError>
  {
    Classify(FetchBlockNumber(remoteReply), FetchBlockNumber(localReply), threshold)
  }

  /** Heights delivered as "0x" + lower-case hex are judged on their numeric values. */
  lemma PollHexHeights(remote: U64, local: U64, threshold: U64)
    ensures Poll(Ok(RpcResponse("0x" + Encode(remote, 16))), Ok(RpcResponse("0x" + Encode(local, 16))), threshold)
        == Classify(Ok(remote), Ok(local), threshold)
  {
    FetchRoundTrip(remote);
    FetchRoundTrip(local);
  }

  /** An unreachable remote node is reported as a remote failure, even when the local reply is fine. */
  lemma PollRemoteUnreachable(cause: TransportError, localReply: Result<RpcResponse, TransportError>, threshold: U64)
    ensures Poll(Err(cause), localReply, threshold) == RemoteFailed(Transport(cause))
  {
  }

  /** A remote result spelled with an upper-case "0X" is a remote failure, not a height. */
  lemma PollRemoteUpperPrefix(s: string, localReply: Result<RpcResponse, TransportError>, threshold: U64)
    ensures Poll(Ok(RpcResponse("0X" + s)), localReply, threshold) == RemoteFailed(Hex(InvalidDigit))
  {
    DecodeUpperPrefixRejected(s);
  }

  /** A local reply whose result overflows a u64 makes the local node count as down. */
  lemma PollLocalOverflow(remote: U64, local: nat, threshold: U64)
    requires local > U64_MAX
    ensures Poll(Ok(RpcResponse("0x" + Encode(remote, 16))), Ok(RpcResponse("0x" + Encode(local, 16))), threshold)
        == LocalDown(Hex(PosOverflow))
  {
    FetchRoundTrip(remote);
    DecodeOverflow(local);
  }

  /** Remote 100, local 96, threshold 3: lagging by 4. */
  lemma PollScenarioLagging()
    ensures Poll(Ok(RpcResponse("0x64")), Ok(RpcResponse("0x60")), 3) == Lagging(4)
  {
  }

  /** Remote 100, local 100, threshold 3: synced with lag 0. */
  lemma PollScenarioSynced()
    ensures Poll(Ok(RpcResponse("0x64")), Ok(RpcResponse("0x64")), 3) == Synced(0)
  {
  }

  /** Remote 90, local 100: the local node is ahead. */
  lemma PollScenarioLocalAhead()
    ensures Poll(Ok(RpcResponse("0x5a")), Ok(RpcResponse("0x64")), 3) == LocalAhead
  {
  }
}

/** The connection between one client and the worker, as far as gRPC lets either side see it. */
module Network {
  import opened StatusCodes

  // Statuses that the gRPC library itself can report for a call. GOk is not one of them.
  predicate FromLibrary(grpc: GrpcCode) {
    grpc.GCancelled? || grpc.GUnknown? || grpc.GDeadlineExceeded? || grpc.GResourceExhausted?
    || grpc.GUnimplemented? || grpc.GInternal? || grpc.GUnavailable? || grpc.GUnauthenticated?
  }

  /**
   Any step may go wrong; `losses` counts those that did. gRPC promises that a message whose Write failed does not
   reach the other side: `drops` says whether this is relied on.
   */
  class Channel {
    const drops: bool
    ghost var losses: nat

    constructor (drops: bool)
      ensures this.drops == drops && losses == 0
    {
      this.drops, losses := drops, 0;
    }

    /** One thing that the network, or the other side, may fail to do. */
    method Holds() returns (fine: bool)
      modifies this
      ensures losses == if fine then old(losses) else old(losses) + 1
    {
      fine := *;
      if !fine {
        losses := losses + 1;
      }
    }

    /** How many of `n` frames get through before the stream ends */
    method Deliver(n: nat) returns (k: nat)
      modifies this
      ensures k <= n && losses == if k == n then old(losses) else old(losses) + 1
    {
      k := *;
      if !(0 <= k < n) {
        return n;
      }
      losses := losses + 1;
    }

    /** The status that the client gets for this status of the handler */
    method Answer(grpc: GrpcCode) returns (seen: GrpcCode)
      modifies this
      ensures if losses == old(losses) then seen == grpc else FromLibrary(seen) && losses == old(losses) + 1
    {
      seen := *;
      if FromLibrary(seen) {
        losses := losses + 1;
      } else {
        seen := grpc;
      }
    }
  }
}

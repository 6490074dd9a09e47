/** How a status code crosses the wire: inside a response message, or as the status of the gRPC call. */
module StatusCodes {
  import opened Types

  // rpc::StatusCode is an open enumeration: a peer may send any number.
  type RpcCode = int

  // grpc::StatusCode
  datatype GrpcCode =
    | GOk | GCancelled | GUnknown | GInvalidArgument | GDeadlineExceeded | GNotFound | GAlreadyExists
    | GPermissionDenied | GResourceExhausted | GFailedPrecondition | GAborted | GOutOfRange | GUnimplemented
    | GInternal | GUnavailable | GDataLoss | GUnauthenticated

  function ToRpcStatusCode(code: Code): RpcCode {
    match code
    case Ok => 0
    case InvalidArgument => 1
    case NotFound => 2
    case AlreadyExists => 3
    case Unavailable => 4
    case Timeout => 5
    case IoError => 6
    case Corruption => 7
    case ResourceExhausted => 8
    case Internal => 9
  }

  function FromRpcStatus(code: RpcCode): Code {
    match code
    case 0 => Ok
    case 1 => InvalidArgument
    case 2 => NotFound
    case 3 => AlreadyExists
    case 4 => Unavailable
    case 5 => Timeout
    case 6 => IoError
    case 7 => Corruption
    case 8 => ResourceExhausted
    case _ => Internal
  }

  function ToGrpcStatus(code: Code): GrpcCode {
    match code
    case Ok => GOk
    case InvalidArgument => GInvalidArgument
    case NotFound => GNotFound
    case AlreadyExists => GAlreadyExists
    case Unavailable => GUnavailable
    case Timeout => GDeadlineExceeded
    case ResourceExhausted => GResourceExhausted
    case Corruption => GDataLoss
    case IoError => GUnknown
    case Internal => GInternal
  }

  function FromGrpcStatus(code: GrpcCode): Code {
    match code
    case GOk => Ok
    case GInvalidArgument => InvalidArgument
    case GNotFound => NotFound
    case GAlreadyExists => AlreadyExists
    case GDeadlineExceeded => Timeout
    case GResourceExhausted => ResourceExhausted
    case GDataLoss => Corruption
    case GUnknown => IoError
    case GInternal => Internal
    case _ => Unavailable
  }

  /** Both channels hand every code of the domain over unchanged, and neither turns a failure into Ok. */
  lemma CodesSurviveTheWire(code: Code, rpc: RpcCode, grpc: GrpcCode)
    ensures FromRpcStatus(ToRpcStatusCode(code)) == code
    ensures FromGrpcStatus(ToGrpcStatus(code)) == code
    ensures FromRpcStatus(rpc) == Ok <==> rpc == ToRpcStatusCode(Ok)
    ensures FromGrpcStatus(grpc) == Ok <==> grpc == ToGrpcStatus(Ok)
  {
  }

  /** The numbers of the enumeration in the protocol definition, and what foreign values are taken for. */
  lemma WireValues(rpc: RpcCode, grpc: GrpcCode)
    ensures ToRpcStatusCode(Ok) == 0 && ToRpcStatusCode(InvalidArgument) == 1 && ToRpcStatusCode(NotFound) == 2
    ensures ToRpcStatusCode(AlreadyExists) == 3 && ToRpcStatusCode(Unavailable) == 4 && ToRpcStatusCode(Timeout) == 5
    ensures ToRpcStatusCode(IoError) == 6 && ToRpcStatusCode(Corruption) == 7
    ensures ToRpcStatusCode(ResourceExhausted) == 8 && ToRpcStatusCode(Internal) == 9
    ensures !(0 <= rpc <= 9) ==> FromRpcStatus(rpc) == Internal
    ensures ToGrpcStatus(InvalidArgument) == GInvalidArgument && ToGrpcStatus(NotFound) == GNotFound
    ensures ToGrpcStatus(AlreadyExists) == GAlreadyExists && ToGrpcStatus(Unavailable) == GUnavailable
    ensures ToGrpcStatus(Timeout) == GDeadlineExceeded && ToGrpcStatus(ResourceExhausted) == GResourceExhausted
    ensures ToGrpcStatus(Corruption) == GDataLoss && ToGrpcStatus(IoError) == GUnknown && ToGrpcStatus(Internal) == GInternal
    ensures (forall code :: grpc != ToGrpcStatus(code)) ==> FromGrpcStatus(grpc) == Unavailable
  {
    if forall code :: grpc != ToGrpcStatus(code) {
      assert grpc != ToGrpcStatus(Ok) && grpc != ToGrpcStatus(InvalidArgument) && grpc != ToGrpcStatus(NotFound);
      assert grpc != ToGrpcStatus(AlreadyExists) && grpc != ToGrpcStatus(Timeout) && grpc != ToGrpcStatus(ResourceExhausted);
      assert grpc != ToGrpcStatus(Corruption) && grpc != ToGrpcStatus(IoError) && grpc != ToGrpcStatus(Internal);
    }
  }
}

/** The chain of recovery handlers that turns a panic of a transaction into an error. */
module Recovery {
  import opened Wrappers
  import opened Gas

  datatype Error =
    | DecodeFailed
    | NoMessages
    | InvalidMessage(index: nat)
    | AnteRejected(code: nat)
    | InsertFailed(code: nat)
    | RemoveFailed(code: nat)
    | NoMessagesV2
    | Unroutable(index: nat)
    | MessageFailed(index: nat, code: nat)
    | PostRejected(code: nat)
    | NoBlockGasLeft
    | RecoveredOutOfGas(wanted: nat, used: nat)
    | Recovered(panic: PanicValue)
    | Custom(code: nat)

  /** A handler answers `None` when it does not process the panic value. */
  type Handler = PanicValue -> Option<Error>

  datatype Middleware = End | Link(handler: Handler, next: Middleware)

  /** Runs the chain until a link answers. */
  function ProcessRecovery(p: PanicValue, chain: Middleware): Option<Error>
  {
    match chain
    case End => None
    case Link(handler, next) =>
      match handler(p)
      case Some(e) => Some(e)
      case None => ProcessRecovery(p, next)
  }

  /** The last link of every chain: it answers everything. */
  function DefaultMiddleware(): Middleware {
    Link((p: PanicValue) => Some(Recovered(p)), End)
  }

  function OutOfGasMiddleware(wanted: nat, used: nat, next: Middleware): Middleware {
    Link((p: PanicValue) => if p.OutOfGas? then Some(RecoveredOutOfGas(wanted, used)) else None, next)
  }

  /** Handlers are added one after another, each in front of the chain so far. */
  function AddHandlers(handlers: seq<Handler>, chain: Middleware): Middleware
  {
    if handlers == [] then chain
    else AddHandlers(handlers[1..], Link(handlers[0], chain))
  }

  /** The error of a recovered transaction panic: the out-of-gas link is put in front of the app's chain. */
  function RecoverError(handlers: seq<Handler>, p: PanicValue, wanted: nat, used: nat): Option<Error>
  {
    ProcessRecovery(p, OutOfGasMiddleware(wanted, used, AddHandlers(handlers, DefaultMiddleware())))
  }

  /** Independent reading of a chain of added handlers: the most recently added answer wins. */
  function LatestAnswer(handlers: seq<Handler>, p: PanicValue): Option<Error>
  {
    if handlers == [] then None
    else if handlers[|handlers| - 1](p).Some? then handlers[|handlers| - 1](p)
    else LatestAnswer(handlers[..|handlers| - 1], p)
  }

  lemma {:induction false} AddHandlersAppend(handlers: seq<Handler>, last: Handler, chain: Middleware)
    ensures AddHandlers(handlers + [last], chain) == Link(last, AddHandlers(handlers, chain))
  {
    if handlers == [] {
      assert (handlers + [last])[1..] == [];
      assert handlers + [last] == [last];
    } else {
      assert (handlers + [last])[1..] == handlers[1..] + [last];
      AddHandlersAppend(handlers[1..], last, Link(handlers[0], chain));
    }
  }

  lemma {:induction false} ChainAnswers(handlers: seq<Handler>, p: PanicValue)
    ensures ProcessRecovery(p, AddHandlers(handlers, DefaultMiddleware()))
         == Some(if LatestAnswer(handlers, p).Some? then LatestAnswer(handlers, p).value else Recovered(p))
  {
    if handlers != [] {
      var front, last := handlers[..|handlers| - 1], handlers[|handlers| - 1];
      assert handlers == front + [last];
      AddHandlersAppend(front, last, DefaultMiddleware());
      ChainAnswers(front, p);
    }
  }

  /** Out of gas first, then the most recently added handler that answers, then the default. */
  function RecoveredAs(handlers: seq<Handler>, p: PanicValue, wanted: nat, used: nat): Error {
    if p.OutOfGas? then RecoveredOutOfGas(wanted, used)
    else if LatestAnswer(handlers, p).Some? then LatestAnswer(handlers, p).value
    else Recovered(p)
  }

  /**
    Every recovered panic ends in an error, whatever handlers were added, and which one:
    out of gas first, then the most recently added handler that answers, then the default.
   */
  lemma RecoveryNeverSilent(handlers: seq<Handler>, p: PanicValue, wanted: nat, used: nat)
    ensures RecoverError(handlers, p, wanted, used) == Some(RecoveredAs(handlers, p, wanted, used))
  {
    ChainAnswers(handlers, p);
  }

  /** No handler answers any panic with this error. */
  ghost predicate NeverAnswers(handlers: seq<Handler>, e: Error) {
    forall i, p: PanicValue :: 0 <= i < |handlers| ==> handlers[i](p) != Some(e)
  }

  lemma {:induction false} LatestIsAnswer(handlers: seq<Handler>, p: PanicValue, e: Error)
    requires NeverAnswers(handlers, e)
    ensures LatestAnswer(handlers, p) != Some(e)
  {
    if handlers != [] {
      LatestIsAnswer(handlers[..|handlers| - 1], p, e);
    }
  }
}

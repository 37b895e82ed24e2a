/**
  One transaction: decoding, basic validation, the ante handler, the mempool, the messages and
  the post handler, each with its store branch; the charge to the block gas meter; panic recovery.
 */
module TxPipeline {
  import opened Wrappers
  import opened Stores
  import opened Gas
  import opened Recovery

  datatype Mode = Check | ReCheck | Simulate | PrepareProposal | ProcessProposal | Finalize

  datatype Header = Header(chainId: string, height: int, time: int)

  datatype Env = Env(mode: Mode, header: Header)

  datatype Msg = Msg(route: string, body: Blob)

  /** `v2` says whether the messages can be read in their second form. */
  datatype Tx = Tx(msgs: seq<Msg>, v2: bool, memo: Blob)

  type Pool = seq<Tx>

  /**
    What an ante handler does. `meter` is the gas meter of the context it returns, `None` when that is
    still the meter it was given; `baseGas` is what it used of the latter.
   */
  datatype AnteOutcome =
    | AnteReturned(err: Option<nat>, meter: Option<Meter>, baseGas: nat, writes: Writes)
    | AntePanicked(panic: PanicValue, baseGas: nat)

  /** What a message or post handler does to its branch and to the transaction's gas reading. */
  datatype Outcome =
    | Done(writes: Writes, gas: nat)
    | Failed(code: nat, gas: nat)
    | Panicked(panic: PanicValue, gas: nat)

  datatype RemoveStatus = Removed | NotFound | Broken(code: nat)

  /** Everything the application plugs in. Handlers see the store branch they are given and no other state. */
  datatype Config = Config(
    decode: Blob -> Option<Tx>,
    encode: Tx -> Option<Blob>,
    validBasic: Msg -> bool,
    ante: Option<(Env, Store, Tx) -> AnteOutcome>,
    routed: Msg -> bool,
    handle: (Env, Store, Meter, Msg) -> Outcome,
    post: Option<(Env, Store, Meter, Tx) -> Outcome>,
    recovery: seq<Handler>,
    insert: (Pool, Tx) -> (Option<nat>, Pool),
    remove: (Pool, Tx) -> (RemoveStatus, Pool),
    paramsGas: Store -> nat)

  /**
    The gas side of a transaction context: the meter of the mode's state, shared by all its transactions,
    and the transaction's own meter once the ante handler has installed one.
   */
  datatype GasCtx = GasCtx(base: nat, own: Option<Meter>)
  {
    function Current(): Meter {
      if own.Some? then own.value else Unlimited(base)
    }

    function Reading(gas: nat): GasCtx {
      if own.Some? then this.(own := Some(own.value.WithConsumed(gas))) else this.(base := gas)
    }
  }

  datatype Exit = Return(err: Error) | Panic(panic: PanicValue)

  /** Where a transaction stands: `kept` are the writes already flushed into the mode's state. */
  datatype Progress =
    | Stopped(exit: Exit, gas: GasCtx, wanted: nat, kept: Writes, pool: Pool)
    | Running(tx: Tx, gas: GasCtx, wanted: nat, kept: Writes, pool: Pool)

  datatype Execution =
    | Executed(writes: Writes, gas: GasCtx)
    | Aborted(exit: Exit, gas: GasCtx)

  /** The outcome of one transaction for its mode's state, the block meter and the caller. */
  datatype TxEffect = TxEffect(
    writes: Writes, base: nat, block: Meter, pool: Pool, err: Option<Error>, wanted: nat, used: nat)

  /** The first message that fails its own validation. */
  function FirstInvalid(cfg: Config, msgs: seq<Msg>, i: nat): Option<nat>
    requires i <= |msgs|
    decreases |msgs| - i
  {
    if i == |msgs| then None
    else if !cfg.validBasic(msgs[i]) then Some(i)
    else FirstInvalid(cfg, msgs, i + 1)
  }

  function ValidateBasic(cfg: Config, msgs: seq<Msg>): Option<Error> {
    if msgs == [] then Some(NoMessages)
    else match FirstInvalid(cfg, msgs, 0)
      case None => None
      case Some(i) => Some(InvalidMessage(i))
  }

  /** Decode, validate, run the ante handler on a branch and flush that branch if it succeeds. */
  function AnteStage(cfg: Config, env: Env, view: Store, base: nat, pool: Pool, txBytes: Blob): Progress
  {
    var gas := GasCtx(base, None);
    match cfg.decode(txBytes)
    case None => Stopped(Return(DecodeFailed), gas, 0, map[], pool)
    case Some(tx) =>
      var invalid := ValidateBasic(cfg, tx.msgs);
      if invalid.Some? then Stopped(Return(invalid.value), gas, 0, map[], pool)
      else if cfg.ante.None? then Running(tx, gas, 0, map[], pool)
      else match cfg.ante.value(env, view, tx)
        case AntePanicked(p, g) => Stopped(Panic(p), GasCtx(base + g, None), 0, map[], pool)
        case AnteReturned(err, meter, g, w) =>
          var gas' := GasCtx(base + g, meter);
          if err.Some? then Stopped(Return(AnteRejected(err.value)), gas', gas'.Current().Limit(), map[], pool)
          else Running(tx, gas', gas'.Current().Limit(), w, pool)
  }

  /** New transactions enter the mempool when checked and leave it when delivered. */
  function MempoolStage(cfg: Config, mode: Mode, p: Progress): Progress
  {
    if p.Stopped? then p
    else if mode.Check? then
      var (err, pool') := cfg.insert(p.pool, p.tx);
      if err.Some? then Stopped(Return(InsertFailed(err.value)), p.gas, p.wanted, p.kept, pool')
      else Running(p.tx, p.gas, p.wanted, p.kept, pool')
    else if mode.Finalize? then
      var (status, pool') := cfg.remove(p.pool, p.tx);
      if status.Broken? then Stopped(Return(RemoveFailed(status.code)), p.gas, p.wanted, p.kept, pool')
      else Running(p.tx, p.gas, p.wanted, p.kept, pool')
    else p
  }

  predicate RunsMessages(mode: Mode) {
    mode.Finalize? || mode.Simulate?
  }

  /** Messages `i..` in order, on one branch over `view` that already holds `done`. */
  function RunMsgs(cfg: Config, env: Env, view: Store, msgs: seq<Msg>, i: nat, done: Writes, gas: GasCtx): Execution
    requires i <= |msgs|
    decreases |msgs| - i
  {
    if i == |msgs| || !RunsMessages(env.mode) then Executed(done, gas)
    else if !cfg.routed(msgs[i]) then Aborted(Return(Unroutable(i)), gas)
    else match cfg.handle(env, Overlay(view, done), gas.Current(), msgs[i])
      case Failed(c, g) => Aborted(Return(MessageFailed(i, c)), gas.Reading(g))
      case Panicked(p, g) => Aborted(Panic(p), gas.Reading(g))
      case Done(w, g) => RunMsgs(cfg, env, view, msgs, i + 1, done + w, gas.Reading(g))
  }

  /** All messages, then the post handler, on one branch that is not flushed here. */
  function ExecStage(cfg: Config, env: Env, view: Store, tx: Tx, gas: GasCtx): Execution
  {
    if !tx.v2 then Aborted(Return(NoMessagesV2), gas)
    else
      var x := RunMsgs(cfg, env, view, tx.msgs, 0, map[], gas);
      if x.Aborted? || cfg.post.None? then x
      else match cfg.post.value(env, Overlay(view, x.writes), x.gas.Current(), tx)
        case Failed(c, g) => Aborted(Return(PostRejected(c)), x.gas.Reading(g))
        case Panicked(p, g) => Aborted(Panic(p), x.gas.Reading(g))
        case Done(w, g) => Executed(x.writes + w, x.gas.Reading(g))
  }

  /** Leaving a transaction that failed: the deferred block charge, then recovery. */
  function Settle(cfg: Config, mode: Mode, exit: Exit, gas: GasCtx, wanted: nat, kept: Writes, block: Meter, pool: Pool): TxEffect
  {
    var used := gas.Current().consumed;
    var amount := gas.Current().ConsumedToLimit();
    var raised := if mode.Finalize? then block.Raises(amount) else None;
    var err :=
      if raised.Some? then RecoverError(cfg.recovery, raised.value, wanted, used)
      else if exit.Panic? then RecoverError(cfg.recovery, exit.panic, wanted, used)
      else Some(exit.err);
    TxEffect(kept, gas.base, if mode.Finalize? then block.After(amount) else block, pool, err, wanted, used)
  }

  /** Leaving a transaction whose messages and post handler succeeded. */
  function Complete(cfg: Config, mode: Mode, writes: Writes, gas: GasCtx, wanted: nat, kept: Writes, block: Meter, pool: Pool): TxEffect
  {
    var used := gas.Current().consumed;
    var amount := gas.Current().ConsumedToLimit();
    if !mode.Finalize? then
      TxEffect(kept, gas.base, block, pool, None, wanted, used)
    else if block.Raises(amount).Some? then
      TxEffect(kept, gas.base, block.After(amount), pool, RecoverError(cfg.recovery, block.Raises(amount).value, wanted, used), wanted, used)
    else
      TxEffect(kept + writes, gas.base, block.After(amount), pool, None, wanted, used)
  }

  /** Everything after the mempool: the body if the transaction got that far, and the way out. */
  function Finish(cfg: Config, env: Env, view: Store, block: Meter, p: Progress): TxEffect
  {
    if p.Stopped? then Settle(cfg, env.mode, p.exit, p.gas, p.wanted, p.kept, block, p.pool)
    else
      match ExecStage(cfg, env, Overlay(view, p.kept), p.tx, p.gas)
      case Aborted(exit, gas) => Settle(cfg, env.mode, exit, gas, p.wanted, p.kept, block, p.pool)
      case Executed(writes, gas) => Complete(cfg, env.mode, writes, gas, p.wanted, p.kept, block, p.pool)
  }

  /** The whole transaction, as seen from the mode's state (`view`, `base`) and the block meter. */
  function RunTx(cfg: Config, env: Env, view: Store, base: nat, block: Meter, pool: Pool, txBytes: Blob): TxEffect
  {
    var base' := base + cfg.paramsGas(view);
    if env.mode.Finalize? && block.IsOutOfGas() then
      TxEffect(map[], base', block, pool, Some(NoBlockGasLeft), 0, 0)
    else
      Finish(cfg, env, view, block, MempoolStage(cfg, env.mode, AnteStage(cfg, env, view, base', pool, txBytes)))
  }
}

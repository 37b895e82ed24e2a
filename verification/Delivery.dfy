/**
  What one delivered transaction and one delivered block do to the state: atomicity against a
  branch-free reference, and the accounting of block gas.
 */
module Delivery {
  import opened Wrappers
  import opened Stores
  import opened Gas
  import opened Recovery
  import opened TxPipeline

  // ---------------------------------------------------------------- the branch-free reference

  /** The store right after a successful ante handler, run in place; `None` if the transaction stops before that. */
  function AfterAnte(cfg: Config, env: Env, s: Store, txBytes: Blob): Option<Store>
  {
    match cfg.decode(txBytes)
    case None => None
    case Some(tx) =>
      if ValidateBasic(cfg, tx.msgs).Some? then None
      else if cfg.ante.None? then Some(s)
      else
        var r := cfg.ante.value(env, s, tx);
        if r.AnteReturned? && r.err.None? then Some(Overlay(s, r.writes)) else None
  }

  /** The gas context in which the messages of a transaction that passed its ante handler start. */
  function AnteGas(cfg: Config, env: Env, s: Store, base: nat, txBytes: Blob): GasCtx
    requires AfterAnte(cfg, env, s, txBytes).Some?
  {
    if cfg.ante.None? then GasCtx(base, None)
    else
      var r := cfg.ante.value(env, s, cfg.decode(txBytes).value);
      GasCtx(base + r.baseGas, r.meter)
  }

  /** Messages run one after another directly on the store. */
  function DirectMsgs(cfg: Config, env: Env, s: Store, msgs: seq<Msg>, gas: GasCtx): Option<(Store, GasCtx)>
    decreases |msgs|
  {
    if msgs == [] then Some((s, gas))
    else if !cfg.routed(msgs[0]) then None
    else match cfg.handle(env, s, gas.Current(), msgs[0])
      case Done(w, g) => DirectMsgs(cfg, env, Overlay(s, w), msgs[1..], gas.Reading(g))
      case _ => None
  }

  /** Messages and post handler run directly on the store; `None` if anything fails or panics. */
  function DirectBody(cfg: Config, env: Env, s: Store, tx: Tx, gas: GasCtx): Option<(Store, GasCtx)>
  {
    var r := DirectMsgs(cfg, env, s, tx.msgs, gas);
    if !tx.v2 then None
    else if r.None? || cfg.post.None? then r
    else match cfg.post.value(env, r.value.0, r.value.1.Current(), tx)
      case Done(w, g) => Some((Overlay(r.value.0, w), r.value.1.Reading(g)))
      case _ => None
  }

  /** A transaction is basically valid exactly if it has messages and all of them are; else the first that is not is named. */
  lemma ValidIff(cfg: Config, msgs: seq<Msg>)
    ensures ValidateBasic(cfg, msgs).None? <==> msgs != [] && forall i :: 0 <= i < |msgs| ==> cfg.validBasic(msgs[i])
    ensures forall k: nat :: ValidateBasic(cfg, msgs) == Some(InvalidMessage(k)) <==>
              k < |msgs| && !cfg.validBasic(msgs[k]) && forall i :: 0 <= i < k ==> cfg.validBasic(msgs[i])
  {
    hide FirstInvalid;
    FirstInvalidIs(cfg, msgs, 0);
  }

  lemma {:induction false} FirstInvalidIs(cfg: Config, msgs: seq<Msg>, i: nat)
    requires i <= |msgs|
    ensures match FirstInvalid(cfg, msgs, i)
            case None => forall j :: i <= j < |msgs| ==> cfg.validBasic(msgs[j])
            case Some(k) => i <= k < |msgs| && !cfg.validBasic(msgs[k]) && forall j :: i <= j < k ==> cfg.validBasic(msgs[j])
    decreases |msgs| - i
  {
    if i < |msgs| && cfg.validBasic(msgs[i]) {
      FirstInvalidIs(cfg, msgs, i + 1);
    }
  }

  /** How message `k` fails when it is reached with this store and gas; `None` if it does not. */
  function MessageExit(cfg: Config, env: Env, s: Store, gas: GasCtx, msg: Msg, k: nat): Option<Exit> {
    if !cfg.routed(msg) then Some(Return(Unroutable(k)))
    else match cfg.handle(env, s, gas.Current(), msg)
      case Failed(c, _) => Some(Return(MessageFailed(k, c)))
      case Panicked(p, _) => Some(Panic(p))
      case Done(_, _) => None
  }

  /** Messages `i..k` go well in place, and `k` then fails in the given way. */
  predicate FailsAt(cfg: Config, env: Env, s: Store, msgs: seq<Msg>, i: nat, gas: GasCtx, k: nat, exit: Exit) {
    && i <= k < |msgs|
    && var d := DirectMsgs(cfg, env, s, msgs[i..k], gas);
       d.Some? && MessageExit(cfg, env, d.value.0, d.value.1, msgs[k], k) == Some(exit)
  }

  /** Failing messages: the first that fails is named, with its own error, after those before it have gone well. */
  lemma {:induction false} RunMsgsFailsAt(cfg: Config, env: Env, view: Store, msgs: seq<Msg>, i: nat, done: Writes, gas: GasCtx)
    requires i <= |msgs| && RunMsgs(cfg, env, view, msgs, i, done, gas).Aborted?
    ensures exists k: nat :: FailsAt(cfg, env, Overlay(view, done), msgs, i, gas, k, RunMsgs(cfg, env, view, msgs, i, done, gas).exit)
    decreases |msgs| - i
  {
    hide Overlay;
    var exit := RunMsgs(cfg, env, view, msgs, i, done, gas).exit;
    var r := cfg.handle(env, Overlay(view, done), gas.Current(), msgs[i]);
    if cfg.routed(msgs[i]) && r.Done? {
      OverlayTwice(view, done, r.writes);
      RunMsgsFailsAt(cfg, env, view, msgs, i + 1, done + r.writes, gas.Reading(r.gas));
      var k: nat :| FailsAt(cfg, env, Overlay(view, done + r.writes), msgs, i + 1, gas.Reading(r.gas), k, exit);
      assert msgs[i..k][0] == msgs[i] && msgs[i..k][1..] == msgs[i + 1..k];
      assert FailsAt(cfg, env, Overlay(view, done), msgs, i, gas, k, exit);
    } else {
      assert msgs[i..i] == [];
      assert FailsAt(cfg, env, Overlay(view, done), msgs, i, gas, i, exit);
    }
  }

  /** Message `i` in the middle of a message list, by the tail of that list. */
  lemma {:induction false} RunMsgsIsDirect(cfg: Config, env: Env, view: Store, msgs: seq<Msg>, i: nat, done: Writes, gas: GasCtx)
    requires i <= |msgs| && RunsMessages(env.mode)
    ensures var x := RunMsgs(cfg, env, view, msgs, i, done, gas);
            var d := DirectMsgs(cfg, env, Overlay(view, done), msgs[i..], gas);
            && (x.Executed? <==> d.Some?)
            && (x.Executed? ==> d.value == (Overlay(view, x.writes), x.gas))
    decreases |msgs| - i
  {
    if i < |msgs| {
      assert msgs[i..][0] == msgs[i] && msgs[i..][1..] == msgs[i + 1..];
      var r := cfg.handle(env, Overlay(view, done), gas.Current(), msgs[i]);
      if cfg.routed(msgs[i]) && r.Done? {
        OverlayTwice(view, done, r.writes);
        RunMsgsIsDirect(cfg, env, view, msgs, i + 1, done + r.writes, gas.Reading(r.gas));
      }
    }
  }

  lemma ExecIsDirect(cfg: Config, env: Env, view: Store, tx: Tx, gas: GasCtx)
    requires RunsMessages(env.mode)
    ensures var x := ExecStage(cfg, env, view, tx, gas);
            var d := DirectBody(cfg, env, view, tx, gas);
            && (x.Executed? <==> d.Some?)
            && (x.Executed? ==> d.value == (Overlay(view, x.writes), x.gas))
  {
    OverlayNothing(view);
    assert tx.msgs[0..] == tx.msgs;
    RunMsgsIsDirect(cfg, env, view, tx.msgs, 0, map[], gas);
    var x := RunMsgs(cfg, env, view, tx.msgs, 0, map[], gas);
    if tx.v2 && x.Executed? && cfg.post.Some? {
      var r := cfg.post.value(env, Overlay(view, x.writes), x.gas.Current(), tx);
      if r.Done? {
        OverlayTwice(view, x.writes, r.writes);
      }
    }
  }

  // ---------------------------------------------------------------- one delivered transaction

  /** The whole transaction run in place: the store and the gas it ends with, `None` if any part fails. */
  function DirectTx(cfg: Config, env: Env, s: Store, base: nat, txBytes: Blob): Option<(Store, GasCtx)>
  {
    match AfterAnte(cfg, env, s, txBytes)
    case None => None
    case Some(s') => DirectBody(cfg, env, s', cfg.decode(txBytes).value, AnteGas(cfg, env, s, base, txBytes))
  }

  /** It runs through in place, its mempool entry goes, and its gas still fits the block. */
  predicate Commits(cfg: Config, env: Env, s: Store, base: nat, block: Meter, pool: Pool, txBytes: Blob)
  {
    var d := DirectTx(cfg, env, s, base + cfg.paramsGas(s), txBytes);
    && !block.IsOutOfGas()
    && d.Some?
    && !cfg.remove(pool, cfg.decode(txBytes).value).0.Broken?
    && block.Raises(d.value.1.Current().ConsumedToLimit()).None?
  }

  lemma AnteStageIsDirect(cfg: Config, env: Env, s: Store, base: nat, pool: Pool, txBytes: Blob)
    ensures var p := AnteStage(cfg, env, s, base, pool, txBytes);
            && (p.Running? <==> AfterAnte(cfg, env, s, txBytes).Some?)
            && p.pool == pool
            && (p.Stopped? ==> p.kept == map[])
            && (p.Running? ==>
                  && cfg.decode(txBytes) == Some(p.tx)
                  && Overlay(s, p.kept) == AfterAnte(cfg, env, s, txBytes).value
                  && p.gas == AnteGas(cfg, env, s, base, txBytes))
  {
    OverlayNothing(s);
  }

  /** The panic of the deferred block charge, if there is one, is reported in place of whatever the transaction failed with. */
  lemma SettleReportsError(cfg: Config, mode: Mode, exit: Exit, gas: GasCtx, wanted: nat, kept: Writes, block: Meter, pool: Pool)
    ensures var used, charged := gas.Current().consumed, block.Raises(gas.Current().ConsumedToLimit());
            Settle(cfg, mode, exit, gas, wanted, kept, block, pool).err ==
              Some(if mode.Finalize? && charged.Some? then RecoveredAs(cfg.recovery, charged.value, wanted, used)
                   else if exit.Panic? then RecoveredAs(cfg.recovery, exit.panic, wanted, used)
                   else exit.err)
  {
    hide RecoverError, RecoveredAs;
    forall p: PanicValue {
      RecoveryNeverSilent(cfg.recovery, p, wanted, gas.Current().consumed);
    }
  }

  lemma CompleteIsAtomic(cfg: Config, writes: Writes, gas: GasCtx, wanted: nat, kept: Writes, block: Meter, pool: Pool)
    ensures var e := Complete(cfg, Finalize, writes, gas, wanted, kept, block, pool);
            && (e.err.None? <==> block.Raises(gas.Current().ConsumedToLimit()).None?)
            && e.writes == if e.err.None? then kept + writes else kept
  {
    var raised := block.Raises(gas.Current().ConsumedToLimit());
    if raised.Some? {
      RecoveryNeverSilent(cfg.recovery, raised.value, wanted, gas.Current().consumed);
    }
  }

  /** From the mempool on: the body all of it, or not at all; never silently. */
  lemma FinishIsAtomic(cfg: Config, header: Header, s: Store, block: Meter, p: Progress)
    ensures var env := Env(Finalize, header);
            var e := Finish(cfg, env, s, block, p);
            var view := Overlay(s, p.kept);
            if p.Stopped? then e.err.Some? && e.writes == p.kept
            else
              var d := DirectBody(cfg, env, view, p.tx, p.gas);
              && (e.err.None? <==> d.Some? && block.Raises(d.value.1.Current().ConsumedToLimit()).None?)
              && Overlay(s, e.writes) == if e.err.None? then d.value.0 else view
  {
    var env, view := Env(Finalize, header), Overlay(s, p.kept);
    if p.Stopped? {
      SettleReportsError(cfg, Finalize, p.exit, p.gas, p.wanted, p.kept, block, p.pool);
    } else {
      ExecIsDirect(cfg, env, view, p.tx, p.gas);
      match ExecStage(cfg, env, view, p.tx, p.gas)
      case Aborted(exit, gas) =>
        SettleReportsError(cfg, Finalize, exit, gas, p.wanted, p.kept, block, p.pool);
      case Executed(writes, gas) =>
        OverlayTwice(s, p.kept, writes);
        CompleteIsAtomic(cfg, writes, gas, p.wanted, p.kept, block, p.pool);
    }
  }

  /**
    Three-way atomicity. A delivered transaction leaves the state as running it in place would, or leaves
    exactly the ante handler's writes, or nothing; the first if and only if no error is returned.
   */
  lemma DeliverAtomic(cfg: Config, header: Header, s: Store, base: nat, block: Meter, pool: Pool, txBytes: Blob)
    ensures var env := Env(Finalize, header);
            var e := RunTx(cfg, env, s, base, block, pool, txBytes);
            var ante := AfterAnte(cfg, env, s, txBytes);
            && (e.err.None? <==> Commits(cfg, env, s, base, block, pool, txBytes))
            && Overlay(s, e.writes) ==
                 if e.err.None? then DirectTx(cfg, env, s, base + cfg.paramsGas(s), txBytes).value.0
                 else if !block.IsOutOfGas() && ante.Some? then ante.value
                 else s
  {
    hide Finish, Overlay, AfterAnte, DirectBody;
    var env, base' := Env(Finalize, header), base + cfg.paramsGas(s);
    OverlayNothing(s);
    if !block.IsOutOfGas() {
      AnteStageIsDirect(cfg, env, s, base', pool, txBytes);
      FinishIsAtomic(cfg, header, s, block, MempoolStage(cfg, Finalize, AnteStage(cfg, env, s, base', pool, txBytes)));
    }
  }

  // ---------------------------------------------------------------- block gas

  /** The gas a transaction has on its meter when it ends, on whatever path it ends. */
  function FinalGas(cfg: Config, env: Env, s: Store, base: nat, pool: Pool, txBytes: Blob): GasCtx
  {
    var p := MempoolStage(cfg, env.mode, AnteStage(cfg, env, s, base + cfg.paramsGas(s), pool, txBytes));
    EndGas(cfg, env, s, p)
  }

  function EndGas(cfg: Config, env: Env, s: Store, p: Progress): GasCtx {
    if p.Stopped? then p.gas else ExecStage(cfg, env, Overlay(s, p.kept), p.tx, p.gas).gas
  }

  lemma FinishCharges(cfg: Config, env: Env, s: Store, block: Meter, p: Progress)
    ensures var e := Finish(cfg, env, s, block, p);
            var amount := EndGas(cfg, env, s, p).Current().ConsumedToLimit();
            && e.block == (if env.mode.Finalize? then block.After(amount) else block)
            && (env.mode.Finalize? && e.err.None? ==> block.Raises(amount).None?)
  {
    if p.Stopped? {
      SettleReportsError(cfg, env.mode, p.exit, p.gas, p.wanted, p.kept, block, p.pool);
    } else {
      match ExecStage(cfg, env, Overlay(s, p.kept), p.tx, p.gas)
      case Aborted(exit, gas) =>
        SettleReportsError(cfg, env.mode, exit, gas, p.wanted, p.kept, block, p.pool);
      case Executed(writes, gas) =>
        CompleteIsAtomic(cfg, writes, gas, p.wanted, p.kept, block, p.pool);
    }
  }

  /** The gas a transaction asks for: the limit of the meter its ante handler leaves, if the handler returns at all. */
  function WantedGas(cfg: Config, env: Env, s: Store, txBytes: Blob): nat
  {
    var tx := cfg.decode(txBytes);
    if tx.None? || ValidateBasic(cfg, tx.value.msgs).Some? || cfg.ante.None? then 0
    else match cfg.ante.value(env, s, tx.value)
      case AntePanicked(_, _) => 0
      case AnteReturned(_, meter, _, _) => if meter.Some? && meter.value.Limited? then meter.value.limit else MAX_UINT64
  }

  lemma FinishReports(cfg: Config, env: Env, s: Store, block: Meter, p: Progress)
    ensures var e, g := Finish(cfg, env, s, block, p), EndGas(cfg, env, s, p);
            e.used == g.Current().consumed && e.base == g.base && e.wanted == p.wanted
  {
    hide ExecStage, RecoverError;
  }

  /** On every path a transaction reports the gas it asked for and the gas on its meter, and its state's meter keeps its reading. */
  lemma GasReported(cfg: Config, env: Env, s: Store, base: nat, block: Meter, pool: Pool, txBytes: Blob)
    requires !(env.mode.Finalize? && block.IsOutOfGas())
    ensures var e := RunTx(cfg, env, s, base, block, pool, txBytes);
            var g, d := FinalGas(cfg, env, s, base, pool, txBytes), DirectTx(cfg, env, s, base + cfg.paramsGas(s), txBytes);
            && e.wanted == WantedGas(cfg, env, s, txBytes) && e.used == g.Current().consumed && e.base == g.base
            && (RunsMessages(env.mode) && e.err.None? ==> d.Some? && g == d.value.1)
  {
    hide Finish, ExecStage, DirectBody, Overlay, AfterAnte, ValidateBasic;
    var base' := base + cfg.paramsGas(s);
    var a := AnteStage(cfg, env, s, base', pool, txBytes);
    var p := MempoolStage(cfg, env.mode, a);
    AnteStageIsDirect(cfg, env, s, base', pool, txBytes);
    FinishReports(cfg, env, s, block, p);
    FinishRuns(cfg, env, s, block, p);
    if RunsMessages(env.mode) && p.Running? {
      ExecIsDirect(cfg, env, Overlay(s, p.kept), p.tx, p.gas);
    }
  }

  lemma FinishRuns(cfg: Config, env: Env, s: Store, block: Meter, p: Progress)
    ensures Finish(cfg, env, s, block, p).err.None? ==> p.Running? && ExecStage(cfg, env, Overlay(s, p.kept), p.tx, p.gas).Executed?
  {
    hide ExecStage, Settle;
    if p.Stopped? {
      SettleReportsError(cfg, env.mode, p.exit, p.gas, p.wanted, p.kept, block, p.pool);
    } else {
      match ExecStage(cfg, env, Overlay(s, p.kept), p.tx, p.gas)
      case Aborted(exit, gas) =>
        SettleReportsError(cfg, env.mode, exit, gas, p.wanted, p.kept, block, p.pool);
      case Executed(_, _) =>
    }
  }

  /** The state a block is executed on. */
  datatype BlockState = BlockState(store: Store, base: nat, block: Meter, pool: Pool)

  function Deliver(cfg: Config, header: Header, b: BlockState, txBytes: Blob): TxEffect {
    RunTx(cfg, Env(Finalize, header), b.store, b.base, b.block, b.pool, txBytes)
  }

  /** Raw transactions that do not decode are skipped. */
  function DeliverOne(cfg: Config, header: Header, b: BlockState, txBytes: Blob): BlockState
  {
    if cfg.decode(txBytes).None? then b
    else
      var e := Deliver(cfg, header, b, txBytes);
      BlockState(Overlay(b.store, e.writes), e.base, e.block, e.pool)
  }

  function DeliverAll(cfg: Config, header: Header, b: BlockState, txs: seq<Blob>): BlockState
    decreases |txs|
  {
    if txs == [] then b else DeliverAll(cfg, header, DeliverOne(cfg, header, b, txs[0]), txs[1..])
  }

  /** What the next raw transaction adds to the block meter: nothing once the block is out of gas. */
  function Charge(cfg: Config, header: Header, b: BlockState, txBytes: Blob): nat
  {
    if cfg.decode(txBytes).None? || b.block.IsOutOfGas() then 0
    else FinalGas(cfg, Env(Finalize, header), b.store, b.base, b.pool, txBytes).Current().ConsumedToLimit()
  }

  function TotalCharge(cfg: Config, header: Header, b: BlockState, txs: seq<Blob>): nat
    decreases |txs|
  {
    if txs == [] then 0
    else Charge(cfg, header, b, txs[0]) + TotalCharge(cfg, header, DeliverOne(cfg, header, b, txs[0]), txs[1..])
  }

  /**
    Every transaction that passes the entry check charges the block meter exactly once, on every exit path;
    other modes never do. A delivered transaction that reports no error passed the entry check and its charge raised nothing.
   */
  lemma ChargedExactlyOnce(cfg: Config, env: Env, s: Store, base: nat, block: Meter, pool: Pool, txBytes: Blob)
    ensures var e := RunTx(cfg, env, s, base, block, pool, txBytes);
            var amount := FinalGas(cfg, env, s, base, pool, txBytes).Current().ConsumedToLimit();
            && e.block == (if env.mode.Finalize? && !block.IsOutOfGas() then block.After(amount) else block)
            && (env.mode.Finalize? && e.err.None? ==> !block.IsOutOfGas() && block.Raises(amount).None?)
  {
    hide Finish, EndGas, AnteStage;
    FinishCharges(cfg, env, s, block, MempoolStage(cfg, env.mode, AnteStage(cfg, env, s, base + cfg.paramsGas(s), pool, txBytes)));
  }

  /** Once the block is out of gas no later transaction changes the state or the meter. */
  lemma {:induction false} ExhaustedBlockIsFrozen(cfg: Config, header: Header, b: BlockState, txs: seq<Blob>)
    requires b.block.IsOutOfGas()
    ensures var b' := DeliverAll(cfg, header, b, txs);
            b'.store == b.store && b'.block == b.block && b'.pool == b.pool
    decreases |txs|
  {
    if txs != [] {
      OverlayNothing(b.store);
      ExhaustedBlockIsFrozen(cfg, header, DeliverOne(cfg, header, b, txs[0]), txs[1..]);
    }
  }

  /** As long as the block is not out of gas, its meter reads the sum of the charges so far. */
  lemma {:induction false} MeterReadsTotal(cfg: Config, header: Header, b: BlockState, txs: seq<Blob>)
    requires b.block.Limited? && b.block.limit <= MAX_UINT64
    ensures var b' := DeliverAll(cfg, header, b, txs);
            && b'.block.Limited? && b'.block.limit == b.block.limit
            && (!b'.block.IsOutOfGas() ==> b'.block.consumed == b.block.consumed + TotalCharge(cfg, header, b, txs))
    decreases |txs|
  {
    if txs != [] {
      var b1 := DeliverOne(cfg, header, b, txs[0]);
      ChargedExactlyOnce(cfg, Env(Finalize, header), b.store, b.base, b.block, b.pool, txs[0]);
      MeterReadsTotal(cfg, header, b1, txs[1..]);
      var amount := Charge(cfg, header, b, txs[0]);
      if b1.block.IsOutOfGas() {
        ExhaustedBlockIsFrozen(cfg, header, b1, txs[1..]);
      } else if cfg.decode(txs[0]).Some? && b.block.Raises(amount).Some? {
        LoudChargeExhausts(b.block, amount);
      }
    }
  }

  /**
    Block gas over a whole block: up to and including any transaction that committed its messages, the
    gas charged is within the block limit.
   */
  lemma CommittedGasWithinLimit(cfg: Config, header: Header, b: BlockState, txs: seq<Blob>, last: Blob)
    requires b.block.Limited? && b.block.limit <= MAX_UINT64
    requires cfg.decode(last).Some? && Deliver(cfg, header, DeliverAll(cfg, header, b, txs), last).err.None?
    ensures b.block.consumed + TotalCharge(cfg, header, b, txs) + Charge(cfg, header, DeliverAll(cfg, header, b, txs), last)
         <= b.block.limit
  {
    var b' := DeliverAll(cfg, header, b, txs);
    MeterReadsTotal(cfg, header, b, txs);
    ChargedExactlyOnce(cfg, Env(Finalize, header), b'.store, b'.base, b'.block, b'.pool, last);
  }

  /** The charges so far reach the limit exactly if the block is out of gas. */
  lemma {:induction false} ExhaustedIff(cfg: Config, header: Header, b: BlockState, txs: seq<Blob>)
    requires b.block.Limited? && b.block.limit <= MAX_UINT64
    ensures var b' := DeliverAll(cfg, header, b, txs);
            b'.block.IsOutOfGas() <==> b.block.limit <= b.block.consumed + TotalCharge(cfg, header, b, txs)
  {
    hide Deliver;
    MeterReadsTotal(cfg, header, b, txs);
    MeterReadsAtMost(cfg, header, b, txs);
  }

  lemma {:induction false} MeterReadsAtMost(cfg: Config, header: Header, b: BlockState, txs: seq<Blob>)
    requires b.block.Limited?
    ensures DeliverAll(cfg, header, b, txs).block.consumed <= b.block.consumed + TotalCharge(cfg, header, b, txs)
    decreases |txs|
  {
    if txs != [] {
      ChargedExactlyOnce(cfg, Env(Finalize, header), b.store, b.base, b.block, b.pool, txs[0]);
      MeterReadsAtMost(cfg, header, DeliverOne(cfg, header, b, txs[0]), txs[1..]);
    }
  }

  /** What the transactions of a block charge, one after another. */
  function Charges(cfg: Config, header: Header, b: BlockState, txs: seq<Blob>): seq<nat>
    decreases |txs|
  {
    if txs == [] then []
    else [Charge(cfg, header, b, txs[0])] + Charges(cfg, header, DeliverOne(cfg, header, b, txs[0]), txs[1..])
  }

  /** A 64-bit counter that starts again from zero with a charge that overflows it. */
  function Counter(reading: nat, charges: seq<nat>): nat
    decreases |charges|
  {
    if charges == [] then reading
    else Counter(if MAX_UINT64 < reading + charges[0] then 0 else reading + charges[0], charges[1..])
  }

  lemma {:induction false} UnlimitedReads(cfg: Config, header: Header, b: BlockState, txs: seq<Blob>)
    requires b.block.Unlimited? && b.block.consumed <= MAX_UINT64
    ensures DeliverAll(cfg, header, b, txs).block == Unlimited(Counter(b.block.consumed, Charges(cfg, header, b, txs)))
    decreases |txs|
  {
    hide RunTx, FinalGas;
    if txs != [] {
      ChargedExactlyOnce(cfg, Env(Finalize, header), b.store, b.base, b.block, b.pool, txs[0]);
      var b1 := DeliverOne(cfg, header, b, txs[0]);
      UnlimitedReads(cfg, header, b1, txs[1..]);
      assert Charges(cfg, header, b, txs)[1..] == Charges(cfg, header, b1, txs[1..]);
    }
  }

  lemma {:induction false} ChargesAppend(cfg: Config, header: Header, b: BlockState, txs: seq<Blob>, next: Blob)
    ensures TotalCharge(cfg, header, b, txs + [next])
         == TotalCharge(cfg, header, b, txs) + Charge(cfg, header, DeliverAll(cfg, header, b, txs), next)
    decreases |txs|
  {
    hide DeliverOne, Charge;
    if txs == [] {
      assert [] + [next] == [next] && [next][1..] == [];
      assert TotalCharge(cfg, header, DeliverOne(cfg, header, b, next), []) == 0;
    } else {
      assert (txs + [next])[1..] == txs[1..] + [next];
      ChargesAppend(cfg, header, DeliverOne(cfg, header, b, txs[0]), txs[1..], next);
    }
  }

  lemma SettleIsOther(cfg: Config, mode: Mode, exit: Exit, gas: GasCtx, wanted: nat, kept: Writes, block: Meter, pool: Pool)
    requires NeverAnswers(cfg.recovery, NoBlockGasLeft) && exit != Return(NoBlockGasLeft)
    ensures Settle(cfg, mode, exit, gas, wanted, kept, block, pool).err != Some(NoBlockGasLeft)
  {
    forall p: PanicValue
      ensures RecoverError(cfg.recovery, p, wanted, gas.Current().consumed) != Some(NoBlockGasLeft)
    {
      RecoveryNeverSilent(cfg.recovery, p, wanted, gas.Current().consumed);
      LatestIsAnswer(cfg.recovery, p, NoBlockGasLeft);
    }
  }

  lemma {:induction false} MsgsExit(cfg: Config, env: Env, view: Store, msgs: seq<Msg>, i: nat, done: Writes, gas: GasCtx)
    requires i <= |msgs|
    ensures var x := RunMsgs(cfg, env, view, msgs, i, done, gas); x.Aborted? ==> x.exit != Return(NoBlockGasLeft)
    decreases |msgs| - i
  {
    if i < |msgs| && RunsMessages(env.mode) && cfg.routed(msgs[i]) {
      var r := cfg.handle(env, Overlay(view, done), gas.Current(), msgs[i]);
      if r.Done? {
        MsgsExit(cfg, env, view, msgs, i + 1, done + r.writes, gas.Reading(r.gas));
      }
    }
  }

  lemma FinishIsOther(cfg: Config, env: Env, s: Store, block: Meter, p: Progress)
    requires NeverAnswers(cfg.recovery, NoBlockGasLeft) && (p.Stopped? ==> p.exit != Return(NoBlockGasLeft))
    ensures Finish(cfg, env, s, block, p).err != Some(NoBlockGasLeft)
  {
    hide Settle, NeverAnswers, Overlay, RunMsgs;
    if p.Stopped? {
      SettleIsOther(cfg, env.mode, p.exit, p.gas, p.wanted, p.kept, block, p.pool);
    } else {
      var view := Overlay(s, p.kept);
      MsgsExit(cfg, env, view, p.tx.msgs, 0, map[], p.gas);
      match ExecStage(cfg, env, view, p.tx, p.gas)
      case Aborted(exit, gas) =>
        SettleIsOther(cfg, env.mode, exit, gas, p.wanted, p.kept, block, p.pool);
      case Executed(writes, gas) =>
        var raised := block.Raises(gas.Current().ConsumedToLimit());
        if raised.Some? {
          RecoveryNeverSilent(cfg.recovery, raised.value, p.wanted, gas.Current().consumed);
          LatestIsAnswer(cfg.recovery, raised.value, NoBlockGasLeft);
        }
    }
  }

  /** A delivered transaction is turned away with this error exactly if the block was out of gas when it came. */
  lemma TurnedAwayIff(cfg: Config, header: Header, s: Store, base: nat, block: Meter, pool: Pool, txBytes: Blob)
    requires NeverAnswers(cfg.recovery, NoBlockGasLeft)
    ensures RunTx(cfg, Env(Finalize, header), s, base, block, pool, txBytes).err == Some(NoBlockGasLeft) <==> block.IsOutOfGas()
  {
    hide Finish, NeverAnswers;
    var env := Env(Finalize, header);
    FinishIsOther(cfg, env, s, block, MempoolStage(cfg, Finalize, AnteStage(cfg, env, s, base + cfg.paramsGas(s), pool, txBytes)));
  }
}

/** The application object: its methods change its fields step by step and are proved to do what the calls of `App` say. */
module BaseApp {
  import opened Wrappers
  import opened Stores
  import opened Gas
  import opened Recovery
  import opened TxPipeline
  import opened App

  /** Finds the first message that fails its own validation. */
  method ValidateBasicTxMsgs(cfg: Config, msgs: seq<Msg>) returns (err: Option<Error>)
    ensures err == ValidateBasic(cfg, msgs)
  {
    if |msgs| == 0 {
      return Some(NoMessages);
    }
    for i := 0 to |msgs|
      invariant FirstInvalid(cfg, msgs, 0) == FirstInvalid(cfg, msgs, i)
    {
      if !cfg.validBasic(msgs[i]) {
        return Some(InvalidMessage(i));
      }
    }
    return None;
  }

  /** Runs the messages on one branch, leaving the loop at once in the modes that do not execute messages. */
  method ExecuteMsgs(cfg: Config, env: Env, view: Store, msgs: seq<Msg>, start: GasCtx) returns (x: Execution)
    ensures x == RunMsgs(cfg, env, view, msgs, 0, map[], start)
  {
    var done: Writes, gas := map[], start;
    for i := 0 to |msgs|
      invariant RunMsgs(cfg, env, view, msgs, 0, map[], start) == RunMsgs(cfg, env, view, msgs, i, done, gas)
    {
      if !RunsMessages(env.mode) {
        break;
      }
      if !cfg.routed(msgs[i]) {
        return Aborted(Return(Unroutable(i)), gas);
      }
      match cfg.handle(env, Overlay(view, done), gas.Current(), msgs[i]) {
        case Failed(c, g) => return Aborted(Return(MessageFailed(i, c)), gas.Reading(g));
        case Panicked(p, g) => return Aborted(Panic(p), gas.Reading(g));
        case Done(w, g) =>
          done, gas := done + w, gas.Reading(g);
      }
    }
    return Executed(done, gas);
  }

  /** Messages and post handler, on one branch of `view`. */
  method ExecuteBody(cfg: Config, env: Env, view: Store, tx: Tx, gas: GasCtx) returns (x: Execution)
    ensures x == ExecStage(cfg, env, view, tx, gas)
  {
    if !tx.v2 {
      return Aborted(Return(NoMessagesV2), gas);
    }
    x := ExecuteMsgs(cfg, env, view, tx.msgs, gas);
    if x.Executed? && cfg.post.Some? {
      var gas := x.gas;
      match cfg.post.value(env, Overlay(view, x.writes), gas.Current(), tx) {
        case Failed(c, g) => x := Aborted(Return(PostRejected(c)), gas.Reading(g));
        case Panicked(p, g) => x := Aborted(Panic(p), gas.Reading(g));
        case Done(w, g) => x := Executed(x.writes + w, gas.Reading(g));
      }
    }
  }

  /** Up to the mempool; the ante handler's branch is kept as soon as the handler succeeds. */
  method ExecuteAnte(cfg: Config, env: Env, view: Store, base: nat, pool0: Pool, txBytes: Blob) returns (p: Progress)
    ensures p == MempoolStage(cfg, env.mode, AnteStage(cfg, env, view, base, pool0, txBytes))
  {
    var gas, pool, wanted, kept: Writes := GasCtx(base, None), pool0, 0, map[];
    var decoded := cfg.decode(txBytes);
    if decoded.None? {
      return Stopped(Return(DecodeFailed), gas, 0, map[], pool);
    }
    var tx := decoded.value;
    var invalid := ValidateBasicTxMsgs(cfg, tx.msgs);
    if invalid.Some? {
      return Stopped(Return(invalid.value), gas, 0, map[], pool);
    }
    if cfg.ante.Some? {
      match cfg.ante.value(env, view, tx) {
        case AntePanicked(v, g) => return Stopped(Panic(v), GasCtx(base + g, None), 0, map[], pool);
        case AnteReturned(e, meter, g, w) =>
          gas := GasCtx(base + g, meter);
          wanted := gas.Current().Limit();
          if e.Some? {
            return Stopped(Return(AnteRejected(e.value)), gas, wanted, map[], pool);
          }
          kept := w;
      }
    }
    if env.mode.Check? {
      var inserted := cfg.insert(pool, tx);
      pool := inserted.1;
      if inserted.0.Some? {
        return Stopped(Return(InsertFailed(inserted.0.value)), gas, wanted, kept, pool);
      }
    } else if env.mode.Finalize? {
      var removed := cfg.remove(pool, tx);
      pool := removed.1;
      if removed.0.Broken? {
        return Stopped(Return(RemoveFailed(removed.0.code)), gas, wanted, kept, pool);
      }
    }
    return Running(tx, gas, wanted, kept, pool);
  }

  /**
    One transaction. The two deferred steps come last, in the order they run: the block charge, unless it
    has already been made, and then the recovery of whatever panic is pending.
   */
  method ExecuteTx(cfg: Config, env: Env, view: Store, base0: nat, block0: Meter, pool: Pool, txBytes: Blob) returns (e: TxEffect)
    ensures e == RunTx(cfg, env, view, base0, block0, pool, txBytes)
  {
    hide AnteStage, MempoolStage, ExecStage, Overlay, RecoverError;
    var base := base0 + cfg.paramsGas(view);
    if env.mode.Finalize? && block0.IsOutOfGas() {
      return TxEffect(map[], base, block0, pool, Some(NoBlockGasLeft), 0, 0);
    }

    var p := ExecuteAnte(cfg, env, view, base, pool, txBytes);
    var gas, kept, block, blockGasConsumed := p.gas, p.kept, block0, false;
    var exit := if p.Stopped? then Some(p.exit) else None;
    if p.Running? {
      var x := ExecuteBody(cfg, env, Overlay(view, kept), p.tx, gas);
      gas := x.gas;
      if x.Aborted? {
        exit := Some(x.exit);
      } else if env.mode.Finalize? {
        blockGasConsumed := true;
        var raised := block.Raises(gas.Current().ConsumedToLimit());
        block := block.After(gas.Current().ConsumedToLimit());
        if raised.Some? {
          exit := Some(Panic(raised.value));
        } else {
          kept := kept + x.writes;
        }
      }
    }

    if env.mode.Finalize? && !blockGasConsumed {
      var raised := block.Raises(gas.Current().ConsumedToLimit());
      block := block.After(gas.Current().ConsumedToLimit());
      if raised.Some? {
        exit := Some(Panic(raised.value));
      }
    }
    var used, err := gas.Current().consumed, None;
    match exit {
      case None =>
      case Some(Return(e)) => err := Some(e);
      case Some(Panic(v)) => err := RecoverError(cfg.recovery, v, p.wanted, used);
    }
    return TxEffect(kept, gas.base, block, p.pool, err, p.wanted, used);
  }

  /** An answer of the proposer's loop, with the transactions already selected in front. */
  ghost function Prepend(txs: seq<Blob>, r: (App, Option<seq<Blob>>)): (App, Option<seq<Blob>>) {
    (r.0, if r.1.None? then None else Some(txs + r.1.value))
  }

  lemma Prepended(a: seq<Blob>, b: seq<Blob>, r: (App, Option<seq<Blob>>))
    ensures Prepend(a, Prepend(b, r)) == Prepend(a + b, r)
    ensures Prepend([], r) == r
  {
    if r.1.Some? {
      assert a + (b + r.1.value) == a + b + r.1.value && [] + r.1.value == r.1.value;
    }
  }


  class BaseApp {
    const ac: AppConfig

    var committed: Store
    var working: Store
    var version: nat
    var initialVersion: int
    var initialHeight: int
    var check: State
    var prepare: Option<State>
    var process: Option<State>
    var vote: Option<State>
    var finalize: Option<State>
    var pool: Pool

    function Abs(): App
      reads this
    {
      App(committed, working, version, initialVersion, initialHeight, check, prepare, process, vote, finalize, pool)
    }

    /** A node over a store at some version, with nothing in flight. */
    constructor (ac: AppConfig, store: Store, version: nat, pool: Pool)
      ensures this.ac == ac
      ensures Abs() == App(store, store, version, 0, 0, FreshState(Header(ac.chainId, 0, 0)), None, None, None, None, pool)
    {
      this.ac := ac;
      committed, working := store, store;
      this.version, initialVersion, initialHeight := version, 0, 0;
      check := FreshState(Header(ac.chainId, 0, 0));
      prepare, process, vote, finalize := None, None, None, None;
      this.pool := pool;
    }

    method SetState(mode: Mode, st: State)
      modifies this
      ensures Abs() == PutState(old(Abs()), mode, st)
    {
      match mode {
        case Finalize => finalize := Some(st);
        case PrepareProposal => prepare := Some(st);
        case ProcessProposal => process := Some(st);
        case _ => check := st;
      }
    }

    /** Writes a transaction's branches into the mode's state; a simulation's context is itself a throw-away branch. */
    method Save(mode: Mode, writes: Writes, base: nat, block: Meter, pool: Pool)
      requires HasState(Abs(), mode)
      modifies this
      ensures Abs() == PutEffect(PutBase(old(Abs()), mode, base), mode, writes, block).(pool := pool)
    {
      var st := StateOf(Abs(), mode);
      if !mode.Simulate? {
        st := st.(writes := st.writes + writes);
      }
      if st.shared && !mode.Finalize? {
        finalize := Some(finalize.value.(base := base));
      } else {
        st := st.(base := base);
      }
      SetState(mode, st.(block := block));
      this.pool := pool;
    }

    /** One transaction in one mode. */
    method RunTransaction(mode: Mode, txBytes: Blob) returns (e: TxEffect)
      requires HasState(Abs(), mode)
      modifies this
      ensures (Abs(), e) == RunTxIn(ac.tx, old(Abs()), mode, txBytes)
    {
      hide RunTx;
      var st := StateOf(Abs(), mode);
      e := ExecuteTx(ac.tx, Env(mode, st.header), View(Abs(), st), BaseGas(Abs(), st), st.block, pool, txBytes);
      Save(mode, e.writes, e.base, e.block, e.pool);
    }

    /** Genesis: the states are reset, the chain initializer writes into the finalize state. */
    method InitializeChain(chainId: string, initialHeight: int, time: int, genesis: Blob) returns (ok: bool)
      modifies this
      ensures ok == (chainId == ac.chainId) && (!ok ==> Abs() == old(Abs()))
      ensures Abs() == InitChain(ac, old(Abs()), chainId, initialHeight, time, genesis)
    {
      if chainId != ac.chainId {
        return false;
      }
      this.initialHeight := initialHeight;
      if initialHeight > 1 {
        initialVersion := initialHeight;
      }
      var header := Header(chainId, initialHeight, time);
      finalize := Some(FreshState(header));
      check := FreshState(header);
      var r := ac.init(working, genesis);
      finalize := Some(finalize.value.(writes := r.0, base := r.1));
      return true;
    }

    method CheckTransaction(recheck: bool, txBytes: Blob) returns (e: TxEffect)
      requires HasState(Abs(), Check)
      modifies this
      ensures (Abs(), e) == CheckTx(ac, old(Abs()), recheck, txBytes)
    {
      e := RunTransaction(if recheck then ReCheck else Check, txBytes);
    }

    method SimulateTransaction(txBytes: Blob) returns (e: TxEffect)
      requires HasState(Abs(), Check)
      modifies this
      ensures (Abs(), e) == SimulateTx(ac, old(Abs()), txBytes)
    {
      e := RunTransaction(Simulate, txBytes);
    }

    /** The context of a proposal round: the consensus parameters are read twice on its meter. */
    method OpenProposal(mode: Mode)
      requires mode.PrepareProposal? || mode.ProcessProposal?
      requires HasState(Abs(), mode)
      modifies this
      ensures var st := old(StateOf(Abs(), mode));
              var view := old(View(Abs(), st));
              Abs() == PutEffect(PutBase(old(Abs()), mode, old(BaseGas(Abs(), st)) + 2 * ac.tx.paramsGas(view)), mode, map[], BlockMeter(ac, view))
    {
      var st := StateOf(Abs(), mode);
      var view := View(Abs(), st);
      Save(mode, map[], BaseGas(Abs(), st) + 2 * ac.tx.paramsGas(view), BlockMeter(ac, view), pool);
    }

    /** The mempool's transactions that verify, until the next one would not fit; `None` when removing one panics. */
    method SelectTxs(pending: seq<Tx>, maxBytes: int) returns (selected: Option<seq<Blob>>)
      requires HasState(Abs(), TxPipeline.PrepareProposal)
      modifies this
      ensures (Abs(), selected) == PrepareLoop(ac, old(Abs()), pending, 0, maxBytes)
    {
      hide RunTxIn;
      var txs: seq<Blob>, total := [], 0;
      ghost var goal := PrepareLoop(ac, Abs(), pending, 0, maxBytes);
      assert pending[0..] == pending;
      Prepended([], [], goal);
      for i := 0 to |pending|
        invariant HasState(Abs(), TxPipeline.PrepareProposal)
        invariant goal == Prepend(txs, PrepareLoop(ac, Abs(), pending[i..], total, maxBytes))
      {
        assert pending[i..][0] == pending[i] && pending[i..][1..] == pending[i + 1..];
        var bz := ac.tx.encode(pending[i]);
        var err := bz.None?;
        if bz.Some? {
          var e := RunTransaction(TxPipeline.PrepareProposal, bz.value);
          err := e.err.Some?;
        }
        if err {
          var removed := ac.tx.remove(pool, pending[i]);
          pool := removed.1;
          if removed.0.Broken? {
            return None;
          }
        } else {
          total := total + |bz.value|;
          if total > maxBytes {
            assert txs + [] == txs;
            return Some(txs);
          }
          Prepended(txs, [bz.value], PrepareLoop(ac, Abs(), pending[i + 1..], total, maxBytes));
          txs := txs + [bz.value];
        }
      }
      assert txs + [] == txs;
      return Some(txs);
    }

    /** The default proposal. */
    method PrepareProposal(header: Header, maxBytes: int, reqTxs: seq<Blob>) returns (txs: seq<Blob>)
      requires 1 <= header.height == initialHeight ==> HasState(Abs(), Finalize)
      modifies this
      ensures (Abs(), txs) == PrepareProposalCall(ac, old(Abs()), header, maxBytes, reqTxs)
    {
      hide PrepareLoop;
      if header.height < 1 {
        prepare := Some(FreshState(header));
        return [];
      }
      prepare := Some(ProposalState(Abs(), header));
      OpenProposal(TxPipeline.PrepareProposal);
      if ac.noOpMempool {
        return reqTxs;
      }
      var selected := SelectTxs(ac.select(pool, reqTxs), maxBytes);
      return if selected.None? then [] else selected.value;
    }

    /** Every transaction decodes and verifies, in order. */
    method VerifyTxs(txs: seq<Blob>) returns (accepted: bool)
      requires HasState(Abs(), TxPipeline.ProcessProposal)
      modifies this
      ensures (Abs(), accepted) == ProcessLoop(ac, old(Abs()), txs)
    {
      hide RunTxIn;
      ghost var goal := ProcessLoop(ac, Abs(), txs);
      assert txs[0..] == txs;
      for i := 0 to |txs|
        invariant HasState(Abs(), TxPipeline.ProcessProposal)
        invariant goal == ProcessLoop(ac, Abs(), txs[i..])
      {
        assert txs[i..][0] == txs[i] && txs[i..][1..] == txs[i + 1..];
        if ac.tx.decode(txs[i]).None? {
          return false;
        }
        var e := RunTransaction(TxPipeline.ProcessProposal, txs[i]);
        if e.err.Some? {
          return false;
        }
      }
      return true;
    }

    /** The default verdict. */
    method ProcessProposal(header: Header, txs: seq<Blob>) returns (accepted: bool)
      requires 1 <= header.height == initialHeight ==> HasState(Abs(), Finalize)
      modifies this
      ensures (Abs(), accepted) == ProcessProposalCall(ac, old(Abs()), header, txs)
    {
      hide ProcessLoop;
      if header.height < 1 {
        return false;
      }
      process := Some(ProposalState(Abs(), header));
      if header.height > initialHeight {
        finalize := Some(FreshState(header));
      }
      OpenProposal(TxPipeline.ProcessProposal);
      accepted := VerifyTxs(txs);
    }

    method ExtendVoteFor(header: Header)
      modifies this
      ensures Abs() == ExtendVote(ac, old(Abs()), header)
    {
      vote := Some(FreshState(header));
      vote := Some(vote.value.(writes := ac.extend(header, working)));
    }

    /** Every raw transaction that decodes, in order. */
    method DeliverTxs(txs: seq<Blob>)
      requires HasState(Abs(), Finalize)
      modifies this
      ensures Abs() == DeliverLoop(ac.tx, old(Abs()), txs)
    {
      hide RunTxIn;
      ghost var goal := DeliverLoop(ac.tx, Abs(), txs);
      assert txs[0..] == txs;
      for i := 0 to |txs|
        invariant HasState(Abs(), Finalize)
        invariant goal == DeliverLoop(ac.tx, Abs(), txs[i..])
      {
        assert txs[i..][0] == txs[i] && txs[i..][1..] == txs[i + 1..];
        if ac.tx.decode(txs[i]).Some? {
          var _ := RunTransaction(Finalize, txs[i]);
        }
      }
    }

    /** The finalize state is created, or given the block's header; then the begin blocker runs on it. */
    method OpenBlock(header: Header)
      requires finalize.Some? ==> !finalize.value.shared
      modifies this
      ensures Abs() == BeginBlock(ac, old(Abs()), header)
    {
      hide Overlay;
      if finalize.None? {
        finalize := Some(FreshState(header));
      } else {
        finalize := Some(finalize.value.(header := header));
      }
      var st, view := finalize.value, Overlay(working, finalize.value.writes);
      var b := ac.begin(header, view);
      finalize := Some(st.(writes := st.writes + b.0, base := st.base + 2 * ac.tx.paramsGas(view) + b.1, block := BlockMeter(ac, view)));
    }

    /** The end blocker runs, and the finalize state is written into the multistore. */
    method CloseBlock(header: Header)
      requires HasState(Abs(), Finalize)
      modifies this
      ensures Abs() == EndBlock(ac, old(Abs()), header)
    {
      hide Overlay;
      var st, view := finalize.value, Overlay(working, finalize.value.writes);
      var e := ac.end(header, view);
      working := Overlay(working, st.writes + e.0);
      finalize := Some(st.(writes := map[], base := st.base + e.1 + ac.tx.paramsGas(working)));
    }

    /** One block: begin block, the transactions, end block, and the hash of the flushed state. */
    method FinalizeBlockOf(header: Header, txs: seq<Blob>) returns (hash: Option<Blob>)
      requires finalize.Some? ==> !finalize.value.shared
      modifies this
      ensures (Abs(), hash) == FinalizeBlock(ac, old(Abs()), header, txs)
    {
      hide DeliverLoop, EndBlock;
      if header.height < 1 || header.height != NextHeight(Abs()) {
        return None;
      }
      OpenBlock(header);
      DeliverTxs(txs);
      CloseBlock(header);
      return Some(ac.hash(working));
    }

    /** The working state becomes the committed one; checks restart from it and the finalize state is dropped. */
    method CommitBlock()
      requires finalize.Some?
      modifies this
      ensures Abs() == Commit(old(Abs()))
    {
      var header := finalize.value.header;
      version := if version == 0 && initialVersion > 1 then initialVersion else version + 1;
      committed := working;
      check := FreshState(header);
      finalize := None;
    }
  }
}

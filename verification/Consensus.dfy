/**
  Whole runs. A node is driven by any legal interleaving of consensus and client calls; what it commits
  is compared with a reference that knows only the blocks.
 */
module Consensus {
  import opened Wrappers
  import opened Stores
  import opened Gas
  import opened Recovery
  import opened TxPipeline
  import opened Delivery
  import opened App
  import opened Agreement

  // ---------------------------------------------------------------- calls and their legal order

  datatype Call =
    | CallInitChain(initialHeight: int, time: int, genesis: Blob)
    | CallCheckTx(recheck: bool, txBytes: Blob)
    | CallSimulate(txBytes: Blob)
    | CallPrepare(header: Header, maxBytes: int, txs: seq<Blob>)
    | CallProcess(header: Header, txs: seq<Blob>)
    | CallExtendVote(header: Header)
    | CallFinalize(header: Header, txs: seq<Blob>)
    | CallCommit

  /** Where the node is: before genesis, between two blocks, or with a decided block not yet committed. */
  datatype Phase = Unborn | Between | Decided

  /** What was persisted at a height, and the application hash answered for it. */
  datatype Commitment = Commitment(height: int, store: Store, hash: Option<Blob>)

  /** `hash` is what the last FinalizeBlock answered; `log` is what has been committed since the node started. */
  datatype Node = Node(app: App, phase: Phase, hash: Option<Blob>, log: seq<Commitment>)

  /** "Valid method call sequences" of the ABCI++ specification. */
  predicate Legal(n: Node, call: Call) {
    match call
    case CallInitChain(h, _, _) => n.phase == Unborn && 1 <= h
    case CallCheckTx(_, _) => true
    case CallSimulate(_) => true
    case CallPrepare(header, _, _) => n.phase == Between && header.height == NextHeight(n.app)
    case CallProcess(header, _) => n.phase == Between && header.height == NextHeight(n.app)
    case CallExtendVote(header) => n.phase == Between && header.height == NextHeight(n.app)
    case CallFinalize(header, _) => n.phase == Between && header.height == NextHeight(n.app)
    case CallCommit => n.phase == Decided
  }

  /** What every reachable node keeps. */
  predicate Inv(n: Node) {
    var app := n.app;
    && !app.check.shared
    && (app.finalize.Some? ==> !app.finalize.value.shared)
    && (n.phase != Decided ==> app.working == app.committed)
    && (n.phase == Decided ==> app.finalize.Some?)
    && match n.phase
       case Unborn => app.version == 0 && app.finalize.None? && app.initialVersion <= 1
       case _ =>
         if app.version == 0 then
           // genesis waits in the finalize state for the first block
           && 1 <= app.initialHeight == NextHeight(app) == NextVersion(app)
           && app.finalize.Some?
         else
           // a finalize state left by a proposal round is untouched
           && app.initialHeight <= app.version
           && (n.phase == Between && app.finalize.Some? ==> app.finalize.value.writes == map[] && app.finalize.value.base == 0)
  }

  function Step(ac: AppConfig, n: Node, call: Call): Node
    requires Inv(n) && Legal(n, call)
  {
    match call
    case CallInitChain(h, time, genesis) => n.(app := InitChain(ac, n.app, ac.chainId, h, time, genesis), phase := Between)
    case CallCheckTx(recheck, bz) => n.(app := CheckTx(ac, n.app, recheck, bz).0)
    case CallSimulate(bz) => n.(app := SimulateTx(ac, n.app, bz).0)
    case CallPrepare(header, maxBytes, txs) => n.(app := PrepareProposalCall(ac, n.app, header, maxBytes, txs).0)
    case CallProcess(header, txs) => n.(app := ProcessProposalCall(ac, n.app, header, txs).0)
    case CallExtendVote(header) => n.(app := ExtendVote(ac, n.app, header))
    case CallFinalize(header, txs) => var (a, hash) := FinalizeBlock(ac, n.app, header, txs); n.(app := a, phase := Decided, hash := hash)
    case CallCommit =>
      var a := Commit(n.app);
      n.(app := a, phase := Between, log := n.log + [Commitment(a.version, a.committed, n.hash)])
  }

  // ---------------------------------------------------------------- the reference: blocks only

  /** One block, executed in place: begin block, the decodable transactions in order, end block. */
  function ExecuteBlock(ac: AppConfig, header: Header, start: Store, base: nat, pool: Pool, txs: seq<Blob>): Store
  {
    var b := DeliverAll(ac.tx, header, AfterBegin(ac, header, start, base, pool), txs);
    Overlay(b.store, ac.end(header, b.store).0)
  }

  function AfterBegin(ac: AppConfig, header: Header, start: Store, base: nat, pool: Pool): BlockState {
    var (w, g) := ac.begin(header, start);
    BlockState(Overlay(start, w), base + 2 * ac.tx.paramsGas(start) + g, BlockMeter(ac, start), pool)
  }

  /** The branches of FinalizeBlock flatten to executing the block in place. */
  lemma {:induction false} DeliverLoopFlattens(cfg: Config, app: App, txs: seq<Blob>)
    requires HasState(app, Finalize)
    ensures var st, st' := app.finalize.value, DeliverLoop(cfg, app, txs).finalize.value;
            var b := BlockState(Overlay(app.working, st.writes), st.base, st.block, app.pool);
            && st'.header == st.header
            && DeliverAll(cfg, st.header, b, txs) ==
                 BlockState(Overlay(app.working, st'.writes), st'.base, st'.block, DeliverLoop(cfg, app, txs).pool)
    decreases |txs|
  {
    hide RunTx, Overlay;
    if txs != [] {
      var st := app.finalize.value;
      var app1 := if cfg.decode(txs[0]).None? then app else RunTxIn(cfg, app, Finalize, txs[0]).0;
      if cfg.decode(txs[0]).Some? {
        OverlayTwice(app.working, st.writes, RunTxIn(cfg, app, Finalize, txs[0]).1.writes);
      }
      DeliverLoopFlattens(cfg, app1, txs[1..]);
    }
  }

  lemma FinalizeExecutesBlock(ac: AppConfig, app: App, header: Header, txs: seq<Blob>)
    requires app.finalize.Some? ==> !app.finalize.value.shared
    requires 1 <= header.height == NextHeight(app)
    ensures var st := StartFinalize(app, header);
            var (app1, hash) := FinalizeBlock(ac, app, header, txs);
            && app1.working == ExecuteBlock(ac, header, Overlay(app.working, st.writes), st.base, app.pool, txs)
            && hash == Some(ac.hash(app1.working))
            && app1.finalize.Some? && !app1.finalize.value.shared && app1.finalize.value.header == header
            && app1 == app.(working := app1.working, finalize := app1.finalize, pool := app1.pool)
  {
    hide Overlay, RunTxIn, DeliverLoop;
    var st := StartFinalize(app, header);
    var app0 := BeginBlock(ac, app, header);
    OverlayTwice(app.working, st.writes, ac.begin(header, Overlay(app.working, st.writes)).0);
    DeliverLoopFlattens(ac.tx, app0, txs);
    var app' := DeliverLoop(ac.tx, app0, txs);
    var st' := app'.finalize.value;
    OverlayTwice(app.working, st'.writes, ac.end(header, Overlay(app.working, st'.writes)).0);
  }

  /** Only the next height is finalized; any other leaves everything as it was. */
  lemma OnlyNextHeight(ac: AppConfig, app: App, header: Header, txs: seq<Blob>)
    requires app.finalize.Some? ==> !app.finalize.value.shared
    ensures var (app1, hash) := FinalizeBlock(ac, app, header, txs);
            (hash.Some? <==> header.height == NextHeight(app)) && (hash.None? ==> app1 == app)
  {
    hide EndBlock, DeliverLoop, BeginBlock;
  }

  // ---------------------------------------------------------------- the gas of a block

  /** The state before transaction `|txs|` of a block. */
  function Before(ac: AppConfig, header: Header, start: Store, base: nat, pool: Pool, txs: seq<Blob>): BlockState {
    DeliverAll(ac.tx, header, AfterBegin(ac, header, start, base, pool), txs)
  }

  /** The transaction runs through in place, its mempool entry goes, and its gas on top of `charged` is within `limit`. */
  predicate CommitsWithin(cfg: Config, header: Header, b: BlockState, txBytes: Blob, charged: nat, limit: nat) {
    var d := DirectTx(cfg, Env(Finalize, header), b.store, b.base + cfg.paramsGas(b.store), txBytes);
    && d.Some?
    && !cfg.remove(b.pool, cfg.decode(txBytes).value).0.Broken?
    && charged + d.value.1.Current().ConsumedToLimit() <= limit
  }

  /** Without a maximum no transaction is refused for block gas, unless the 64-bit count of it overflows. */
  lemma UnlimitedBlockGas(ac: AppConfig, header: Header, start: Store, base: nat, pool: Pool, txs: seq<Blob>, next: Blob)
    requires ac.maxGas(start) <= 0
    ensures var b := Before(ac, header, start, base, pool, txs);
            var counted := Counter(0, Charges(ac.tx, header, AfterBegin(ac, header, start, base, pool), txs));
            var e, ante := Deliver(ac.tx, header, b, next), AfterAnte(ac.tx, Env(Finalize, header), b.store, next);
            && (e.err.None? <==> CommitsWithin(ac.tx, header, b, next, counted, MAX_UINT64))
            && (e.err.Some? ==> Overlay(b.store, e.writes) == if ante.Some? then ante.value else b.store)
  {
    hide DeliverAll, RunTx, DirectTx, AfterAnte, Overlay, Charges, Counter;
    var b := Before(ac, header, start, base, pool, txs);
    UnlimitedReads(ac.tx, header, AfterBegin(ac, header, start, base, pool), txs);
    DeliverAtomic(ac.tx, header, b.store, b.base, b.block, b.pool, next);
  }

  /** With a maximum: nothing is taken on once the charges have reached it, and what commits stays within it. */
  lemma LimitedBlockGas(ac: AppConfig, header: Header, start: Store, base: nat, pool: Pool, txs: seq<Blob>, next: Blob)
    requires 0 < ac.maxGas(start)
    ensures var b := Before(ac, header, start, base, pool, txs);
            var charged := TotalCharge(ac.tx, header, AfterBegin(ac, header, start, base, pool), txs);
            var e, ante := Deliver(ac.tx, header, b, next), AfterAnte(ac.tx, Env(Finalize, header), b.store, next);
            if ac.maxGas(start) <= charged then
              e == TxEffect(map[], b.base + ac.tx.paramsGas(b.store), b.block, b.pool, Some(NoBlockGasLeft), 0, 0)
            else
              && (e.err.None? <==> CommitsWithin(ac.tx, header, b, next, charged, ac.maxGas(start)))
              && (e.err.Some? ==> Overlay(b.store, e.writes) == if ante.Some? then ante.value else b.store)
  {
    hide DeliverAll, DirectTx, AfterAnte, Overlay, TotalCharge, Finish, AnteStage, MempoolStage;
    var b0, b := AfterBegin(ac, header, start, base, pool), Before(ac, header, start, base, pool, txs);
    MeterReadsTotal(ac.tx, header, b0, txs);
    ExhaustedIff(ac.tx, header, b0, txs);
    DeliverAtomic(ac.tx, header, b.store, b.base, b.block, b.pool, next);
  }

  /** Turned away at entry: exactly if the charges before reach the maximum, and never without one. */
  lemma TurnedAwayAtMaximum(ac: AppConfig, header: Header, start: Store, base: nat, pool: Pool, txs: seq<Blob>, next: Blob)
    requires NeverAnswers(ac.tx.recovery, NoBlockGasLeft)
    ensures Deliver(ac.tx, header, Before(ac, header, start, base, pool, txs), next).err == Some(NoBlockGasLeft) <==>
            0 < ac.maxGas(start) <= TotalCharge(ac.tx, header, AfterBegin(ac, header, start, base, pool), txs)
  {
    hide DeliverAll, RunTx, TotalCharge, NeverAnswers, Charges, Counter;
    var b0, b := AfterBegin(ac, header, start, base, pool), Before(ac, header, start, base, pool, txs);
    TurnedAwayIff(ac.tx, header, b.store, b.base, b.block, b.pool, next);
    if 0 < ac.maxGas(start) {
      ExhaustedIff(ac.tx, header, b0, txs);
    } else {
      UnlimitedReads(ac.tx, header, b0, txs);
    }
  }

  /** The charges up to and including a transaction that committed are within the maximum. */
  lemma CommittedWithinMaximum(ac: AppConfig, header: Header, start: Store, base: nat, pool: Pool, txs: seq<Blob>, next: Blob)
    requires 0 < ac.maxGas(start) && ac.tx.decode(next).Some?
    requires Deliver(ac.tx, header, Before(ac, header, start, base, pool, txs), next).err.None?
    ensures TotalCharge(ac.tx, header, AfterBegin(ac, header, start, base, pool), txs + [next]) <= ac.maxGas(start)
  {
    hide DeliverAll, Deliver, TotalCharge, Charge;
    var b0 := AfterBegin(ac, header, start, base, pool);
    CommittedGasWithinLimit(ac.tx, header, b0, txs, next);
    ChargesAppend(ac.tx, header, b0, txs, next);
  }

  // ---------------------------------------------------------------- what the outcome does not depend on

  /** Removing from the mempool fails at most because the transaction is not there. */
  ghost predicate RemoveOnlyNotFound(cfg: Config) {
    forall pool: Pool, tx: Tx :: !cfg.remove(pool, tx).0.Broken?
  }

  /** On this store the ante handler answers the transaction with a gas meter of its own. */
  predicate BringsMeter(cfg: Config, header: Header, s: Store, txBytes: Blob) {
    && cfg.decode(txBytes).Some? && cfg.ante.Some?
    && var tx := cfg.decode(txBytes).value;
       ValidateBasic(cfg, tx.msgs).None? && MeteredOutcome(cfg.ante.value(Env(Finalize, header), s, tx))
  }

  predicate MeteredOutcome(r: AnteOutcome) {
    r.AnteReturned? && r.meter.Some?
  }

  /** The next raw transaction of a block charges nothing, or what its own meter reads. */
  predicate OwnCharge(cfg: Config, header: Header, b: BlockState, txBytes: Blob) {
    cfg.decode(txBytes).None? || b.block.IsOutOfGas() || BringsMeter(cfg, header, b.store, txBytes)
  }

  /** So do all transactions of a block, each on the state the ones before it left. */
  predicate OwnCharges(cfg: Config, header: Header, b: BlockState, txs: seq<Blob>)
    decreases |txs|
  {
    txs == [] || (OwnCharge(cfg, header, b, txs[0]) && OwnCharges(cfg, header, DeliverOne(cfg, header, b, txs[0]), txs[1..]))
  }

  function Rebase(x: Execution, base: nat): Execution {
    match x
    case Executed(w, gas) => Executed(w, gas.(base := base))
    case Aborted(exit, gas) => Aborted(exit, gas.(base := base))
  }

  lemma {:induction false} MsgsIgnoreBase(cfg: Config, env: Env, view: Store, msgs: seq<Msg>, i: nat, done: Writes, gas: GasCtx, base: nat)
    requires i <= |msgs| && gas.own.Some?
    ensures var x := RunMsgs(cfg, env, view, msgs, i, done, gas);
            && x.gas.own.Some?
            && RunMsgs(cfg, env, view, msgs, i, done, gas.(base := base)) == Rebase(x, base)
    decreases |msgs| - i
  {
    if i < |msgs| && RunsMessages(env.mode) && cfg.routed(msgs[i]) {
      var r := cfg.handle(env, Overlay(view, done), gas.Current(), msgs[i]);
      if r.Done? {
        MsgsIgnoreBase(cfg, env, view, msgs, i + 1, done + r.writes, gas.Reading(r.gas), base);
      }
    }
  }

  lemma ExecIgnoresBase(cfg: Config, env: Env, view: Store, tx: Tx, gas: GasCtx, base: nat)
    requires gas.own.Some?
    ensures var x := ExecStage(cfg, env, view, tx, gas);
            && x.gas.own.Some?
            && ExecStage(cfg, env, view, tx, gas.(base := base)) == Rebase(x, base)
  {
    hide Overlay;
    MsgsIgnoreBase(cfg, env, view, tx.msgs, 0, map[], gas, base);
  }

  /** Two positions of a transaction that differ at most in the mempool and in a meter the transaction does not use. */
  predicate SamePosition(p: Progress, p': Progress) {
    && (p.Running? <==> p'.Running?)
    && p.wanted == p'.wanted && p.kept == p'.kept && p.gas.own == p'.gas.own
    && (p.Running? ==> p.tx == p'.tx)
    && (p.Stopped? ==> p.exit == p'.exit)
    && (p.gas.base == p'.gas.base || p.gas.own.Some?)
  }

  lemma FinishIgnores(cfg: Config, env: Env, s: Store, block: Meter, p: Progress, p': Progress)
    requires SamePosition(p, p')
    ensures var e, e' := Finish(cfg, env, s, block, p), Finish(cfg, env, s, block, p');
            && e.writes == e'.writes && e.block == e'.block && e.err == e'.err
            && e.base + p'.gas.base == e'.base + p.gas.base
  {
    hide ExecStage, Overlay, RecoverError;
    if p.Running? && p.gas.own.Some? {
      ExecIgnoresBase(cfg, env, Overlay(s, p.kept), p.tx, p.gas, p'.gas.base);
      ExecIgnoresBase(cfg, env, Overlay(s, p.kept), p.tx, p.gas, p.gas.base);
      assert p.gas.(base := p'.gas.base) == p'.gas && p.gas.(base := p.gas.base) == p.gas;
    }
  }

  /** Two block states that differ at most in the mempool and in what the finalize state's gas meter reads. */
  predicate Alike(b: BlockState, b': BlockState) {
    b.store == b'.store && b.block == b'.block
  }

  lemma AnteIgnores(cfg: Config, header: Header, s: Store, base: nat, base': nat, pool: Pool, pool': Pool, bz: Blob)
    requires RemoveOnlyNotFound(cfg) && (base == base' || BringsMeter(cfg, header, s, bz))
    ensures var env := Env(Finalize, header);
            var p := MempoolStage(cfg, Finalize, AnteStage(cfg, env, s, base, pool, bz));
            var p' := MempoolStage(cfg, Finalize, AnteStage(cfg, env, s, base', pool', bz));
            SamePosition(p, p') && p.gas.base + base' == p'.gas.base + base
  {
    hide ValidateBasic;
  }

  /** A delivered transaction's outcome depends on the state, the block meter and, unless it charges on its own, the state's meter. */
  lemma DeliverIgnores(cfg: Config, header: Header, b: BlockState, b': BlockState, txBytes: Blob)
    requires RemoveOnlyNotFound(cfg) && Alike(b, b') && (b.base == b'.base || OwnCharge(cfg, header, b, txBytes))
    ensures var a, a' := DeliverOne(cfg, header, b, txBytes), DeliverOne(cfg, header, b', txBytes);
            Alike(a, a') && a.base + b'.base == a'.base + b.base
  {
    hide Finish, Overlay, AnteStage, MempoolStage, SamePosition, BringsMeter;
    if cfg.decode(txBytes).Some? && !b.block.IsOutOfGas() {
      var env := Env(Finalize, header);
      var g := cfg.paramsGas(b.store);
      AnteIgnores(cfg, header, b.store, b.base + g, b'.base + g, b.pool, b'.pool, txBytes);
      var p := MempoolStage(cfg, Finalize, AnteStage(cfg, env, b.store, b.base + g, b.pool, txBytes));
      var p' := MempoolStage(cfg, Finalize, AnteStage(cfg, env, b.store, b'.base + g, b'.pool, txBytes));
      FinishIgnores(cfg, env, b.store, b.block, p, p');
    }
  }

  lemma {:induction false} DeliverAllIgnores(cfg: Config, header: Header, b: BlockState, b': BlockState, txs: seq<Blob>)
    requires RemoveOnlyNotFound(cfg) && Alike(b, b') && (b.base == b'.base || OwnCharges(cfg, header, b, txs))
    ensures Alike(DeliverAll(cfg, header, b, txs), DeliverAll(cfg, header, b', txs))
    decreases |txs|
  {
    hide DeliverOne, OwnCharge, RemoveOnlyNotFound;
    if txs != [] {
      DeliverIgnores(cfg, header, b, b', txs[0]);
      DeliverAllIgnores(cfg, header, DeliverOne(cfg, header, b, txs[0]), DeliverOne(cfg, header, b', txs[0]), txs[1..]);
    }
  }

  /** A block's result does not depend on the node's mempool; nor on the finalize meter, if its transactions charge on their own. */
  lemma BlockIgnores(ac: AppConfig, header: Header, start: Store, base: nat, base': nat, pool: Pool, pool': Pool, txs: seq<Blob>)
    requires RemoveOnlyNotFound(ac.tx)
    requires base == base' || OwnCharges(ac.tx, header, AfterBegin(ac, header, start, base, pool), txs)
    ensures ExecuteBlock(ac, header, start, base, pool, txs) == ExecuteBlock(ac, header, start, base', pool', txs)
  {
    hide DeliverAll, Overlay, OwnCharges;
    DeliverAllIgnores(ac.tx, header, AfterBegin(ac, header, start, base, pool), AfterBegin(ac, header, start, base', pool'), txs);
  }

  // ---------------------------------------------------------------- when charges do depend on the finalize meter

  function MoreGas(o: Outcome, d: nat): Outcome {
    match o
    case Done(w, g) => Done(w, g + d)
    case Failed(c, g) => Failed(c, g + d)
    case Panicked(p, g) => Panicked(p, g + d)
  }

  /** Handlers add their gas to whatever an unlimited meter reads, and do not look at the reading. */
  ghost predicate AddsToReading(cfg: Config) {
    && (forall env: Env, s: Store, a: nat, d: nat, msg: Msg :: HandlerAdds(cfg, env, s, a, d, msg))
    && (cfg.post.Some? ==> forall env: Env, s: Store, a: nat, d: nat, tx: Tx :: PostAdds(cfg, env, s, a, d, tx))
  }

  predicate HandlerAdds(cfg: Config, env: Env, s: Store, a: nat, d: nat, msg: Msg) {
    cfg.handle(env, s, Unlimited(a + d), msg) == MoreGas(cfg.handle(env, s, Unlimited(a), msg), d)
  }

  predicate PostAdds(cfg: Config, env: Env, s: Store, a: nat, d: nat, tx: Tx)
    requires cfg.post.Some?
  {
    cfg.post.value(env, s, Unlimited(a + d), tx) == MoreGas(cfg.post.value(env, s, Unlimited(a), tx), d)
  }

  /** The same execution on a meter that read `d` more. */
  function Shifted(x: Execution, d: nat): Execution {
    Rebase(x, x.gas.base + d)
  }

  lemma {:induction false} MsgsShift(cfg: Config, env: Env, view: Store, msgs: seq<Msg>, i: nat, done: Writes, base: nat, d: nat)
    requires i <= |msgs| && AddsToReading(cfg)
    ensures var x := RunMsgs(cfg, env, view, msgs, i, done, GasCtx(base, None));
            && x.gas.own.None?
            && RunMsgs(cfg, env, view, msgs, i, done, GasCtx(base + d, None)) == Shifted(x, d)
    decreases |msgs| - i
  {
    hide Overlay;
    if i < |msgs| && RunsMessages(env.mode) && cfg.routed(msgs[i]) {
      assert HandlerAdds(cfg, env, Overlay(view, done), base, d, msgs[i]);
      var r := cfg.handle(env, Overlay(view, done), Unlimited(base), msgs[i]);
      if r.Done? {
        MsgsShift(cfg, env, view, msgs, i + 1, done + r.writes, r.gas, d);
      }
    }
  }

  lemma ExecShift(cfg: Config, env: Env, view: Store, tx: Tx, base: nat, d: nat)
    requires AddsToReading(cfg)
    ensures var x := ExecStage(cfg, env, view, tx, GasCtx(base, None));
            x.gas.own.None? && ExecStage(cfg, env, view, tx, GasCtx(base + d, None)) == Shifted(x, d)
  {
    hide Overlay, RunMsgs;
    MsgsShift(cfg, env, view, tx.msgs, 0, map[], base, d);
    var x := RunMsgs(cfg, env, view, tx.msgs, 0, map[], GasCtx(base, None));
    if cfg.post.Some? && x.Executed? {
      assert PostAdds(cfg, env, Overlay(view, x.writes), x.gas.base, d, tx);
    }
  }

  /** A transaction ends with its own meter exactly if it brought one; if not, what it ends with follows the finalize meter. */
  lemma FinalGasShift(cfg: Config, header: Header, s: Store, base: nat, d: nat, pool: Pool, pool': Pool, bz: Blob)
    requires RemoveOnlyNotFound(cfg) && AddsToReading(cfg)
    ensures var env := Env(Finalize, header);
            var g, g' := FinalGas(cfg, env, s, base, pool, bz), FinalGas(cfg, env, s, base + d, pool', bz);
            && (g.own.Some? <==> BringsMeter(cfg, header, s, bz))
            && (if g.own.Some? then g'.own == g.own else g' == GasCtx(g.base + d, None))
  {
    hide ExecStage, Overlay, ValidateBasic, AddsToReading;
    var env := Env(Finalize, header);
    var base1 := base + cfg.paramsGas(s);
    var p := MempoolStage(cfg, Finalize, AnteStage(cfg, env, s, base1, pool, bz));
    if p.Running? {
      if p.gas.own.Some? {
        ExecIgnoresBase(cfg, env, Overlay(s, p.kept), p.tx, p.gas, p.gas.base + d);
      } else {
        ExecShift(cfg, env, Overlay(s, p.kept), p.tx, p.gas.base, d);
      }
    }
  }

  /** A meter of the transaction's own keeps its kind and its limit to the end. */
  predicate SameMeter(m: Option<Meter>, m': Option<Meter>) {
    m.Some? && m'.Some? && m'.value == m.value.WithConsumed(m'.value.consumed)
  }

  lemma {:induction false} MsgsKeepMeter(cfg: Config, env: Env, view: Store, msgs: seq<Msg>, i: nat, done: Writes, gas: GasCtx)
    requires i <= |msgs| && gas.own.Some?
    ensures SameMeter(gas.own, RunMsgs(cfg, env, view, msgs, i, done, gas).gas.own)
    decreases |msgs| - i
  {
    if i < |msgs| && RunsMessages(env.mode) && cfg.routed(msgs[i]) {
      var r := cfg.handle(env, Overlay(view, done), gas.Current(), msgs[i]);
      if r.Done? {
        MsgsKeepMeter(cfg, env, view, msgs, i + 1, done + r.writes, gas.Reading(r.gas));
      }
    }
  }

  lemma ExecKeepsMeter(cfg: Config, env: Env, view: Store, tx: Tx, gas: GasCtx)
    requires gas.own.Some?
    ensures SameMeter(gas.own, ExecStage(cfg, env, view, tx, gas).gas.own)
  {
    hide Overlay, RunMsgs;
    MsgsKeepMeter(cfg, env, view, tx.msgs, 0, map[], gas);
  }

  /** A transaction with a limited meter of its own charges the block what it used, and never more than it asked for. */
  lemma ChargeIsCapped(cfg: Config, header: Header, b: BlockState, txBytes: Blob)
    requires BringsMeter(cfg, header, b.store, txBytes) && !b.block.IsOutOfGas()
    requires cfg.ante.value(Env(Finalize, header), b.store, cfg.decode(txBytes).value).meter.value.Limited?
    ensures var e := Deliver(cfg, header, b, txBytes);
            Charge(cfg, header, b, txBytes) == if e.used <= e.wanted then e.used else e.wanted
  {
    hide RunTx, ExecStage, Overlay, ValidateBasic;
    var env := Env(Finalize, header);
    GasReported(cfg, env, b.store, b.base, b.block, b.pool, txBytes);
    var p := MempoolStage(cfg, Finalize, AnteStage(cfg, env, b.store, b.base + cfg.paramsGas(b.store), b.pool, txBytes));
    if p.Running? {
      ExecKeepsMeter(cfg, env, Overlay(b.store, p.kept), p.tx, p.gas);
    }
  }

  /** Different readings of the finalize meter lead to the same charge exactly if the transaction charges on its own. */
  lemma SameChargeIff(cfg: Config, header: Header, b: BlockState, b': BlockState, txBytes: Blob)
    requires RemoveOnlyNotFound(cfg) && AddsToReading(cfg) && Alike(b, b') && b.base != b'.base
    ensures Charge(cfg, header, b, txBytes) == Charge(cfg, header, b', txBytes) <==> OwnCharge(cfg, header, b, txBytes)
  {
    hide FinalGas, BringsMeter, AddsToReading;
    if b.base < b'.base {
      FinalGasShift(cfg, header, b.store, b.base, b'.base - b.base, b.pool, b'.pool, txBytes);
    } else {
      FinalGasShift(cfg, header, b.store, b'.base, b.base - b'.base, b'.pool, b.pool, txBytes);
    }
  }

  /** So it is for whole blocks: two readings lead to the same charges exactly if all transactions charge on their own. */
  lemma {:induction false} SameChargesIff(cfg: Config, header: Header, b: BlockState, b': BlockState, txs: seq<Blob>)
    requires RemoveOnlyNotFound(cfg) && AddsToReading(cfg) && Alike(b, b') && b.base != b'.base
    ensures Charges(cfg, header, b, txs) == Charges(cfg, header, b', txs) <==> OwnCharges(cfg, header, b, txs)
    decreases |txs|
  {
    hide DeliverOne, OwnCharge, Charge, RemoveOnlyNotFound, AddsToReading;
    if txs != [] {
      SameChargeIff(cfg, header, b, b', txs[0]);
      var r, r' := Charges(cfg, header, b, txs), Charges(cfg, header, b', txs);
      if OwnCharge(cfg, header, b, txs[0]) {
        DeliverIgnores(cfg, header, b, b', txs[0]);
        SameChargesIff(cfg, header, DeliverOne(cfg, header, b, txs[0]), DeliverOne(cfg, header, b', txs[0]), txs[1..]);
        assert r[1..] == Charges(cfg, header, DeliverOne(cfg, header, b, txs[0]), txs[1..]);
        assert r'[1..] == Charges(cfg, header, DeliverOne(cfg, header, b', txs[0]), txs[1..]);
        assert r == [r[0]] + r[1..] && r' == [r'[0]] + r'[1..];
      } else {
        assert r[0] != r'[0];
      }
    }
  }

  // ---------------------------------------------------------------- runs against the reference

  /** The chain as the reference knows it: no branches, no mempool, no rounds. */
  datatype Chain = Chain(
    store: Store, version: nat, initialHeight: int, genesis: Option<(Store, nat)>, decided: Option<Store>, log: seq<Commitment>)

  function ChainNext(c: Chain): nat {
    if c.version == 0 && c.initialHeight > 1 then c.initialHeight else c.version + 1
  }

  /** Genesis, blocks and commits act on the chain; every other call is invisible. */
  function ChainStep(ac: AppConfig, c: Chain, call: Call): Chain
  {
    match call
    case CallInitChain(h, _, genesis) =>
      var (w, g) := ac.init(c.store, genesis);
      c.(initialHeight := h, genesis := Some((Overlay(c.store, w), g)))
    case CallFinalize(header, txs) =>
      c.(decided := Some(
        if c.genesis.Some? then ExecuteBlock(ac, header, c.genesis.value.0, c.genesis.value.1, [], txs)
        else ExecuteBlock(ac, header, c.store, 0, [], txs)))
    case CallCommit =>
      if c.decided.None? then c
      else c.(store := c.decided.value, version := ChainNext(c), genesis := None, decided := None,
              log := c.log + [Commitment(ChainNext(c), c.decided.value, Some(ac.hash(c.decided.value)))])
    case _ => c
  }

  /** The first block's transactions charge on their own, each on the state it is executed on. */
  predicate Metered(ac: AppConfig, c: Chain, call: Call) {
    call.CallFinalize? && c.genesis.Some? ==>
      OwnCharges(ac.tx, call.header, AfterBegin(ac, call.header, c.genesis.value.0, c.genesis.value.1, []), call.txs)
  }

  predicate Matches(ac: AppConfig, n: Node, c: Chain) {
    && Inv(n)
    && n.app.committed == c.store && n.app.version == c.version && n.log == c.log
    && (n.phase != Unborn && c.version == 0 ==> n.app.initialHeight == c.initialHeight)
    && (c.genesis.Some? <==> n.phase != Unborn && c.version == 0)
    && (n.phase == Between && c.genesis.Some? ==> Overlay(n.app.working, n.app.finalize.value.writes) == c.genesis.value.0)
    && (n.phase == Decided ==> c.decided == Some(n.app.working) && n.hash == Some(ac.hash(n.app.working)))
    && (n.phase != Decided ==> c.decided.None?)
  }

  /** Calls that are not about blocks leave everything a commit depends on in place. */
  lemma QuietStep(ac: AppConfig, n: Node, call: Call)
    requires Inv(n) && Legal(n, call)
    requires !call.CallInitChain? && !call.CallFinalize? && !call.CallCommit?
    ensures var n' := Step(ac, n, call);
            && Inv(n')
            && n' == n.(app := n'.app)
            && n'.app.committed == n.app.committed && n'.app.working == n.app.working && n'.app.version == n.app.version
            && n'.app.initialHeight == n.app.initialHeight && n'.app.initialVersion == n.app.initialVersion
            && (n.phase == Between && n.app.version == 0 ==> n'.app.finalize.value.writes == n.app.finalize.value.writes)
            && (n.phase == Decided ==> n'.app.finalize.Some?)
  {
    hide RunTxIn, PrepareProposalCall, ProcessProposalCall;
  }

  lemma FinalizeStep(ac: AppConfig, n: Node, c: Chain, call: Call)
    requires RemoveOnlyNotFound(ac.tx) && Matches(ac, n, c) && Legal(n, call) && call.CallFinalize? && Metered(ac, c, call)
    ensures Matches(ac, Step(ac, n, call), ChainStep(ac, c, call))
  {
    hide FinalizeBlock, ExecuteBlock, Overlay, OwnCharges, RemoveOnlyNotFound;
    var app := n.app;
    var st := StartFinalize(app, call.header);
    FinalizeExecutesBlock(ac, app, call.header, call.txs);
    OverlayNothing(app.working);
    if c.genesis.Some? {
      BlockIgnores(ac, call.header, c.genesis.value.0, c.genesis.value.1, st.base, [], app.pool, call.txs);
    } else {
      BlockIgnores(ac, call.header, c.store, st.base, 0, app.pool, [], call.txs);
    }
  }

  lemma StepMatches(ac: AppConfig, n: Node, c: Chain, call: Call)
    requires RemoveOnlyNotFound(ac.tx) && Matches(ac, n, c) && Legal(n, call) && Metered(ac, c, call)
    ensures Matches(ac, Step(ac, n, call), ChainStep(ac, c, call))
  {
    hide RunTxIn, Overlay, ExecuteBlock, OwnCharges, RemoveOnlyNotFound;
    match call
    case CallFinalize(_, _) => FinalizeStep(ac, n, c, call);
    case CallInitChain(_, _, _) =>
    case CallCommit =>
    case _ => QuietStep(ac, n, call);
  }

  /** The invariant is kept by every legal call, with no assumption on the application. */
  lemma StepKeepsInv(ac: AppConfig, n: Node, call: Call)
    requires Inv(n) && Legal(n, call)
    ensures Inv(Step(ac, n, call))
  {
    hide RunTxIn, Overlay, ExecuteBlock, FinalizeBlock;
    match call
    case CallFinalize(header, txs) => FinalizeExecutesBlock(ac, n.app, header, txs);
    case CallInitChain(_, _, _) =>
    case CallCommit =>
    case _ => QuietStep(ac, n, call);
  }

  predicate LegalRun(ac: AppConfig, n: Node, calls: seq<Call>)
    requires Inv(n)
    decreases |calls|
  {
    calls == [] ||
    (Legal(n, calls[0]) && (StepKeepsInv(ac, n, calls[0]); LegalRun(ac, Step(ac, n, calls[0]), calls[1..])))
  }

  function Run(ac: AppConfig, n: Node, calls: seq<Call>): Node
    requires Inv(n) && LegalRun(ac, n, calls)
    decreases |calls|
  {
    if calls == [] then n
    else StepKeepsInv(ac, n, calls[0]); Run(ac, Step(ac, n, calls[0]), calls[1..])
  }

  /** The calls that are about blocks. */
  function BlockCalls(calls: seq<Call>): seq<Call>
  {
    if calls == [] then []
    else if calls[0].CallInitChain? || calls[0].CallFinalize? || calls[0].CallCommit? then [calls[0]] + BlockCalls(calls[1..])
    else BlockCalls(calls[1..])
  }

  function ChainRun(ac: AppConfig, c: Chain, calls: seq<Call>): Chain
    decreases |calls|
  {
    if calls == [] then c else ChainRun(ac, ChainStep(ac, c, calls[0]), calls[1..])
  }

  predicate MeteredRun(ac: AppConfig, c: Chain, calls: seq<Call>)
    decreases |calls|
  {
    calls == [] || (Metered(ac, c, calls[0]) && MeteredRun(ac, ChainStep(ac, c, calls[0]), calls[1..]))
  }

  /**
    Determinism of committed state. In every legal interleaving of client calls, proposal rounds, vote
    extensions and blocks, what the node has committed, at which heights and under which application hashes,
    is what the blocks alone determine: each commit is begin block, the decodable transactions in order and
    end block, executed in place on the previous commit or on genesis.
   */
  lemma {:induction false} RunMatchesChain(ac: AppConfig, n: Node, c: Chain, calls: seq<Call>)
    requires RemoveOnlyNotFound(ac.tx) && Matches(ac, n, c) && LegalRun(ac, n, calls)
    requires MeteredRun(ac, c, BlockCalls(calls))
    ensures Matches(ac, Run(ac, n, calls), ChainRun(ac, c, BlockCalls(calls)))
    decreases |calls|
  {
    hide Step, ChainStep, Inv, Legal, RemoveOnlyNotFound, Metered;
    if calls != [] {
      var call, rest := calls[0], calls[1..];
      var about := call.CallInitChain? || call.CallFinalize? || call.CallCommit?;
      assert about ==> BlockCalls(calls)[0] == call && BlockCalls(calls)[1..] == BlockCalls(rest);
      assert Metered(ac, c, call) by { if !about { NotAboutBlocks(ac, c, call); } }
      StepMatches(ac, n, c, call);
      if !about {
        NotAboutBlocks(ac, c, call);
      }
      RunMatchesChain(ac, Step(ac, n, call), ChainStep(ac, c, call), rest);
    }
  }

  lemma NotAboutBlocks(ac: AppConfig, c: Chain, call: Call)
    requires !call.CallInitChain? && !call.CallFinalize? && !call.CallCommit?
    ensures Metered(ac, c, call) && ChainStep(ac, c, call) == c
  {
  }

  /** Two nodes that saw the same blocks have committed the same, whatever else they were asked. */
  lemma NodesAgree(ac: AppConfig, n1: Node, n2: Node, c: Chain, calls1: seq<Call>, calls2: seq<Call>)
    requires RemoveOnlyNotFound(ac.tx) && Matches(ac, n1, c) && Matches(ac, n2, c)
    requires LegalRun(ac, n1, calls1) && LegalRun(ac, n2, calls2)
    requires BlockCalls(calls1) == BlockCalls(calls2) && MeteredRun(ac, c, BlockCalls(calls1))
    ensures var m1, m2 := Run(ac, n1, calls1), Run(ac, n2, calls2);
            m1.app.committed == m2.app.committed && m1.app.version == m2.app.version && m1.log == m2.log
  {
    RunMatchesChain(ac, n1, c, calls1);
    RunMatchesChain(ac, n2, c, calls2);
  }

  /** Whatever one node proposes at a height, every other that is in step with the same chain accepts. */
  lemma ProposalAccepted(ac: AppConfig, n1: Node, n2: Node, c: Chain, header: Header, maxBytes: int, reqTxs: seq<Blob>)
    requires Matches(ac, n1, c) && Matches(ac, n2, c) && n1.phase == Between && n2.phase == Between
    requires header.height == NextHeight(n1.app) && !ac.noOpMempool && JudgesAlike(ac.tx) && DropsCleanly(ac.tx)
    ensures Legal(n1, CallPrepare(header, maxBytes, reqTxs))
    ensures var txs := PrepareProposalCall(ac, n1.app, header, maxBytes, reqTxs).1;
            && Legal(n2, CallProcess(header, txs)) && ProcessProposalCall(ac, n2.app, header, txs).1
            && (txs == [] || TotalBytes(txs) <= maxBytes)
  {
    hide PrepareProposalCall, ProcessProposalCall, JudgesAlike, DropsCleanly, Overlay;
    ValidatorAcceptsProposal(ac, n1.app, n2.app, header, maxBytes, reqTxs);
  }

  /** So it is over whole runs: nodes that saw the same blocks accept each other's proposals, whatever else they were asked. */
  lemma ProposalAcceptedAfterRuns(
    ac: AppConfig, n1: Node, n2: Node, c: Chain, calls1: seq<Call>, calls2: seq<Call>, header: Header, maxBytes: int, reqTxs: seq<Blob>)
    requires RemoveOnlyNotFound(ac.tx) && Matches(ac, n1, c) && Matches(ac, n2, c)
    requires LegalRun(ac, n1, calls1) && LegalRun(ac, n2, calls2)
    requires BlockCalls(calls1) == BlockCalls(calls2) && MeteredRun(ac, c, BlockCalls(calls1))
    requires Run(ac, n1, calls1).phase == Between && Run(ac, n2, calls2).phase == Between
    requires header.height == NextHeight(Run(ac, n1, calls1).app) && !ac.noOpMempool && JudgesAlike(ac.tx) && DropsCleanly(ac.tx)
    ensures var m1, m2 := Run(ac, n1, calls1), Run(ac, n2, calls2);
            HasProposal(m1, header) && HasProposal(m2, header)
            && ProcessProposalCall(ac, m2.app, header, PrepareProposalCall(ac, m1.app, header, maxBytes, reqTxs).1).1
  {
    hide PrepareProposalCall, ProcessProposalCall, JudgesAlike, DropsCleanly, Overlay, MeteredRun, RemoveOnlyNotFound;
    RunMatchesChain(ac, n1, c, calls1);
    RunMatchesChain(ac, n2, c, calls2);
    ProposalAccepted(ac, Run(ac, n1, calls1), Run(ac, n2, calls2), ChainRun(ac, c, BlockCalls(calls1)), header, maxBytes, reqTxs);
  }

  /** A proposal at this height can be made and judged. */
  predicate HasProposal(n: Node, header: Header) {
    1 <= header.height && (header.height == n.app.initialHeight ==> HasState(n.app, Finalize))
  }
}

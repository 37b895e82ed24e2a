/**
  The application between consensus calls: one committed multistore and the volatile branches of it,
  and what each consensus call does to them.
 */
module App {
  import opened Wrappers
  import opened Stores
  import opened Gas
  import opened TxPipeline

  /** A signed 64-bit number, as the consensus parameters hold the maximum block gas. */
  type Int64 = x: int | -0x8000_0000_0000_0000 <= x <= 0x7FFF_FFFF_FFFF_FFFF

  datatype AppConfig = AppConfig(
    tx: Config,
    chainId: string,
    maxGas: Store -> Int64,
    init: (Store, Blob) -> (Writes, nat),
    begin: (Header, Store) -> (Writes, nat),
    end: (Header, Store) -> (Writes, nat),
    extend: (Header, Store) -> Writes,
    noOpMempool: bool,
    select: (Pool, seq<Blob>) -> seq<Tx>,
    hash: Store -> Blob)

  /**
    A volatile state. `shared` marks the proposal states of the first block: their context is a branch of
    the finalize state's store and uses the finalize state's gas meter.
   */
  datatype State = State(writes: Writes, header: Header, base: nat, block: Meter, shared: bool)

  datatype App = App(
    committed: Store,
    working: Store,
    version: nat,
    initialVersion: int,
    initialHeight: int,
    check: State,
    prepare: Option<State>,
    process: Option<State>,
    vote: Option<State>,
    finalize: Option<State>,
    pool: Pool)

  /** A fresh branch of the multistore, with a fresh gas meter. */
  function FreshState(header: Header): State {
    State(map[], header, 0, Unlimited(0), false)
  }

  /** Contexts of the first block's proposals are branches of what genesis left in the finalize state. */
  function ProposalState(app: App, header: Header): State {
    if header.height == app.initialHeight
    then State(map[], Header("", header.height, header.time), 0, Unlimited(0), true)
    else FreshState(header)
  }

  predicate HasState(app: App, mode: Mode) {
    match mode
    case Finalize => app.finalize.Some? && !app.finalize.value.shared
    case PrepareProposal => app.prepare.Some? && (app.prepare.value.shared ==> app.finalize.Some?)
    case ProcessProposal => app.process.Some? && (app.process.value.shared ==> app.finalize.Some?)
    case _ => !app.check.shared
  }

  function StateOf(app: App, mode: Mode): State
    requires HasState(app, mode)
  {
    match mode
    case Finalize => app.finalize.value
    case PrepareProposal => app.prepare.value
    case ProcessProposal => app.process.value
    case _ => app.check
  }

  /** The store a context reads: pending writes over what its state was branched from. */
  function View(app: App, st: State): Store
    requires st.shared ==> app.finalize.Some?
  {
    Overlay(if st.shared then Overlay(app.working, app.finalize.value.writes) else app.working, st.writes)
  }

  function BaseGas(app: App, st: State): nat
    requires st.shared ==> app.finalize.Some?
  {
    if st.shared then app.finalize.value.base else st.base
  }

  function PutState(app: App, mode: Mode, st: State): App {
    match mode
    case Finalize => app.(finalize := Some(st))
    case PrepareProposal => app.(prepare := Some(st))
    case ProcessProposal => app.(process := Some(st))
    case _ => app.(check := st)
  }

  /** Records a new reading of the meter a context uses. */
  function PutBase(app: App, mode: Mode, base: nat): App
    requires HasState(app, mode)
  {
    var st := StateOf(app, mode);
    if st.shared && !mode.Finalize? then app.(finalize := Some(app.finalize.value.(base := base)))
    else PutState(app, mode, st.(base := base))
  }

  /** Adds flushed writes, and the block meter, to a mode's state. */
  function PutEffect(app: App, mode: Mode, writes: Writes, block: Meter): App
    requires HasState(app, mode)
  {
    var st := StateOf(app, mode);
    PutState(app, mode, st.(writes := if mode.Simulate? then st.writes else st.writes + writes, block := block))
  }

  /** Nothing that can reach a commit has changed, except possibly the reading of the finalize state's gas meter. */
  predicate Undisturbed(a: App, b: App, gasToo: bool) {
    && b.committed == a.committed && b.working == a.working && b.version == a.version
    && b.initialVersion == a.initialVersion && b.initialHeight == a.initialHeight
    && b.check.shared == a.check.shared
    && (a.finalize.Some? <==> b.finalize.Some?)
    && (if gasToo && a.finalize.Some? then b.finalize.value == a.finalize.value.(base := b.finalize.value.base)
        else b.finalize == a.finalize)
  }

  /** One transaction in one mode: only that mode's state, the shared meter and the mempool change. */
  function RunTxIn(cfg: Config, app: App, mode: Mode, txBytes: Blob): (r: (App, TxEffect))
    requires HasState(app, mode)
    ensures HasState(r.0, mode) && StateOf(r.0, mode).shared == StateOf(app, mode).shared
    ensures mode.Finalize? ==> r.0 == app.(finalize := r.0.finalize, pool := r.0.pool)
    ensures !mode.Finalize? ==> Undisturbed(app, r.0, StateOf(app, mode).shared)
  {
    var st := StateOf(app, mode);
    var e := RunTx(cfg, Env(mode, st.header), View(app, st), BaseGas(app, st), st.block, app.pool, txBytes);
    (PutEffect(PutBase(app, mode, e.base), mode, e.writes, e.block).(pool := e.pool), e)
  }

  // ---------------------------------------------------------------- the consensus calls

  /** The height the next block must have. */
  function NextHeight(app: App): int {
    if app.version == 0 && app.initialHeight > 1 then app.initialHeight else app.version + 1
  }

  /** The version the multistore gives its next commit. */
  function NextVersion(app: App): nat {
    if app.version == 0 && app.initialVersion > 1 then app.initialVersion else app.version + 1
  }

  /** Genesis: its writes wait in the finalize state for the first block. */
  function InitChain(ac: AppConfig, app: App, chainId: string, initialHeight: int, time: int, genesis: Blob): App
  {
    if chainId != ac.chainId then app
    else
      var (w, g) := ac.init(app.working, genesis);
      var header := Header(chainId, initialHeight, time);
      app.(initialHeight := initialHeight,
           initialVersion := if initialHeight > 1 then initialHeight else app.initialVersion,
           finalize := Some(State(w, header, g, Unlimited(0), false)),
           check := FreshState(header))
  }

  function BlockMeter(ac: AppConfig, view: Store): Meter {
    if ac.maxGas(view) > 0 then Limited(ac.maxGas(view), 0) else Unlimited(0)
  }

  /** The prepare state at the start of a round: reset, then the consensus parameters are read twice. */
  function StartPrepare(ac: AppConfig, app: App, header: Header): App
    requires header.height == app.initialHeight ==> HasState(app, Finalize)
  {
    var app1 := app.(prepare := Some(ProposalState(app, header)));
    var view := View(app1, app1.prepare.value);
    PutEffect(PutBase(app1, PrepareProposal, BaseGas(app1, app1.prepare.value) + 2 * ac.tx.paramsGas(view)),
              PrepareProposal, map[], BlockMeter(ac, view))
  }

  /** The proposer's loop over the mempool; the transactions are `None` when removing one panicked. */
  function PrepareLoop(ac: AppConfig, app: App, pending: seq<Tx>, total: int, maxBytes: int): (r: (App, Option<seq<Blob>>))
    requires HasState(app, PrepareProposal)
    ensures Undisturbed(app, r.0, app.prepare.value.shared)
    decreases |pending|
  {
    if pending == [] then (app, Some([]))
    else
      var bz := ac.tx.encode(pending[0]);
      var (app1, err) := if bz.None? then (app, true) else var (a, e) := RunTxIn(ac.tx, app, PrepareProposal, bz.value); (a, e.err.Some?);
      if err then
        var (status, pool) := ac.tx.remove(app1.pool, pending[0]);
        if status.Broken? then (app1.(pool := pool), None)
        else PrepareLoop(ac, app1.(pool := pool), pending[1..], total, maxBytes)
      else if total + |bz.value| <= maxBytes then
        var (app2, rest) := PrepareLoop(ac, app1, pending[1..], total + |bz.value|, maxBytes);
        (app2, if rest.None? then None else Some([bz.value] + rest.value))
      else (app1, Some([]))
  }

  /** A height below one is refused, after the prepare state has been reset. */
  function PrepareProposalCall(ac: AppConfig, app: App, header: Header, maxBytes: int, reqTxs: seq<Blob>): (r: (App, seq<Blob>))
    requires 1 <= header.height == app.initialHeight ==> HasState(app, Finalize)
    ensures Undisturbed(app, r.0, header.height == app.initialHeight)
  {
    if header.height < 1 then (app.(prepare := Some(FreshState(header))), [])
    else
      var app1 := StartPrepare(ac, app, header);
      if ac.noOpMempool then (app1, reqTxs)
      else
        var (app2, txs) := PrepareLoop(ac, app1, ac.select(app1.pool, reqTxs), 0, maxBytes);
        (app2, if txs.None? then [] else txs.value)
  }

  /** The process state at the start of a round; after the first block the finalize state is reset too. */
  function StartProcess(ac: AppConfig, app: App, header: Header): App
    requires header.height == app.initialHeight ==> HasState(app, Finalize)
  {
    var app0 := if header.height > app.initialHeight then app.(finalize := Some(FreshState(header))) else app;
    var app1 := app0.(process := Some(ProposalState(app, header)));
    var view := View(app1, app1.process.value);
    PutEffect(PutBase(app1, ProcessProposal, BaseGas(app1, app1.process.value) + 2 * ac.tx.paramsGas(view)),
              ProcessProposal, map[], BlockMeter(ac, view))
  }

  /** The validator's loop: every transaction must decode and run, in order, or the proposal is rejected. */
  function ProcessLoop(ac: AppConfig, app: App, txs: seq<Blob>): (r: (App, bool))
    requires HasState(app, ProcessProposal)
    ensures Undisturbed(app, r.0, app.process.value.shared)
    decreases |txs|
  {
    if txs == [] then (app, true)
    else if ac.tx.decode(txs[0]).None? then (app, false)
    else
      var (app1, e) := RunTxIn(ac.tx, app, ProcessProposal, txs[0]);
      if e.err.Some? then (app1, false) else ProcessLoop(ac, app1, txs[1..])
  }

  function ProcessProposalCall(ac: AppConfig, app: App, header: Header, txs: seq<Blob>): (r: (App, bool))
    requires 1 <= header.height == app.initialHeight ==> HasState(app, Finalize)
    ensures var reset := 1 <= header.height && app.initialHeight < header.height;
            Undisturbed(if reset then app.(finalize := Some(FreshState(header))) else app, r.0, header.height == app.initialHeight)
  {
    if header.height < 1 then (app, false)
    else ProcessLoop(ac, StartProcess(ac, app, header), txs)
  }

  function ExtendVote(ac: AppConfig, app: App, header: Header): App
  {
    app.(vote := Some(FreshState(header).(writes := ac.extend(header, app.working))))
  }

  function CheckTx(ac: AppConfig, app: App, recheck: bool, txBytes: Blob): (App, TxEffect)
    requires HasState(app, Check)
  {
    RunTxIn(ac.tx, app, if recheck then ReCheck else Check, txBytes)
  }

  function SimulateTx(ac: AppConfig, app: App, txBytes: Blob): (App, TxEffect)
    requires HasState(app, Check)
  {
    RunTxIn(ac.tx, app, Simulate, txBytes)
  }

  /** The finalize state when a block starts: genesis or a reset one if there is one, else a fresh branch. */
  function StartFinalize(app: App, header: Header): State {
    match app.finalize
    case None => FreshState(header)
    case Some(st) => st.(header := header)
  }

  function DeliverLoop(cfg: Config, app: App, txs: seq<Blob>): (r: App)
    requires HasState(app, Finalize)
    ensures HasState(r, Finalize)
    ensures r == app.(finalize := r.finalize, pool := r.pool)
    decreases |txs|
  {
    if txs == [] then app
    else DeliverLoop(cfg, if cfg.decode(txs[0]).None? then app else RunTxIn(cfg, app, Finalize, txs[0]).0, txs[1..])
  }

  /** Parameters read twice, then the begin blocker. */
  function BeginBlock(ac: AppConfig, app: App, header: Header): App
    requires app.finalize.Some? ==> !app.finalize.value.shared
  {
    var st := StartFinalize(app, header);
    var view := Overlay(app.working, st.writes);
    var (w, g) := ac.begin(header, view);
    app.(finalize := Some(st.(writes := st.writes + w, base := st.base + 2 * ac.tx.paramsGas(view) + g,
                              block := BlockMeter(ac, view))))
  }

  /** The end blocker, the closing read of the parameters, and the flush of everything into the multistore. */
  function EndBlock(ac: AppConfig, app: App, header: Header): App
    requires HasState(app, Finalize)
  {
    var st := app.finalize.value;
    var view := Overlay(app.working, st.writes);
    var (w, g) := ac.end(header, view);
    var working := Overlay(app.working, st.writes + w);
    app.(finalize := Some(st.(writes := map[], base := st.base + g + ac.tx.paramsGas(working))), working := working)
  }

  /** The block is refused unless it has the next height; otherwise the hash of the new working state is returned. */
  function FinalizeBlock(ac: AppConfig, app: App, header: Header, txs: seq<Blob>): (App, Option<Blob>)
    requires app.finalize.Some? ==> !app.finalize.value.shared
  {
    if header.height < 1 || header.height != NextHeight(app) then (app, None)
    else
      var app1 := EndBlock(ac, DeliverLoop(ac.tx, BeginBlock(ac, app, header), txs), header);
      (app1, Some(ac.hash(app1.working)))
  }

  function Commit(app: App): App
    requires app.finalize.Some?
  {
    app.(committed := app.working, version := NextVersion(app),
         check := FreshState(app.finalize.value.header), finalize := None)
  }
}

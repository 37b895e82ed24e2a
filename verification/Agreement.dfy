/** Proposer and validator agree: what the default PrepareProposal builds, the default ProcessProposal accepts. */
module Agreement {
  import opened Wrappers
  import opened Stores
  import opened Gas
  import opened Recovery
  import opened TxPipeline
  import opened Delivery
  import opened App

  /** The ante handler judges a transaction alike for proposer and validator. */
  ghost predicate AnteAgrees(cfg: Config) {
    cfg.ante.Some? ==>
      forall h: Header, s: Store, tx: Tx ::
        SameVerdict(cfg.ante.value(Env(PrepareProposal, h), s, tx), cfg.ante.value(Env(ProcessProposal, h), s, tx))
  }

  predicate Passes(r: AnteOutcome) {
    r.AnteReturned? && r.err.None?
  }

  predicate SameVerdict(r: AnteOutcome, r': AnteOutcome) {
    && (Passes(r) <==> Passes(r'))
    && (Passes(r) ==> r.writes == r'.writes)
  }

  /** What is left of a proposal-mode transaction after the ante handler's flush, on the state that left, goes well. */
  predicate Survives(cfg: Config, env: Env, s: Store, m: Meter, tx: Tx) {
    tx.v2 && (cfg.post.None? || cfg.post.value(env, s, m, tx).Done?)
  }

  /**
    Proposer and validator judge alike: their ante handlers do, and what comes after depends neither on which of
    the two it is nor on the gas meter.
   */
  ghost predicate JudgesAlike(cfg: Config) {
    && AnteAgrees(cfg)
    && forall h: Header, s: Store, m: Meter, m': Meter, bz: Blob :: cfg.decode(bz).Some? ==>
         SurvivesAlike(cfg, h, s, m, m', cfg.decode(bz).value)
  }

  predicate SurvivesAlike(cfg: Config, h: Header, s: Store, m: Meter, m': Meter, tx: Tx) {
    Survives(cfg, Env(PrepareProposal, h), s, m, tx) <==> Survives(cfg, Env(ProcessProposal, h), s, m', tx)
  }

  /** A transaction that fails after its ante handler's flush had nothing to flush. */
  ghost predicate DropsCleanly(cfg: Config) {
    forall h: Header, s: Store, m: Meter, bz: Blob :: DropsWell(cfg, Env(PrepareProposal, h), s, m, bz)
  }

  predicate DropsWell(cfg: Config, env: Env, s: Store, m: Meter, bz: Blob) {
    var after := AfterAnte(cfg, env, s, bz);
    after.Some? && !Survives(cfg, env, after.value, m, cfg.decode(bz).value) ==> after.value == s
  }

  /** The ante handler passes and the rest goes well, on the gas meter the ante handler leaves from a reading of `base`. */
  predicate Verifies(cfg: Config, env: Env, s: Store, base: nat, bz: Blob) {
    var after := AfterAnte(cfg, env, s, bz);
    after.Some? && Survives(cfg, env, after.value, AnteGas(cfg, env, s, base, bz).Current(), cfg.decode(bz).value)
  }

  /** The state after a transaction that verifies for a proposal; `None` if it does not. */
  function AfterVerified(cfg: Config, env: Env, s: Store, bz: Blob): Option<Store> {
    var after := AfterAnte(cfg, env, s, bz);
    if after.Some? && Survives(cfg, env, after.value, Unlimited(0), cfg.decode(bz).value) then after else None
  }

  /** A list of transactions that all verify, each on what the ones before it left. */
  predicate AllPass(cfg: Config, env: Env, s: Store, txs: seq<Blob>)
    decreases |txs|
  {
    txs == [] ||
    (AfterVerified(cfg, env, s, txs[0]).Some? && AllPass(cfg, env, AfterVerified(cfg, env, s, txs[0]).value, txs[1..]))
  }

  function TotalBytes(txs: seq<Blob>): nat {
    if txs == [] then 0 else |txs[0]| + TotalBytes(txs[1..])
  }

  predicate ProposalMode(mode: Mode) {
    mode.PrepareProposal? || mode.ProcessProposal?
  }

  /** From the mempool on, a transaction whose messages are not run flushes nothing more, and succeeds if the rest of it does. */
  lemma NothingAfterAnte(cfg: Config, env: Env, s: Store, block: Meter, p: Progress)
    requires !RunsMessages(env.mode)
    ensures var e := Finish(cfg, env, s, block, p);
            && e.writes == p.kept && e.pool == p.pool && e.block == block
            && (e.err.None? <==> p.Running? && Survives(cfg, env, Overlay(s, p.kept), p.gas.Current(), p.tx))
  {
    hide Settle;
    if p.Stopped? {
      SettleWays(cfg, env.mode, p.exit, p.gas, p.wanted, p.kept, block, p.pool);
    } else {
      var x := ExecStage(cfg, env, Overlay(s, p.kept), p.tx, p.gas);
      assert RunMsgs(cfg, env, Overlay(s, p.kept), p.tx.msgs, 0, map[], p.gas) == Executed(map[], p.gas);
      OverlayNothing(Overlay(s, p.kept));
      if x.Aborted? {
        SettleWays(cfg, env.mode, x.exit, x.gas, p.wanted, p.kept, block, p.pool);
      }
    }
  }

  lemma SettleWays(cfg: Config, mode: Mode, exit: Exit, gas: GasCtx, wanted: nat, kept: Writes, block: Meter, pool: Pool)
    ensures var e := Settle(cfg, mode, exit, gas, wanted, kept, block, pool);
            e.err.Some? && e.writes == kept && e.pool == pool && (!mode.Finalize? ==> e.block == block)
  {
    SettleReportsError(cfg, mode, exit, gas, wanted, kept, block, pool);
  }

  /**
    In the proposal modes a transaction writes exactly what its ante handler does if that passes, also when it fails
    afterwards, and succeeds exactly if nothing fails.
   */
  lemma ProposalTxIsAnte(cfg: Config, env: Env, s: Store, base: nat, block: Meter, pool: Pool, txBytes: Blob)
    requires ProposalMode(env.mode)
    ensures var e := RunTx(cfg, env, s, base, block, pool, txBytes);
            var after := AfterAnte(cfg, env, s, txBytes);
            && Overlay(s, e.writes) == (if after.Some? then after.value else s)
            && e.pool == pool
            && (e.err.None? <==> Verifies(cfg, env, s, base + cfg.paramsGas(s), txBytes))
  {
    hide Finish, AnteStage, AfterAnte, Overlay, Survives;
    var base' := base + cfg.paramsGas(s);
    OverlayNothing(s);
    AnteStageIsDirect(cfg, env, s, base', pool, txBytes);
    NothingAfterAnte(cfg, env, s, block, AnteStage(cfg, env, s, base', pool, txBytes));
  }

  /** After a transaction, a proposal state shows the transaction's writes on top of what it showed before. */
  lemma ProposalView(cfg: Config, app: App, mode: Mode, txBytes: Blob)
    requires ProposalMode(mode) && HasState(app, mode)
    ensures var r := RunTxIn(cfg, app, mode, txBytes);
            && View(r.0, StateOf(r.0, mode)) == Overlay(View(app, StateOf(app, mode)), r.1.writes)
            && StateOf(r.0, mode).header == StateOf(app, mode).header
  {
    hide RunTx, Overlay;
    var st := StateOf(app, mode);
    var root := if st.shared then Overlay(app.working, app.finalize.value.writes) else app.working;
    OverlayTwice(root, st.writes, RunTxIn(cfg, app, mode, txBytes).1.writes);
  }

  /**
    What verifying a transaction does to what a proposal state shows. A dropped transaction leaves no trace exactly if
    its ante handler did not pass, or had nothing to write.
   */
  lemma StepView(cfg: Config, app: App, mode: Mode, txBytes: Blob)
    requires ProposalMode(mode) && HasState(app, mode)
    ensures var r := RunTxIn(cfg, app, mode, txBytes);
            var st := StateOf(app, mode);
            var env, s := Env(mode, st.header), View(app, st);
            var after := AfterAnte(cfg, env, s, txBytes);
            && StateOf(r.0, mode).header == st.header && r.0.pool == app.pool
            && View(r.0, StateOf(r.0, mode)) == (if after.Some? then after.value else s)
            && (View(r.0, StateOf(r.0, mode)) == s <==> after.None? || after.value == s)
            && (r.1.err.None? <==> Verifies(cfg, env, s, BaseGas(app, st) + cfg.paramsGas(s), txBytes))
  {
    hide RunTx, Overlay, AfterAnte, Survives;
    var st := StateOf(app, mode);
    ProposalView(cfg, app, mode, txBytes);
    ProposalTxIsAnte(cfg, Env(mode, st.header), View(app, st), BaseGas(app, st), st.block, app.pool, txBytes);
  }

  /** The gas meter does not matter to a verdict that is alike for proposer and validator. */
  lemma MeterDoesNotMatter(cfg: Config, env: Env, s: Store, m: Meter, bz: Blob)
    requires JudgesAlike(cfg) && ProposalMode(env.mode) && cfg.decode(bz).Some?
    ensures Survives(cfg, env, s, m, cfg.decode(bz).value) <==> Survives(cfg, env, s, Unlimited(0), cfg.decode(bz).value)
  {
    var tx := cfg.decode(bz).value;
    assert SurvivesAlike(cfg, env.header, s, m, Unlimited(0), tx) && SurvivesAlike(cfg, env.header, s, Unlimited(0), m, tx);
    assert SurvivesAlike(cfg, env.header, s, Unlimited(0), Unlimited(0), tx);
  }

  lemma StepVerifies(cfg: Config, app: App, mode: Mode, txBytes: Blob)
    requires ProposalMode(mode) && HasState(app, mode) && JudgesAlike(cfg)
    ensures var r := RunTxIn(cfg, app, mode, txBytes);
            var st := StateOf(app, mode);
            var after := AfterVerified(cfg, Env(mode, st.header), View(app, st), txBytes);
            && (r.1.err.None? <==> after.Some?)
            && StateOf(r.0, mode).header == st.header && r.0.pool == app.pool
            && (after.Some? ==> View(r.0, StateOf(r.0, mode)) == after.value)
            && (after.None? && mode.PrepareProposal? && DropsCleanly(cfg) ==> View(r.0, StateOf(r.0, mode)) == View(app, st))
  {
    hide RunTxIn, JudgesAlike, Survives;
    StepView(cfg, app, mode, txBytes);
    var st := StateOf(app, mode);
    var env, s := Env(mode, st.header), View(app, st);
    var after := AfterAnte(cfg, env, s, txBytes);
    if after.Some? {
      MeterDoesNotMatter(cfg, env, after.value, AnteGas(cfg, env, s, BaseGas(app, st) + cfg.paramsGas(s), txBytes).Current(), txBytes);
      assert DropsCleanly(cfg) && mode.PrepareProposal? ==> DropsWell(cfg, env, s, Unlimited(0), txBytes);
    }
  }

  /** Whatever the proposer drops leaves no trace: what it selects passes one after another, within the byte budget. */
  lemma {:induction false} PrepareLoopSelects(ac: AppConfig, app: App, pending: seq<Tx>, total: int, maxBytes: int)
    requires HasState(app, PrepareProposal) && JudgesAlike(ac.tx) && DropsCleanly(ac.tx)
    ensures var txs := PrepareLoop(ac, app, pending, total, maxBytes).1;
            var st := app.prepare.value;
            txs.Some? ==>
              && AllPass(ac.tx, Env(PrepareProposal, st.header), View(app, st), txs.value)
              && (txs.value != [] ==> total + TotalBytes(txs.value) <= maxBytes)
    decreases |pending|
  {
    hide RunTxIn, Overlay, AfterVerified, JudgesAlike, DropsCleanly;
    if pending != [] {
      var bz := ac.tx.encode(pending[0]);
      if bz.None? {
        var (status, pool) := ac.tx.remove(app.pool, pending[0]);
        if !status.Broken? {
          PrepareLoopSelects(ac, app.(pool := pool), pending[1..], total, maxBytes);
        }
      } else {
        StepVerifies(ac.tx, app, PrepareProposal, bz.value);
        var r := RunTxIn(ac.tx, app, PrepareProposal, bz.value);
        if r.1.err.Some? {
          var (status, pool) := ac.tx.remove(r.0.pool, pending[0]);
          if !status.Broken? {
            PrepareLoopSelects(ac, r.0.(pool := pool), pending[1..], total, maxBytes);
          }
        } else if total + |bz.value| <= maxBytes {
          PrepareLoopSelects(ac, r.0, pending[1..], total + |bz.value|, maxBytes);
          var rest := PrepareLoop(ac, r.0, pending[1..], total + |bz.value|, maxBytes).1;
          if rest.Some? {
            assert ([bz.value] + rest.value)[1..] == rest.value;
          }
        }
      }
    }
  }

  // ---------------------------------------------------------------- which transactions a proposal holds

  /** For each pending transaction its encoding, if that verifies on what the verifying ones before it left. */
  function Verdicts(cfg: Config, env: Env, s: Store, pending: seq<Tx>): (vs: seq<Option<Blob>>)
    ensures |vs| == |pending|
    decreases |pending|
  {
    if pending == [] then []
    else
      var bz := cfg.encode(pending[0]);
      var after := if bz.None? then None else AfterVerified(cfg, env, s, bz.value);
      if after.None? then [None] + Verdicts(cfg, env, s, pending[1..])
      else [bz] + Verdicts(cfg, env, after.value, pending[1..])
  }

  function Encodings(vs: seq<Option<Blob>>): seq<Blob> {
    if vs == [] then [] else (if vs[0].Some? then [vs[0].value] else []) + Encodings(vs[1..])
  }

  function Refused(pending: seq<Tx>, vs: seq<Option<Blob>>): seq<Tx>
    requires |pending| == |vs|
  {
    if vs == [] then [] else (if vs[0].None? then [pending[0]] else []) + Refused(pending[1..], vs[1..])
  }

  /** The place of the first transaction that verifies and no longer fits; the end of the list if there is none. */
  function Cut(vs: seq<Option<Blob>>, room: int): (n: nat)
    ensures n <= |vs|
  {
    if vs == [] then 0
    else if vs[0].None? then 1 + Cut(vs[1..], room)
    else if |vs[0].value| <= room then 1 + Cut(vs[1..], room - |vs[0].value|)
    else 0
  }

  lemma OneEncoded(vs: seq<Option<Blob>>, n: nat)
    requires 1 <= n <= |vs|
    ensures var rest := Encodings(vs[1..][..n - 1]);
            Encodings(vs[..n]) == if vs[0].None? then rest else [vs[0].value] + rest
  {
    assert vs[..n][1..] == vs[1..][..n - 1];
  }

  /** What stands before the cut fits, and with the transaction at the cut it would not. */
  lemma {:induction false} CutFits(vs: seq<Option<Blob>>, room: int)
    ensures var n := Cut(vs, room);
            && (Encodings(vs[..n]) == [] || TotalBytes(Encodings(vs[..n])) <= room)
            && (n < |vs| ==> vs[n].Some? && room < TotalBytes(Encodings(vs[..n])) + |vs[n].value|)
  {
    hide Encodings;
    if vs != [] && (vs[0].None? || |vs[0].value| <= room) {
      var n := Cut(vs, room);
      CutFits(vs[1..], if vs[0].None? then room else room - |vs[0].value|);
      OneEncoded(vs, n);
      assert vs[0].Some? ==> Encodings(vs[..n])[1..] == Encodings(vs[1..][..n - 1]);
    } else {
      assert Encodings(vs[..0]) == [] by { NothingEncoded(vs); }
    }
  }

  lemma NothingEncoded(vs: seq<Option<Blob>>)
    ensures Encodings(vs[..0]) == []
  {
  }

  /** Transactions taken out of the mempool one after another; not all of them if taking one out fails. */
  function Purge(cfg: Config, pool: Pool, txs: seq<Tx>): (bool, Pool)
    decreases |txs|
  {
    if txs == [] then (true, pool)
    else
      var (status, pool') := cfg.remove(pool, txs[0]);
      if status.Broken? then (false, pool') else Purge(cfg, pool', txs[1..])
  }

  lemma OneRefused(pending: seq<Tx>, vs: seq<Option<Blob>>, n: nat)
    requires |pending| == |vs| && 1 <= n <= |vs|
    ensures var rest := Refused(pending[1..][..n - 1], vs[1..][..n - 1]);
            Refused(pending[..n], vs[..n]) == if vs[0].None? then [pending[0]] + rest else rest
  {
    assert vs[..n][1..] == vs[1..][..n - 1] && pending[..n][1..] == pending[1..][..n - 1];
  }

  lemma NothingRefused(pending: seq<Tx>, vs: seq<Option<Blob>>)
    requires |pending| == |vs|
    ensures Refused(pending[..0], vs[..0]) == []
  {
  }

  /** What verdicts say a proposer does: the transactions it selects, `None` if removing one fails, and its mempool afterwards. */
  function Proposed(cfg: Config, pool: Pool, pending: seq<Tx>, vs: seq<Option<Blob>>, room: int): (Option<seq<Blob>>, Pool)
    requires |pending| == |vs|
  {
    var n := Cut(vs, room);
    var (ok, pool') := Purge(cfg, pool, Refused(pending[..n], vs[..n]));
    (if ok then Some(Encodings(vs[..n])) else None, pool')
  }

  /** One verdict at a time. */
  lemma OneProposed(cfg: Config, pool: Pool, pending: seq<Tx>, vs: seq<Option<Blob>>, room: int)
    requires |pending| == |vs|
    ensures Proposed(cfg, pool, pending, vs, room) ==
            if pending == [] then (Some([]), pool)
            else if vs[0].None? then
              var (status, pool') := cfg.remove(pool, pending[0]);
              if status.Broken? then (None, pool') else Proposed(cfg, pool', pending[1..], vs[1..], room)
            else if |vs[0].value| <= room then
              var (rest, pool') := Proposed(cfg, pool, pending[1..], vs[1..], room - |vs[0].value|);
              (if rest.None? then None else Some([vs[0].value] + rest.value), pool')
            else (Some([]), pool)
  {
    hide Refused, Encodings;
    var n := Cut(vs, room);
    if n == 0 {
      NothingRefused(pending, vs);
      NothingEncoded(vs);
    } else {
      OneRefused(pending, vs, n);
      OneEncoded(vs, n);
      if vs[0].None? {
        var rest := Refused(pending[1..][..n - 1], vs[1..][..n - 1]);
        assert ([pending[0]] + rest)[1..] == rest;
      }
    }
  }

  /**
    The proposer's loop selects the pending transactions that verify one after another, in order and up to the first
    that no longer fits, and takes those before it that did not verify out of the mempool.
   */
  lemma {:induction false} PrepareLoopIsExact(ac: AppConfig, app: App, pending: seq<Tx>, total: int, maxBytes: int)
    requires HasState(app, PrepareProposal) && JudgesAlike(ac.tx) && DropsCleanly(ac.tx)
    ensures var st := app.prepare.value;
            var vs := Verdicts(ac.tx, Env(PrepareProposal, st.header), View(app, st), pending);
            var r := PrepareLoop(ac, app, pending, total, maxBytes);
            (r.1, r.0.pool) == Proposed(ac.tx, app.pool, pending, vs, maxBytes - total)
    decreases |pending|
  {
    hide RunTxIn, Overlay, AfterVerified, JudgesAlike, DropsCleanly, Proposed;
    var st := app.prepare.value;
    OneProposed(ac.tx, app.pool, pending, Verdicts(ac.tx, Env(PrepareProposal, st.header), View(app, st), pending), maxBytes - total);
    if pending != [] {
      var bz := ac.tx.encode(pending[0]);
      var app1, err := app, true;
      if bz.Some? {
        StepVerifies(ac.tx, app, PrepareProposal, bz.value);
        var r := RunTxIn(ac.tx, app, PrepareProposal, bz.value);
        app1, err := r.0, r.1.err.Some?;
      }
      if err {
        var (status, pool) := ac.tx.remove(app1.pool, pending[0]);
        if !status.Broken? {
          PrepareLoopIsExact(ac, app1.(pool := pool), pending[1..], total, maxBytes);
        }
      } else if total + |bz.value| <= maxBytes {
        PrepareLoopIsExact(ac, app1, pending[1..], total + |bz.value|, maxBytes);
      }
    }
  }

  /** The validator accepts exactly the lists that pass one after another. */
  lemma {:induction false} ProcessLoopAccepts(ac: AppConfig, app: App, txs: seq<Blob>)
    requires HasState(app, ProcessProposal) && JudgesAlike(ac.tx)
    ensures var st := app.process.value;
            ProcessLoop(ac, app, txs).1 <==> AllPass(ac.tx, Env(ProcessProposal, st.header), View(app, st), txs)
    decreases |txs|
  {
    hide RunTxIn, Overlay, JudgesAlike;
    if txs != [] {
      StepVerifies(ac.tx, app, ProcessProposal, txs[0]);
      var r := RunTxIn(ac.tx, app, ProcessProposal, txs[0]);
      if ac.tx.decode(txs[0]).Some? && r.1.err.None? {
        ProcessLoopAccepts(ac, r.0, txs[1..]);
      }
    }
  }

  lemma {:induction false} AllPassAgrees(cfg: Config, h: Header, s: Store, txs: seq<Blob>)
    requires JudgesAlike(cfg)
    ensures AllPass(cfg, Env(PrepareProposal, h), s, txs) == AllPass(cfg, Env(ProcessProposal, h), s, txs)
    decreases |txs|
  {
    if txs != [] {
      var tx := cfg.decode(txs[0]);
      if cfg.ante.Some? && tx.Some? {
        assert SameVerdict(cfg.ante.value(Env(PrepareProposal, h), s, tx.value), cfg.ante.value(Env(ProcessProposal, h), s, tx.value));
      }
      var after := AfterAnte(cfg, Env(PrepareProposal, h), s, txs[0]);
      assert after == AfterAnte(cfg, Env(ProcessProposal, h), s, txs[0]);
      if after.Some? {
        assert SurvivesAlike(cfg, h, after.value, Unlimited(0), Unlimited(0), tx.value);
        AllPassAgrees(cfg, h, after.value, txs[1..]);
      }
    }
  }

  /** What the proposals of a height are judged on: the last commit, or genesis for the first block. */
  function ProposalBase(app: App, height: int): Store
    requires height == app.initialHeight ==> HasState(app, Finalize)
  {
    if height == app.initialHeight then Overlay(app.working, app.finalize.value.writes) else app.working
  }

  lemma StartView(ac: AppConfig, app: App, header: Header)
    requires header.height == app.initialHeight ==> HasState(app, Finalize)
    ensures var a := StartPrepare(ac, app, header);
            && HasState(a, PrepareProposal)
            && View(a, a.prepare.value) == ProposalBase(app, header.height)
            && a.prepare.value.header == ProposalState(app, header).header
    ensures var a := StartProcess(ac, app, header);
            && HasState(a, ProcessProposal)
            && View(a, a.process.value) == ProposalBase(app, header.height)
            && a.process.value.header == ProposalState(app, header).header
  {
    OverlayNothing(ProposalBase(app, header.height));
  }

  /**
    Agreement. Whatever is in the proposer's mempool, a proposal it builds for a height fits the byte budget
    and is accepted by every validator that starts from the same state at that height.
   */
  lemma ValidatorAcceptsProposal(ac: AppConfig, proposer: App, validator: App, header: Header, maxBytes: int, reqTxs: seq<Blob>)
    requires !ac.noOpMempool && JudgesAlike(ac.tx) && DropsCleanly(ac.tx)
    requires 1 <= header.height && (header.height == proposer.initialHeight <==> header.height == validator.initialHeight)
    requires header.height == proposer.initialHeight ==> HasState(proposer, Finalize) && HasState(validator, Finalize)
    requires ProposalBase(proposer, header.height) == ProposalBase(validator, header.height)
    ensures var txs := PrepareProposalCall(ac, proposer, header, maxBytes, reqTxs).1;
            && ProcessProposalCall(ac, validator, header, txs).1
            && (txs == [] || TotalBytes(txs) <= maxBytes)
  {
    var a, b := StartPrepare(ac, proposer, header), StartProcess(ac, validator, header);
    StartView(ac, proposer, header);
    StartView(ac, validator, header);
    var txs := PrepareProposalCall(ac, proposer, header, maxBytes, reqTxs).1;
    PrepareLoopSelects(ac, a, ac.select(a.pool, reqTxs), 0, maxBytes);
    AllPassAgrees(ac.tx, a.prepare.value.header, View(a, a.prepare.value), txs);
    ProcessLoopAccepts(ac, b, txs);
  }

  /** A validator accepts exactly the proposals whose transactions verify one after another on the state of their height. */
  lemma ValidatorAcceptsIff(ac: AppConfig, app: App, header: Header, txs: seq<Blob>)
    requires JudgesAlike(ac.tx) && (1 <= header.height == app.initialHeight ==> HasState(app, Finalize))
    ensures ProcessProposalCall(ac, app, header, txs).1 <==>
            && 1 <= header.height
            && AllPass(ac.tx, Env(ProcessProposal, ProposalState(app, header).header), ProposalBase(app, header.height), txs)
  {
    hide ProcessLoop, JudgesAlike, Overlay, AllPass;
    if 1 <= header.height {
      StartView(ac, app, header);
      ProcessLoopAccepts(ac, StartProcess(ac, app, header), txs);
    }
  }

  /** A proposal holds exactly the pending transactions that verify one after another on the state of its height, up to the byte budget; without a mempool, what was requested. */
  lemma ProposalIsExact(ac: AppConfig, app: App, header: Header, maxBytes: int, reqTxs: seq<Blob>)
    requires ac.noOpMempool || (JudgesAlike(ac.tx) && DropsCleanly(ac.tx))
    requires 1 <= header.height && (header.height == app.initialHeight ==> HasState(app, Finalize))
    ensures var pending := ac.select(app.pool, reqTxs);
            var vs := Verdicts(ac.tx, Env(PrepareProposal, ProposalState(app, header).header), ProposalBase(app, header.height), pending);
            var n := Cut(vs, maxBytes);
            var (ok, pool) := Purge(ac.tx, app.pool, Refused(pending[..n], vs[..n]));
            var (app', txs) := PrepareProposalCall(ac, app, header, maxBytes, reqTxs);
            if ac.noOpMempool then txs == reqTxs && app'.pool == app.pool
            else txs == (if ok then Encodings(vs[..n]) else []) && app'.pool == pool
  {
    hide PrepareLoop, JudgesAlike, DropsCleanly, Overlay, Verdicts, Cut, Purge, Refused, Encodings;
    if !ac.noOpMempool {
      var a := StartPrepare(ac, app, header);
      StartView(ac, app, header);
      PrepareLoopIsExact(ac, a, ac.select(a.pool, reqTxs), 0, maxBytes);
    }
  }

  /** Taking a transaction out of the mempool takes out that one and no other. */
  ghost predicate TakesOut(cfg: Config) {
    forall pool: Pool, tx: Tx, x: Tx :: TakesOnly(cfg, pool, tx, x)
  }

  predicate TakesOnly(cfg: Config, pool: Pool, tx: Tx, x: Tx) {
    x in cfg.remove(pool, tx).1 <==> x in pool && x != tx
  }

  lemma {:induction false} PurgeLacks(cfg: Config, pool: Pool, txs: seq<Tx>, x: Tx)
    requires TakesOut(cfg) && Purge(cfg, pool, txs).0
    ensures x in Purge(cfg, pool, txs).1 <==> x in pool && x !in txs
    decreases |txs|
  {
    if txs != [] {
      assert TakesOnly(cfg, pool, txs[0], x);
      PurgeLacks(cfg, cfg.remove(pool, txs[0]).1, txs[1..], x);
      assert txs == [txs[0]] + txs[1..];
    }
  }

  lemma {:induction false} RefusedAre(pending: seq<Tx>, vs: seq<Option<Blob>>, x: Tx)
    requires |pending| == |vs|
    ensures x in Refused(pending, vs) <==> exists i :: 0 <= i < |vs| && pending[i] == x && vs[i].None?
  {
    if vs != [] {
      RefusedAre(pending[1..], vs[1..], x);
      forall i | 0 <= i < |vs| - 1
        ensures pending[1..][i] == pending[i + 1] && vs[1..][i] == vs[i + 1]
      {
      }
      if x in Refused(pending[1..], vs[1..]) {
        var i :| 0 <= i < |vs[1..]| && pending[1..][i] == x && vs[1..][i].None?;
        assert pending[i + 1] == x && vs[i + 1].None?;
      }
      if i :| 0 <= i < |vs| && pending[i] == x && vs[i].None? {
        assert i == 0 || (pending[1..][i - 1] == x && vs[1..][i - 1].None?);
      }
    }
  }

  /** Afterwards the mempool lacks exactly the transactions before the cut that did not verify. */
  lemma MempoolAfterProposal(ac: AppConfig, app: App, header: Header, maxBytes: int, reqTxs: seq<Blob>, x: Tx)
    requires !ac.noOpMempool && JudgesAlike(ac.tx) && DropsCleanly(ac.tx) && TakesOut(ac.tx)
    requires 1 <= header.height && (header.height == app.initialHeight ==> HasState(app, Finalize))
    ensures var pending := ac.select(app.pool, reqTxs);
            var vs := Verdicts(ac.tx, Env(PrepareProposal, ProposalState(app, header).header), ProposalBase(app, header.height), pending);
            var n := Cut(vs, maxBytes);
            Purge(ac.tx, app.pool, Refused(pending[..n], vs[..n])).0 ==>
              (x in PrepareProposalCall(ac, app, header, maxBytes, reqTxs).0.pool <==>
               x in app.pool && !exists i :: 0 <= i < n && pending[i] == x && vs[i].None?)
  {
    hide PrepareProposalCall, JudgesAlike, DropsCleanly, TakesOut, Overlay, Verdicts, Cut, Purge, Refused;
    var pending := ac.select(app.pool, reqTxs);
    var vs := Verdicts(ac.tx, Env(PrepareProposal, ProposalState(app, header).header), ProposalBase(app, header.height), pending);
    var n := Cut(vs, maxBytes);
    ProposalIsExact(ac, app, header, maxBytes, reqTxs);
    RefusedAre(pending[..n], vs[..n], x);
    assert forall i :: 0 <= i < n ==> pending[..n][i] == pending[i] && vs[..n][i] == vs[i];
    if Purge(ac.tx, app.pool, Refused(pending[..n], vs[..n])).0 {
      PurgeLacks(ac.tx, app.pool, Refused(pending[..n], vs[..n]), x);
    }
  }

  /** A two-transaction mempool: the first funds an account in its ante handler and then fails its post handler, the second spends. */
  function DroppedWritesExample(): (AppConfig, App)
  {
    var fund, spend := Tx([Msg("m", "")], true, "fund"), Tx([Msg("m", "")], true, "spend");
    var cfg := Config(
      (bz: Blob) => if bz == "fund" then Some(fund) else if bz == "spend" then Some(spend) else None,
      (tx: Tx) => Some(tx.memo),
      (m: Msg) => true,
      Some((env: Env, s: Store, tx: Tx) =>
        if tx.memo == "fund" then AnteReturned(None, None, 0, map["acc" := Some("1")])
        else AnteReturned(if "acc" in s then None else Some(1), None, 0, map[])),
      (m: Msg) => true,
      (env: Env, s: Store, m: Meter, msg: Msg) => Done(map[], 0),
      Some((env: Env, s: Store, m: Meter, tx: Tx) => if tx.memo == "fund" then Failed(1, 0) else Done(map[], 0)),
      [],
      (pool: Pool, tx: Tx) => (None, pool),
      (pool: Pool, tx: Tx) => (Removed, pool),
      (s: Store) => 0);
    var ac := AppConfig(cfg, "c", (s: Store) => 0, (s: Store, g: Blob) => (map[], 0), (h: Header, s: Store) => (map[], 0),
                        (h: Header, s: Store) => (map[], 0), (h: Header, s: Store) => map[], false,
                        (pool: Pool, reqTxs: seq<Blob>) => pool, (s: Store) => "");
    (ac, App(map[], map[], 1, 0, 0, FreshState(Header("c", 1, 0)), None, None, None, None, [fund, spend]))
  }

  /** The three runs behind the example: funding is dropped after its writes, spending passes only with them. */
  lemma ExampleRuns(env: Env, s: Store, base: nat, block: Meter, pool: Pool)
    requires ProposalMode(env.mode)
    ensures var cfg := DroppedWritesExample().0.tx;
            var fund, spend := RunTx(cfg, env, s, base, block, pool, "fund"), RunTx(cfg, env, s, base, block, pool, "spend");
            && fund.err.Some? && fund.pool == pool && "acc" in Overlay(s, fund.writes)
            && (spend.err.None? <==> "acc" in s)
  {
    var cfg := DroppedWritesExample().0.tx;
    var p := AnteStage(cfg, env, s, base, pool, "fund");
    assert FirstInvalid(cfg, p.tx.msgs, 0) == FirstInvalid(cfg, p.tx.msgs, 1) == None;
    assert ExecStage(cfg, env, Overlay(s, p.kept), p.tx, p.gas).exit == Return(PostRejected(1));
    var q := AnteStage(cfg, env, s, base, pool, "spend");
    if q.Stopped? {
      SettleReportsError(cfg, env.mode, q.exit, q.gas, q.wanted, q.kept, block, q.pool);
    }
  }

  lemma LastOneSelected(ac: AppConfig, app: App, tx: Tx, bz: Blob, maxBytes: int)
    requires HasState(app, PrepareProposal) && ac.tx.encode(tx) == Some(bz) && |bz| <= maxBytes
    requires RunTxIn(ac.tx, app, PrepareProposal, bz).1.err.None?
    ensures PrepareLoop(ac, app, [tx], 0, maxBytes).1 == Some([bz])
  {
    hide RunTxIn;
    var a := RunTxIn(ac.tx, app, PrepareProposal, bz).0;
    assert [tx][1..] == [] && [bz] + [] == [bz];
    assert PrepareLoop(ac, a, [], |bz|, maxBytes).1 == Some([]);
  }

  lemma ExampleProposal()
    ensures var (ac, app) := DroppedWritesExample();
            PrepareProposalCall(ac, app, Header("c", 2, 0), 100, []).1 == ["spend"]
  {
    hide RunTx;
    var (ac, app) := DroppedWritesExample();
    var header := Header("c", 2, 0);
    var a := StartPrepare(ac, app, header);
    ExampleRuns(Env(PrepareProposal, header), map[], BaseGas(a, a.prepare.value), a.prepare.value.block, a.pool);
    ProposalView(ac.tx, a, PrepareProposal, "fund");
    var b := RunTxIn(ac.tx, a, PrepareProposal, "fund").0;
    var st := b.prepare.value;
    ExampleRuns(Env(PrepareProposal, header), View(b, st), BaseGas(b, st), st.block, b.pool);
    assert app.pool[1..] == [app.pool[1]];
    LastOneSelected(ac, b, app.pool[1], "spend", 100);
  }

  lemma ExampleJudges()
    ensures JudgesAlike(DroppedWritesExample().0.tx) && !DropsCleanly(DroppedWritesExample().0.tx)
  {
    var cfg := DroppedWritesExample().0.tx;
    var env := Env(PrepareProposal, Header("c", 2, 0));
    var tx := cfg.decode("fund").value;
    assert FirstInvalid(cfg, tx.msgs, 0) == FirstInvalid(cfg, tx.msgs, 1) == None;
    assert "acc" in AfterAnte(cfg, env, map[], "fund").value;
    assert !DropsWell(cfg, env, map[], Unlimited(0), "fund");
  }

  /** With a post handler agreement can fail: the dropped transaction's ante writes stay, and the validator lacks them. */
  lemma PostHandlerBreaksAgreement()
    ensures var (ac, app) := DroppedWritesExample();
            var header := Header("c", 2, 0);
            var txs := PrepareProposalCall(ac, app, header, 100, []).1;
            && JudgesAlike(ac.tx) && !DropsCleanly(ac.tx)
            && txs == ["spend"]
            && !ProcessProposalCall(ac, app, header, txs).1
  {
    hide RunTx, PrepareProposalCall, JudgesAlike, DropsCleanly;
    var (ac, app) := DroppedWritesExample();
    var header := Header("c", 2, 0);
    ExampleJudges();
    ExampleProposal();
    var c := StartProcess(ac, app, header);
    ExampleRuns(Env(ProcessProposal, header), map[], BaseGas(c, c.process.value), c.process.value.block, c.pool);
  }
}

/** What checking and simulating a transaction answer, and what they leave in the check state and in the mempool. */
module Checking {
  import opened Wrappers
  import opened Stores
  import opened Gas
  import opened TxPipeline
  import opened Delivery
  import opened App
  import opened Agreement
  import opened Consensus

  /** Past the ante handler: a new transaction enters the mempool, a rechecked one does not; then the rest must go well. */
  lemma CheckIsAnte(cfg: Config, env: Env, s: Store, base: nat, block: Meter, pool: Pool, txBytes: Blob)
    requires env.mode.Check? || env.mode.ReCheck?
    ensures var e := RunTx(cfg, env, s, base, block, pool, txBytes);
            var after := AfterAnte(cfg, env, s, txBytes);
            && Overlay(s, e.writes) == (if after.Some? then after.value else s)
            && e.pool == (if env.mode.Check? && after.Some? then cfg.insert(pool, cfg.decode(txBytes).value).1 else pool)
            && (e.err.None? <==>
                  && Verifies(cfg, env, s, base + cfg.paramsGas(s), txBytes)
                  && (env.mode.Check? ==> cfg.insert(pool, cfg.decode(txBytes).value).0.None?))
  {
    hide Finish, AnteStage, AfterAnte, Overlay, Survives;
    var base' := base + cfg.paramsGas(s);
    OverlayNothing(s);
    AnteStageIsDirect(cfg, env, s, base', pool, txBytes);
    NothingAfterAnte(cfg, env, s, block, MempoolStage(cfg, env.mode, AnteStage(cfg, env, s, base', pool, txBytes)));
  }

  /** After a transaction, the check state shows what the transaction wrote on top of what it showed before. */
  lemma CheckView(cfg: Config, app: App, mode: Mode, txBytes: Blob)
    requires HasState(app, Check) && (mode.Check? || mode.ReCheck?)
    ensures var (app1, e) := RunTxIn(cfg, app, mode, txBytes);
            && View(app1, app1.check) == Overlay(View(app, app.check), e.writes)
            && app1.check.header == app.check.header
            && app1 == app.(check := app1.check, pool := e.pool)
  {
    hide RunTx, Overlay;
    OverlayTwice(app.working, app.check.writes, RunTxIn(cfg, app, mode, txBytes).1.writes);
  }

  /**
    A new transaction: the check state shows what its ante handler leaves exactly if that passes, it is then handed to
    the mempool, and it is accepted exactly if the mempool takes it and what follows goes well.
   */
  lemma NewTxIsChecked(ac: AppConfig, app: App, txBytes: Blob)
    requires HasState(app, Check)
    ensures var (app1, e) := CheckTx(ac, app, false, txBytes);
            var env, s := Env(Check, app.check.header), View(app, app.check);
            var after := AfterAnte(ac.tx, env, s, txBytes);
            && View(app1, app1.check) == (if after.Some? then after.value else s)
            && app1.check.header == app.check.header
            && app1 == app.(check := app1.check, pool := app1.pool)
            && app1.pool == (if after.Some? then ac.tx.insert(app.pool, ac.tx.decode(txBytes).value).1 else app.pool)
            && (e.err.None? <==>
                  && Verifies(ac.tx, env, s, app.check.base + ac.tx.paramsGas(s), txBytes)
                  && ac.tx.insert(app.pool, ac.tx.decode(txBytes).value).0.None?)
  {
    hide RunTx, Overlay, AfterAnte, Survives;
    CheckView(ac.tx, app, Check, txBytes);
    CheckIsAnte(ac.tx, Env(Check, app.check.header), View(app, app.check), app.check.base, app.check.block, app.pool, txBytes);
  }

  /** A transaction checked again: the same for the check state, and the mempool is left alone. */
  lemma OldTxIsRechecked(ac: AppConfig, app: App, txBytes: Blob)
    requires HasState(app, Check)
    ensures var (app1, e) := CheckTx(ac, app, true, txBytes);
            var env, s := Env(ReCheck, app.check.header), View(app, app.check);
            var after := AfterAnte(ac.tx, env, s, txBytes);
            && View(app1, app1.check) == (if after.Some? then after.value else s)
            && app1.check.header == app.check.header
            && app1 == app.(check := app1.check)
            && (e.err.None? <==> Verifies(ac.tx, env, s, app.check.base + ac.tx.paramsGas(s), txBytes))
  {
    hide RunTx, Overlay, AfterAnte, Survives;
    CheckView(ac.tx, app, ReCheck, txBytes);
    CheckIsAnte(ac.tx, Env(ReCheck, app.check.header), View(app, app.check), app.check.base, app.check.block, app.pool, txBytes);
  }

  /** From the mempool on, a simulated transaction succeeds exactly if its messages and post handler do. */
  lemma FinishSimulates(cfg: Config, header: Header, s: Store, block: Meter, p: Progress)
    ensures var env := Env(Simulate, header);
            var e := Finish(cfg, env, s, block, p);
            && e.pool == p.pool && e.block == block
            && (e.err.None? <==> p.Running? && DirectBody(cfg, env, Overlay(s, p.kept), p.tx, p.gas).Some?)
            && (e.err.None? ==> e.used == DirectBody(cfg, env, Overlay(s, p.kept), p.tx, p.gas).value.1.Current().consumed)
  {
    hide Settle, DirectBody, Overlay;
    var env := Env(Simulate, header);
    if p.Stopped? {
      SettleWays(cfg, Simulate, p.exit, p.gas, p.wanted, p.kept, block, p.pool);
    } else {
      ExecIsDirect(cfg, env, Overlay(s, p.kept), p.tx, p.gas);
      var x := ExecStage(cfg, env, Overlay(s, p.kept), p.tx, p.gas);
      if x.Aborted? {
        SettleWays(cfg, Simulate, x.exit, x.gas, p.wanted, p.kept, block, p.pool);
      }
    }
    FinishCharges(cfg, env, s, block, p);
  }

  /**
    A simulation answers as running the transaction in place on the check state would, with the gas that would use,
    and leaves the state's writes and the mempool as they were.
   */
  lemma SimulationIsDirect(ac: AppConfig, app: App, txBytes: Blob)
    requires HasState(app, Check)
    ensures var (app1, e) := SimulateTx(ac, app, txBytes);
            var s := View(app, app.check);
            var d := DirectTx(ac.tx, Env(Simulate, app.check.header), s, app.check.base + ac.tx.paramsGas(s), txBytes);
            && app1 == app.(check := app.check.(base := app1.check.base))
            && (e.err.None? <==> d.Some?)
            && (e.err.None? ==> e.used == d.value.1.Current().consumed)
  {
    hide Finish, AnteStage, AfterAnte, DirectBody, Overlay;
    var env, s := Env(Simulate, app.check.header), View(app, app.check);
    var base := app.check.base + ac.tx.paramsGas(s);
    AnteStageIsDirect(ac.tx, env, s, base, app.pool, txBytes);
    FinishSimulates(ac.tx, app.check.header, s, app.check.block, AnteStage(ac.tx, env, s, base, app.pool, txBytes));
  }

  /** After a commit the check state shows exactly what was committed, under the header of the block. */
  lemma CheckRestarts(ac: AppConfig, app: App, header: Header, txs: seq<Blob>)
    requires app.finalize.Some? ==> !app.finalize.value.shared
    requires 1 <= header.height == NextHeight(app)
    ensures var app1 := FinalizeBlock(ac, app, header, txs).0;
            && app1.finalize.Some?
            && var app2 := Commit(app1);
               HasState(app2, Check) && View(app2, app2.check) == app2.committed == app1.working && app2.check.header == header
  {
    hide FinalizeBlock, Overlay;
    FinalizeExecutesBlock(ac, app, header, txs);
    OverlayNothing(FinalizeBlock(ac, app, header, txs).0.working);
  }
}

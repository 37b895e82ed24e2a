/** Genesis and heights: what the first block starts from, and which heights are committed. */
module Genesis {
  import opened Wrappers
  import opened Stores
  import opened Gas
  import opened TxPipeline
  import opened Delivery
  import opened App
  import opened Agreement
  import opened Consensus

  // ---------------------------------------------------------------- heights

  /** The log so far numbers heights from `first`, and the next block continues it. */
  predicate Numbered(n: Node, first: int) {
    && (forall i :: 0 <= i < |n.log| ==> n.log[i].height == first + i)
    && n.phase != Unborn && NextHeight(n.app) == first + |n.log|
  }

  lemma StepNumbered(ac: AppConfig, n: Node, call: Call, first: int)
    requires Inv(n) && Legal(n, call) && Numbered(n, first)
    ensures Numbered(Step(ac, n, call), first)
  {
    hide RunTxIn, Overlay, ExecuteBlock, FinalizeBlock;
    if call.CallFinalize? {
      FinalizeExecutesBlock(ac, n.app, call.header, call.txs);
    } else if !call.CallCommit? {
      QuietStep(ac, n, call);
    }
  }

  lemma {:induction false} RunNumbered(ac: AppConfig, n: Node, calls: seq<Call>, first: int)
    requires Inv(n) && LegalRun(ac, n, calls) && Numbered(n, first)
    ensures Numbered(Run(ac, n, calls), first)
    decreases |calls|
  {
    if calls != [] {
      hide Step, Numbered;
      StepNumbered(ac, n, calls[0], first);
      StepKeepsInv(ac, n, calls[0]);
      RunNumbered(ac, Step(ac, n, calls[0]), calls[1..], first);
    }
  }

  lemma InitNumbered(ac: AppConfig, n: Node, call: Call)
    requires Inv(n) && n.log == [] && call.CallInitChain? && Legal(n, call)
    ensures var n' := Step(ac, n, call);
            Numbered(n', n'.app.initialHeight)
  {
  }

  /** Height continuity: a chain commits its initial height first and then every height, none twice and none skipped. */
  lemma {:induction false} HeightsContiguous(ac: AppConfig, n: Node, calls: seq<Call>)
    requires Inv(n) && n.phase == Unborn && n.log == [] && LegalRun(ac, n, calls)
    ensures var m := Run(ac, n, calls);
            forall i :: 0 <= i < |m.log| ==> m.log[i].height == m.app.initialHeight + i
    decreases |calls|
  {
    hide Step, Inv;
    if calls != [] {
      var call, n1 := calls[0], Step(ac, n, calls[0]);
      StepKeepsInv(ac, n, call);
      if call.CallInitChain? {
        InitNumbered(ac, n, call);
        RunNumbered(ac, n1, calls[1..], n1.app.initialHeight);
        InitialHeightFixed(ac, n1, calls[1..]);
      } else {
        QuietStep(ac, n, call);
        HeightsContiguous(ac, n1, calls[1..]);
        assert Run(ac, n, calls) == Run(ac, n1, calls[1..]);
      }
    }
  }

  lemma StepKeepsInitialHeight(ac: AppConfig, n: Node, call: Call)
    requires Inv(n) && n.phase != Unborn && Legal(n, call)
    ensures var n' := Step(ac, n, call);
            n'.phase != Unborn && n'.app.initialHeight == n.app.initialHeight
  {
    hide RunTxIn, Overlay, ExecuteBlock, FinalizeBlock;
    if call.CallFinalize? {
      FinalizeExecutesBlock(ac, n.app, call.header, call.txs);
    } else if !call.CallCommit? {
      QuietStep(ac, n, call);
    }
  }

  lemma {:induction false} InitialHeightFixed(ac: AppConfig, n: Node, calls: seq<Call>)
    requires Inv(n) && n.phase != Unborn && LegalRun(ac, n, calls)
    ensures Run(ac, n, calls).app.initialHeight == n.app.initialHeight
    decreases |calls|
  {
    hide Step, Inv;
    if calls != [] {
      StepKeepsInv(ac, n, calls[0]);
      StepKeepsInitialHeight(ac, n, calls[0]);
      InitialHeightFixed(ac, Step(ac, n, calls[0]), calls[1..]);
    }
  }

  // ---------------------------------------------------------------- genesis

  /** Genesis has been written and waits for the first block. */
  predicate AwaitsFirstBlock(n: Node) {
    Inv(n) && n.phase == Between && n.app.version == 0
  }

  /**
    Genesis survives every sequence of rounds, checks and vote extensions before the first block: the finalize
    state holds exactly its writes, and every round at the initial height starts from them.
   */
  lemma {:induction false} GenesisSurvives(ac: AppConfig, n: Node, calls: seq<Call>, header: Header)
    requires AwaitsFirstBlock(n) && LegalRun(ac, n, calls) && BlockCalls(calls) == []
    requires header.height == n.app.initialHeight
    ensures var m := Run(ac, n, calls);
            var genesis := Overlay(n.app.working, n.app.finalize.value.writes);
            && AwaitsFirstBlock(m) && m.app.working == n.app.working && m.app.initialHeight == n.app.initialHeight
            && m.app.finalize.value.writes == n.app.finalize.value.writes
            && (var a := StartPrepare(ac, m.app, header); HasState(a, PrepareProposal) && View(a, a.prepare.value) == genesis)
            && (var a := StartProcess(ac, m.app, header); HasState(a, ProcessProposal) && View(a, a.process.value) == genesis)
    decreases |calls|
  {
    hide RunTxIn, Overlay, Step, StartPrepare, StartProcess;
    if calls == [] {
      StartView(ac, n.app, header);
    } else {
      QuietStep(ac, n, calls[0]);
      GenesisSurvives(ac, Step(ac, n, calls[0]), calls[1..], header);
    }
  }

  /** The exact condition on the initial height: below one, the first round of proposals wipes genesis out. */
  lemma GenesisKeptIff(ac: AppConfig, app: App, initialHeight: int, time: int, genesis: Blob, txs: seq<Blob>)
    requires app.version == 0
    ensures var app1 := InitChain(ac, app, ac.chainId, initialHeight, time, genesis);
            var header := Header(ac.chainId, NextHeight(app1), time);
            var app2 := ProcessProposalCall(ac, app1, header, txs).0;
            && app1.finalize.Some? && app2.finalize.Some?
            && (app2.finalize.value.writes == app1.finalize.value.writes <==>
                  1 <= initialHeight || app1.finalize.value.writes == map[])
  {
    hide RunTxIn, Overlay;
  }

  // ---------------------------------------------------------------- the first block and its gas

  /** One transaction that writes one key on the meter it is given; reading the parameters costs ten; a block may use forty. */
  function SharedMeterExample(): AppConfig
  {
    var tx := Tx([Msg("m", "")], true, "");
    var cfg := Config(
      (bz: Blob) => Some(tx), (t: Tx) => Some(""), (m: Msg) => true, None, (m: Msg) => true,
      (env: Env, s: Store, m: Meter, msg: Msg) => Done(map["k" := Some("v")], m.consumed),
      None, [], (pool: Pool, t: Tx) => (None, pool), (pool: Pool, t: Tx) => (Removed, pool), (s: Store) => 10);
    AppConfig(cfg, "c", (s: Store) => 40, (s: Store, g: Blob) => (map[], 0), (h: Header, s: Store) => (map[], 0),
              (h: Header, s: Store) => (map[], 0), (h: Header, s: Store) => map[], false,
              (pool: Pool, reqTxs: seq<Blob>) => [], (s: Store) => "")
  }

  lemma ExampleDelivery(header: Header, base: nat, pool: Pool)
    requires base == 20 || base == 40
    ensures var e := RunTx(SharedMeterExample().tx, Env(Finalize, header), map[], base, Limited(40, 0), pool, "");
            Overlay(map[], e.writes) == if base == 20 then map["k" := "v"] else map[]
  {
    var cfg := SharedMeterExample().tx;
    var env := Env(Finalize, header);
    var p := MempoolStage(cfg, Finalize, AnteStage(cfg, env, map[], base + 10, pool, ""));
    assert FirstInvalid(cfg, p.tx.msgs, 0) == FirstInvalid(cfg, p.tx.msgs, 1) == None;
    assert p == Running(Tx([Msg("m", "")], true, ""), GasCtx(base + 10, None), 0, map[], pool);
    assert RunMsgs(cfg, env, map[], p.tx.msgs, 1, map["k" := Some("v")], p.gas) == Executed(map["k" := Some("v")], p.gas);
    assert ExecStage(cfg, env, map[], p.tx, p.gas) == Executed(map["k" := Some("v")], p.gas);
  }

  lemma ExampleBlock(header: Header, base: nat, pool: Pool)
    requires base == 0 || base == 20
    ensures ExecuteBlock(SharedMeterExample(), header, map[], base, pool, [""]) == if base == 0 then map["k" := "v"] else map[]
  {
    hide RunTx;
    var ac := SharedMeterExample();
    var b := AfterBegin(ac, header, map[], base, pool);
    assert b == BlockState(map[], base + 20, Limited(40, 0), pool);
    ExampleDelivery(header, base + 20, pool);
    assert [""][1..] == [];
    assert DeliverAll(ac.tx, header, b, [""]) == DeliverOne(ac.tx, header, b, "");
  }

  function UnbornNode(): Node {
    Node(App(map[], map[], 0, 0, 0, FreshState(Header("c", 0, 0)), None, None, None, None, []), Unborn, None, [])
  }

  /** Every round at the initial height adds its reads of the parameters to the finalize state's meter; later rounds leave it alone. */
  lemma RoundsAddUp(ac: AppConfig, app: App, header: Header)
    requires HasState(app, Finalize)
    ensures var a, b := StartPrepare(ac, app, header), StartProcess(ac, app, header);
            var cost := 2 * ac.tx.paramsGas(ProposalBase(app, header.height));
            if header.height == app.initialHeight
            then a.finalize.value.base == app.finalize.value.base + cost && b.finalize.value.base == app.finalize.value.base + cost
            else a.finalize == app.finalize && (header.height < app.initialHeight ==> b.finalize == app.finalize)
  {
    hide Overlay;
    OverlayNothing(ProposalBase(app, header.height));
  }

  /** So does every transaction of such a round, whatever meter it brings. */
  lemma RoundTxAddsUp(cfg: Config, app: App, mode: Mode, txBytes: Blob)
    requires ProposalMode(mode) && HasState(app, mode) && StateOf(app, mode).shared
    ensures var st := StateOf(app, mode);
            RunTxIn(cfg, app, mode, txBytes).0.finalize.value.base ==
            FinalGas(cfg, Env(mode, st.header), View(app, st), app.finalize.value.base, app.pool, txBytes).base
  {
    hide RunTx, FinalGas, Overlay;
    var st := StateOf(app, mode);
    GasReported(cfg, Env(mode, st.header), View(app, st), app.finalize.value.base, st.block, app.pool, txBytes);
  }

  /** A round without transactions still reads the parameters, on the finalize state's meter. */
  lemma RoundUsesFinalizeMeter(init: Call, round: Call)
    requires init == CallInitChain(1, 0, "") && round == CallProcess(Header("c", 1, 0), [])
    ensures var ac, n := SharedMeterExample(), UnbornNode();
            && Inv(n) && Legal(n, init)
            && var n1 := Step(ac, n, init);
               && Inv(n1) && n1.phase == Between && NextHeight(n1.app) == 1 && n1.app.pool == []
               && n1.app.working == map[] && n1.app.finalize.Some? && n1.app.finalize.value.writes == map[] && n1.app.finalize.value.base == 0
               && var n2 := Step(ac, n1, round);
                  && Inv(n2) && n2.phase == Between && NextHeight(n2.app) == 1 && n2.app.pool == []
                  && n2.app.working == map[] && n2.app.finalize.Some? && n2.app.finalize.value.writes == map[] && n2.app.finalize.value.base == 20
  {
    hide RunTxIn;
    var ac, n := SharedMeterExample(), UnbornNode();
    var n1 := Step(ac, n, init);
    StepKeepsInv(ac, n, init);
    StepKeepsInv(ac, n1, round);
  }

  /**
    Without meters of their own, transactions of the first block make the committed state depend on the rounds a
    node took part in: the rounds at the initial height use the finalize state's meter.
   */
  lemma FirstBlockDependsOnRounds()
    ensures var ac, n := SharedMeterExample(), UnbornNode();
            var init, round := CallInitChain(1, 0, ""), CallProcess(Header("c", 1, 0), []);
            var block := CallFinalize(Header("c", 1, 0), [""]);
            && RemoveOnlyNotFound(ac.tx) && Inv(n)
            && LegalRun(ac, n, [init, block, CallCommit]) && LegalRun(ac, n, [init, round, block, CallCommit])
            && Run(ac, n, [init, block, CallCommit]).app.committed == map["k" := "v"]
            && Run(ac, n, [init, round, block, CallCommit]).app.committed == map[]
  {
    hide ExecuteBlock, FinalizeBlock, Step, Inv;
    var ac, n, header := SharedMeterExample(), UnbornNode(), Header("c", 1, 0);
    var init, round, block := CallInitChain(1, 0, ""), CallProcess(header, []), CallFinalize(header, [""]);
    RoundUsesFinalizeMeter(init, round);
    var n1 := Step(ac, n, init);
    var n2 := Step(ac, n1, round);
    ExampleCommits(n1);
    ExampleCommits(n2);
    assert [init, block, CallCommit][1..] == [block, CallCommit];
    assert [init, round, block, CallCommit][1..] == [round, block, CallCommit];
    assert [round, block, CallCommit][1..] == [block, CallCommit];
  }

  lemma ExampleCommits(n: Node)
    requires Inv(n) && n.phase == Between && NextHeight(n.app) == 1 && n.app.working == map[]
    requires n.app.finalize.Some? && n.app.finalize.value.writes == map[]
    requires n.app.finalize.value.base == 0 || n.app.finalize.value.base == 20
    ensures var ac, calls := SharedMeterExample(), [CallFinalize(Header("c", 1, 0), [""]), CallCommit];
            LegalRun(ac, n, calls) && Run(ac, n, calls).app.committed == if n.app.finalize.value.base == 0 then map["k" := "v"] else map[]
  {
    hide ExecuteBlock, FinalizeBlock, Run, LegalRun, Step;
    var ac, header := SharedMeterExample(), Header("c", 1, 0);
    FinalizeExecutesBlock(ac, n.app, header, [""]);
    ExampleBlock(header, n.app.finalize.value.base, n.app.pool);
    OverlayNothing(map[]);
    LastTwo(ac, n, CallFinalize(header, [""]));
  }

  lemma LastTwo(ac: AppConfig, n: Node, block: Call)
    requires Inv(n) && block.CallFinalize? && Legal(n, block)
    ensures LegalRun(ac, n, [block, CallCommit])
    ensures Run(ac, n, [block, CallCommit]).app.committed == FinalizeBlock(ac, n.app, block.header, block.txs).0.working
  {
    hide FinalizeBlock;
    var n1 := Step(ac, n, block);
    StepKeepsInv(ac, n, block);
    StepKeepsInv(ac, n1, CallCommit);
    var n2 := Step(ac, n1, CallCommit);
    assert [block, CallCommit][1..] == [CallCommit] && [CallCommit][1..] == [];
    assert LegalRun(ac, n2, []);
    assert LegalRun(ac, n1, [CallCommit]) && Run(ac, n1, [CallCommit]) == n2;
  }
}

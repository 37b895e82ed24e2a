/** The container that resolves a graph of providers, calling each provider at most once. */
module Container {
  import opened Wrappers
  import opened Providers

  datatype Error =
    | Duplicate(typ: TypeId) | HasOutputs
    | Missing(caller: nat, input: nat) | Cyclic(provider: nat) | Failed(provider: nat)

  type Resolution<T> = Result<T, Error>

  // ---------------------------------------------------------------- values

  type Calls = map<nat, seq<Val>>

  predicate Available(g: Graph, called: Calls, input: Input) {
    if input.typ !in g.resolvers then input.optional
    else match g.resolvers[input.typ]
      case Supplied(_) => true
      case Provided(q, idx) => q in called && idx < |called[q]|
  }

  function ValueOf(g: Graph, called: Calls, input: Input): Val
    requires Available(g, called, input)
  {
    if input.typ !in g.resolvers then g.zero(input.typ)
    else match g.resolvers[input.typ]
      case Supplied(v) => v
      case Provided(q, idx) => called[q][idx]
  }

  predicate AllAvailable(g: Graph, called: Calls, ins: seq<Input>) {
    forall i :: 0 <= i < |ins| ==> Available(g, called, ins[i])
  }

  function ValuesOf(g: Graph, called: Calls, ins: seq<Input>): seq<Val>
    requires AllAvailable(g, called, ins)
  {
    seq(|ins|, i requires 0 <= i < |ins| => ValueOf(g, called, ins[i]))
  }

  /** What provider `p` makes of the values its inputs resolve to. */
  function Outcome(g: Graph, called: Calls, p: nat): Option<seq<Val>>
    requires p < |g.providers| && AllAvailable(g, called, g.providers[p].inputs)
  {
    g.providers[p].fn(ValuesOf(g, called, g.providers[p].inputs))
  }

  /** Provider `p` was given the values its inputs resolve to, and returned what is on record for it. */
  predicate Justified(g: Graph, called: Calls, p: nat)
    requires p in called
  {
    && p < |g.providers|
    && AllAvailable(g, called, g.providers[p].inputs)
    && Outcome(g, called, p) == Some(called[p])
  }

  predicate Computed(g: Graph, called: Calls) {
    forall p :: p in called ==> Justified(g, called, p)
  }

  predicate Grows(before: Calls, after: Calls) {
    forall p :: p in before ==> p in after && after[p] == before[p]
  }

  lemma GrowthKeeps(g: Graph, before: Calls, after: Calls, ins: seq<Input>)
    requires Grows(before, after) && AllAvailable(g, before, ins)
    ensures AllAvailable(g, after, ins) && ValuesOf(g, after, ins) == ValuesOf(g, before, ins)
  {
    forall i | 0 <= i < |ins|
      ensures Available(g, after, ins[i]) && ValueOf(g, after, ins[i]) == ValueOf(g, before, ins[i])
    {
      assert Available(g, before, ins[i]);
    }
  }

  lemma RecordCall(g: Graph, called: Calls, p: nat, vs: seq<Val>)
    requires Computed(g, called) && p !in called
    requires p < |g.providers| && AllAvailable(g, called, g.providers[p].inputs) && Outcome(g, called, p) == Some(vs)
    ensures Computed(g, called[p := vs])
  {
    var after := called[p := vs];
    forall q | q in after
      ensures Justified(g, after, q)
    {
      if q != p {
        assert Justified(g, called, q);
      }
      GrowthKeeps(g, called, after, g.providers[q].inputs);
    }
  }

  /** A provider whose inputs are all on record can be put at the end of the order. */
  lemma OrderCall(g: Graph, called: Calls, log: seq<nat>, p: nat)
    requires Ordered(g, log) && (forall q :: q in called <==> q in log) && p !in called
    requires p < |g.providers| && AllAvailable(g, called, g.providers[p].inputs)
    ensures Ordered(g, log + [p])
  {
    var after := log + [p];
    assert !Unresolvable(g, p) by {
      forall i: nat | i < |g.providers[p].inputs|
        ensures !Lacks(g, p, i)
      {
        assert Available(g, called, g.providers[p].inputs[i]);
      }
    }
    forall i, q | 0 <= i < |after| && DependsOn(g, after[i], q)
      ensures q in after[..i]
    {
      assert after[..i] == log[..i];
      if i == |log| {
        var k: nat :| Feeds(g, p, k, q);
        assert Available(g, called, g.providers[p].inputs[k]);
        assert log[..i] == log;
      }
    }
  }

  /**
    * The values do not depend on the order in which the container was asked for them: two records, each
    * built up in some order of its own, agree on every provider they share.
    */
  lemma {:induction false} ValuesUnique(g: Graph, log: seq<nat>, a: Calls, b: Calls, k: nat)
    requires Ordered(g, log) && (forall q :: q in a <==> q in log)
    requires Computed(g, a) && Computed(g, b)
    requires k < |log| && log[k] in b
    ensures a[log[k]] == b[log[k]]
    decreases k
  {
    var p := log[k];
    var ins := g.providers[p].inputs;
    assert Justified(g, a, p) && Justified(g, b, p);
    forall i | 0 <= i < |ins|
      ensures ValueOf(g, a, ins[i]) == ValueOf(g, b, ins[i])
    {
      assert Available(g, a, ins[i]) && Available(g, b, ins[i]);
      if ins[i].typ in g.resolvers && g.resolvers[ins[i].typ].Provided? {
        var q := g.resolvers[ins[i].typ].provider;
        assert Feeds(g, p, i, q);
        assert DependsOn(g, p, q);
        var j :| 0 <= j < k && log[..k][j] == q;
        ValuesUnique(g, log, a, b, j);
      }
    }
    assert ValuesOf(g, a, ins) == ValuesOf(g, b, ins);
  }

  // ---------------------------------------------------------------- failures

  /** `p` may be called now: it is the start of the chain of callers, or its last member depends on it. */
  ghost predicate Continues(g: Graph, stack: seq<nat>, p: nat) {
    && p < |g.providers|
    && (stack == [] || (stack[|stack| - 1] < |g.providers| && DependsOn(g, stack[|stack| - 1], p)))
  }

  /** Why the container gave up, told by the chain of callers it was left with. */
  ghost predicate Explains(g: Graph, called: Calls, stack: seq<nat>, e: Error) {
    match e
    case Duplicate(_) => false
    case HasOutputs => false
    case Missing(p, i) => stack != [] && stack[|stack| - 1] == p && p < |g.providers| && Lacks(g, p, i)
    case Cyclic(p) => p in stack && Continues(g, stack, p)
    case Failed(p) =>
      && Continues(g, stack, p) && AllAvailable(g, called, g.providers[p].inputs)
      && Outcome(g, called, p) == None
  }

  /** The chain of callers went on from `before` by way of `p`, unless `p` was turned down at once. */
  predicate Through(before: seq<nat>, after: seq<nat>, p: nat, e: Error) {
    before <= after && if |after| == |before| then e in {Cyclic(p), Failed(p)} else after[|before|] == p
  }

  /** An error that is no provider's own doing comes with a chain of dependencies that is blocked. */
  lemma ErrorsAreBlockedChains(g: Graph, called: Calls, stack: seq<nat>, e: Error) returns (w: seq<nat>)
    requires Explains(g, called, stack, e) && !e.Failed? && Path(g, stack)
    ensures stack <= w && Blocked(g, w)
  {
    if e.Missing? {
      assert Unresolvable(g, e.caller);
      w := stack;
    } else {
      w := stack + [e.provider];
      forall i | 0 <= i < |w| - 1
        ensures DependsOn(g, w[i], w[i + 1])
      {
        if i < |stack| - 1 {
          assert DependsOn(g, stack[i], stack[i + 1]);
        }
      }
      assert w[..|w| - 1] == stack;
    }
  }

  /** A start that ends in such an error could not have been resolved. */
  lemma ErrorsAreUnresolvable(g: Graph, called: Calls, stack: seq<nat>, onStack: set<nat>, p: nat, e: Error)
    requires Through([], stack, p, e) && Explains(g, called, stack, e) && Waiting(g, stack, onStack)
    ensures e.Failed? || !Resolvable(g, p)
  {
    if !e.Failed? {
      var w := ErrorsAreBlockedChains(g, called, stack, e);
      assert w[0] == p;
    }
  }

  /** Callers are on the stack once each, each waiting for the next. */
  ghost predicate Waiting(g: Graph, stack: seq<nat>, onStack: set<nat>) {
    && Path(g, stack)
    && (forall i, j :: 0 <= i < j < |stack| ==> stack[i] != stack[j])
    && (forall p :: p in onStack <==> p in stack)
  }

  lemma Push(g: Graph, stack: seq<nat>, onStack: set<nat>, p: nat)
    requires Waiting(g, stack, onStack) && Continues(g, stack, p) && p !in onStack
    ensures Waiting(g, stack + [p], onStack + {p})
  {
    var w := stack + [p];
    forall i | 0 <= i < |w| - 1
      ensures DependsOn(g, w[i], w[i + 1])
    {
      if i < |stack| - 1 {
        assert DependsOn(g, stack[i], stack[i + 1]);
      }
    }
  }

  lemma OnStack(g: Graph, stack: seq<nat>, onStack: set<nat>, p: nat)
    requires Waiting(g, stack, onStack)
    ensures p in onStack <==> p in stack
  {
  }

  // ---------------------------------------------------------------- the container

  predicate Known(g: Graph, p: nat) {
    p < |g.providers|
  }

  /** What is left to call before the chain of callers must repeat itself. */
  ghost function Idle(g: Graph, onStack: set<nat>): set<nat> {
    (set p: nat | p < |g.providers| && Known(g, p)) - onStack
  }

  ghost predicate Kept(g: Graph, called: Calls, resolved: map<TypeId, Val>, log: seq<nat>) {
    && Ordered(g, log)
    && (forall p :: p in called <==> p in log)
    && Computed(g, called)
    && (forall t :: t in resolved ==> Cached(g, called, resolved, t))
  }

  predicate Cached(g: Graph, called: Calls, resolved: map<TypeId, Val>, t: TypeId)
    requires t in resolved
  {
    && t in g.resolvers && g.resolvers[t].Provided?
    && var r := g.resolvers[t];
       r.provider in called && r.idx < |called[r.provider]| && resolved[t] == called[r.provider][r.idx]
  }

  /** Only what `p` needs was called. */
  ghost predicate Needed(g: Graph, before: Calls, after: Calls, p: nat) {
    && Grows(before, after)
    && (forall q :: q in after && q !in before ==> Reaches(g, p, q))
  }

  lemma NeededMore(g: Graph, a: Calls, b: Calls, c: Calls, p: nat)
    requires Needed(g, a, b, p) && Needed(g, b, c, p)
    ensures Needed(g, a, c, p)
  {
  }

  lemma NeededBy(g: Graph, before: Calls, after: Calls, p: nat, q: nat)
    requires Needed(g, before, after, q) && p < |g.providers| && DependsOn(g, p, q)
    ensures Needed(g, before, after, p)
  {
    forall x | x in after && x !in before
      ensures Reaches(g, p, x)
    {
      ReachesOn(g, p, q, x);
    }
  }

  lemma NeededCall(g: Graph, before: Calls, after: Calls, p: nat, vs: seq<Val>)
    requires Needed(g, before, after, p) && p < |g.providers| && p !in after
    ensures Needed(g, before, after[p := vs], p)
  {
    ReachesItself(g, p);
  }

  lemma NeededNothing(g: Graph, called: Calls, p: nat)
    ensures Needed(g, called, called, p)
  {
  }

  lemma NothingAsked(g: Graph, called: Calls, ins: seq<Input>)
    ensures AllAvailable(g, called, ins[..0]) && ValuesOf(g, called, ins[..0]) == []
  {
  }

  lemma LessIdle(g: Graph, onStack: set<nat>, p: nat)
    requires p < |g.providers| && p !in onStack
    ensures Idle(g, onStack + {p}) < Idle(g, onStack)
  {
    assert Known(g, p);
  }

  /** The values found so far stand, and the next one joins them. */
  lemma OneMore(g: Graph, before: Calls, after: Calls, p: nat, ins: seq<Input>, k: nat)
    requires k < |ins| && Needed(g, before, after, p)
    requires AllAvailable(g, before, ins[..k]) && Available(g, after, ins[k])
    ensures AllAvailable(g, after, ins[..k + 1])
    ensures ValuesOf(g, after, ins[..k + 1]) == ValuesOf(g, before, ins[..k]) + [ValueOf(g, after, ins[k])]
  {
    GrowthKeeps(g, before, after, ins[..k]);
    assert ins[..k + 1] == ins[..k] + [ins[k]];
  }

  lemma KeepCall(g: Graph, called: Calls, resolved: map<TypeId, Val>, log: seq<nat>, p: nat, vs: seq<Val>)
    requires Kept(g, called, resolved, log) && p !in called
    requires p < |g.providers| && AllAvailable(g, called, g.providers[p].inputs) && Outcome(g, called, p) == Some(vs)
    ensures Kept(g, called[p := vs], resolved, log + [p])
  {
    hide Ordered, Computed, AllAvailable, Outcome;
    RecordCall(g, called, p, vs);
    OrderCall(g, called, log, p);
    forall t | t in resolved
      ensures Cached(g, called[p := vs], resolved, t)
    {
      assert Cached(g, called, resolved, t);
    }
  }

  // ---------------------------------------------------------------- registration

  /** Every output of every provider is what its type resolves to, so no type has two sources. */
  predicate Sole(g: Graph) {
    forall p, i :: 0 <= p < |g.providers| && 0 <= i < |g.providers[p].outputs| ==> Backs(g, p, i)
  }

  predicate Backs(g: Graph, p: nat, i: nat)
    requires p < |g.providers| && i < |g.providers[p].outputs|
  {
    var t := g.providers[p].outputs[i];
    t in g.resolvers && g.resolvers[t] == Provided(p, i)
  }

  /** The outputs of a new provider are of different types, none of which has a source yet. */
  predicate Unclaimed(g: Graph, outputs: seq<TypeId>) {
    && (forall i :: 0 <= i < |outputs| ==> outputs[i] !in g.resolvers)
    && (forall i, j :: 0 <= i < j < |outputs| ==> outputs[i] != outputs[j])
  }

  ghost predicate Total(p: Provider) {
    forall vs :: FillsOutputs(p, vs)
  }

  ghost predicate NeverFails(g: Graph) {
    forall p, vs :: 0 <= p < |g.providers| ==> g.providers[p].fn(vs).Some?
  }

  /** `h` is `g` with a provider added and its first `n` outputs registered. */
  ghost predicate Extended(g: Graph, h: Graph, prov: Provider, n: nat) {
    && h.providers == g.providers + [prov] && h.zero == g.zero && n <= |prov.outputs|
    && (forall t :: t in g.resolvers ==> t in h.resolvers && h.resolvers[t] == g.resolvers[t])
    && (forall t :: t in h.resolvers ==> t in g.resolvers || t in prov.outputs[..n])
    && (forall i :: 0 <= i < n ==>
          prov.outputs[i] in h.resolvers && h.resolvers[prov.outputs[i]] == Provided(|g.providers|, i))
  }

  lemma NothingClaimed(g: Graph, prov: Provider)
    ensures Extended(g, g.(providers := g.providers + [prov]), prov, 0) && Unclaimed(g, prov.outputs[..0])
  {
  }

  /** The next output either has a source already, so that the provider cannot be had, or gets this one. */
  lemma ClaimNext(g: Graph, h: Graph, prov: Provider, i: nat)
    requires i < |prov.outputs| && Extended(g, h, prov, i) && Unclaimed(g, prov.outputs[..i])
    ensures var t := prov.outputs[i];
            if t in h.resolvers then !Unclaimed(g, prov.outputs)
            else && Extended(g, h.(resolvers := h.resolvers[t := Provided(|g.providers|, i)]), prov, i + 1)
                 && Unclaimed(g, prov.outputs[..i + 1])
  {
    assert prov.outputs[..i + 1] == prov.outputs[..i] + [prov.outputs[i]];
  }

  lemma StillWired(g: Graph, h: Graph, prov: Provider, n: nat)
    requires Wired(g) && Sole(g) && Total(prov) && Extended(g, h, prov, n) && Unclaimed(g, prov.outputs[..n])
    ensures Wired(h) && (n == |prov.outputs| ==> Sole(h))
  {
    forall t | t in h.resolvers && h.resolvers[t].Provided?
      ensures Backed(h, t)
    {
      if t in g.resolvers {
        assert Backed(g, t);
      }
    }
    forall p, vs | 0 <= p < |h.providers|
      ensures FillsOutputs(h.providers[p], vs)
    {
      assert p < |g.providers| ==> FillsOutputs(g.providers[p], vs);
    }
    if n == |prov.outputs| {
      forall p, i | 0 <= p < |h.providers| && 0 <= i < |h.providers[p].outputs|
        ensures Backs(h, p, i)
      {
        assert p < |g.providers| ==> Backs(g, p, i);
      }
    }
  }

  lemma StillWiredSupplied(g: Graph, t: TypeId, v: Val)
    requires Wired(g) && Sole(g) && t !in g.resolvers
    ensures Wired(g.(resolvers := g.resolvers[t := Supplied(v)])) && Sole(g.(resolvers := g.resolvers[t := Supplied(v)]))
  {
    var h := g.(resolvers := g.resolvers[t := Supplied(v)]);
    forall u | u in h.resolvers && h.resolvers[u].Provided?
      ensures Backed(h, u)
    {
      assert Backed(g, u);
    }
    forall p, i | 0 <= p < |h.providers| && 0 <= i < |h.providers[p].outputs|
      ensures Backs(h, p, i)
    {
      assert Backs(g, p, i);
    }
  }

  // ---------------------------------------------------------------- building

  /** The request itself, as a provider: it needs every type asked for and hands over what it was given. */
  function Request(types: seq<TypeId>): Provider {
    Provider(seq(|types|, i requires 0 <= i < |types| => Input(types[i], false)), [], vs => Some(vs))
  }

  predicate NoOutputs(g: Graph, ids: seq<nat>) {
    forall p :: p in ids ==> p < |g.providers| && g.providers[p].outputs == []
  }

  lemma OnlyOutputsAreNeeded(g: Graph, p: nat, q: nat)
    requires Wired(g) && p < |g.providers| && DependsOn(g, p, q)
    ensures q < |g.providers| && g.providers[q].outputs != []
  {
    var i: nat :| Feeds(g, p, i, q);
    assert Backed(g, g.providers[p].inputs[i].typ);
  }

  /** What provides nothing is needed by nobody else. */
  lemma NotNeeded(g: Graph, p: nat, q: nat)
    requires Wired(g) && q < |g.providers| && g.providers[q].outputs == [] && Reaches(g, p, q)
    ensures p == q
  {
    var w :| Leads(g, w, p, q);
    if |w| > 1 {
      OnlyOutputsAreNeeded(g, w[|w| - 2], w[|w| - 1]);
    }
  }

  /** `p` got all it needs, and `called` holds the rest of what it reaches. */
  ghost predicate Served(g: Graph, called: Calls, p: nat) {
    Resolvable(g, p) && (forall q :: Reaches(g, p, q) && q != p ==> q in called)
  }

  lemma ServedStay(g: Graph, before: Calls, after: Calls, p: nat, ss: seq<nat>)
    requires Needed(g, before, after, p) && forall k :: 0 <= k < |ss| ==> Served(g, before, ss[k])
    ensures forall k :: 0 <= k < |ss| ==> Served(g, after, ss[k])
  {
  }

  lemma ServedBy(g: Graph, called: Calls, resolved: map<TypeId, Val>, log: seq<nat>, p: nat)
    requires Kept(g, called, resolved, log)
    requires p in called || (p < |g.providers| && AllAvailable(g, called, g.providers[p].inputs))
    ensures Served(g, called, p)
  {
    if p !in called {
      OrderCall(g, called, log, p);
      OrderedIsResolvable(g, log + [p], p);
    } else {
      OrderedIsResolvable(g, log, p);
    }
  }

  /** Everything called was needed by one of the starts, and no invoker is among it. */
  ghost predicate Accounted(g: Graph, called: Calls, starts: seq<nat>, invokers: seq<nat>) {
    forall q :: q in called ==> q !in invokers && exists s :: s in starts && Reaches(g, s, q)
  }

  lemma AccountMore(g: Graph, before: Calls, after: Calls, starts: seq<nat>, invokers: seq<nat>, p: nat)
    requires Wired(g) && NoOutputs(g, invokers) && p in starts && (p !in after || p !in invokers)
    requires Accounted(g, before, starts, invokers) && Needed(g, before, after, p)
    ensures Accounted(g, after, starts, invokers)
  {
    forall q | q in after && q !in before
      ensures q !in invokers && Reaches(g, p, q)
    {
      if q in invokers {
        NotNeeded(g, p, q);
      }
    }
  }

  lemma NothingAccounted(g: Graph, starts: seq<nat>, invokers: seq<nat>)
    ensures Accounted(g, map[], starts, invokers)
  {
  }

  /** What was called is exactly what the starts reach, invokers aside. */
  lemma AllCalled(g: Graph, before: Calls, called: Calls, root: nat, invokers: seq<nat>)
    requires Grows(before, called) && Served(g, before, root) && root in before
    requires Accounted(g, called, [root] + invokers, invokers)
    requires forall s :: s in invokers ==> Served(g, called, s)
    ensures forall s :: s in [root] + invokers ==> Resolvable(g, s)
    ensures forall q :: q in called <==> q !in invokers && exists s :: s in [root] + invokers && Reaches(g, s, q)
  {
    forall q, s | q !in invokers && s in [root] + invokers && Reaches(g, s, q)
      ensures q in called
    {
      assert s == root || Served(g, called, s);
    }
  }

  lemma SomeoneFailed(g: Graph, called: Calls, stack: seq<nat>, e: Error)
    ensures e.Failed? && Explains(g, called, stack, e) ==> !NeverFails(g)
  {
  }

  /** An invoker's inputs can be had, and on their values it returns no error. */
  predicate Invoked(g: Graph, vals: Calls, p: nat) {
    p < |g.providers| && AllAvailable(g, vals, g.providers[p].inputs) && Outcome(g, vals, p).Some?
  }

  lemma InvokedStay(g: Graph, before: Calls, after: Calls, ss: seq<nat>)
    requires Grows(before, after) && forall k :: 0 <= k < |ss| ==> Invoked(g, before, ss[k])
    ensures forall k :: 0 <= k < |ss| ==> Invoked(g, after, ss[k])
  {
    forall k | 0 <= k < |ss|
      ensures Invoked(g, after, ss[k])
    {
      assert Invoked(g, before, ss[k]);
      GrowthKeeps(g, before, after, g.providers[ss[k]].inputs);
    }
  }

  /**
    * No provider that a start reaches and no invoker returns an error on the values its inputs resolve to: `vals`
    * holds what each such provider makes of what the ones before it made, and the invokers get through on that.
    */
  ghost predicate Settles(g: Graph, vals: Calls, starts: seq<nat>, invokers: seq<nat>) {
    && Computed(g, vals)
    && (forall s, q :: s in starts && Reaches(g, s, q) && q !in invokers ==> q in vals)
    && (forall p :: p in invokers ==> Invoked(g, vals, p))
  }

  /** The chain of callers leads from the start to the provider that failed. */
  lemma FailedIsReached(g: Graph, called: Calls, stack: seq<nat>, onStack: set<nat>, s: nat, e: Error)
    requires Waiting(g, stack, onStack) && Through([], stack, s, e) && e.Failed? && Explains(g, called, stack, e)
    ensures Reaches(g, s, e.provider)
  {
    var w := stack + [e.provider];
    forall i | 0 <= i < |w| - 1
      ensures DependsOn(g, w[i], w[i + 1])
    {
      if i < |stack| - 1 {
        assert DependsOn(g, stack[i], stack[i + 1]);
      }
    }
    assert Leads(g, w, s, e.provider);
  }

  /** What the container had on record for a provider's inputs is what any such record has for them. */
  lemma SameInputs(g: Graph, log: seq<nat>, called: Calls, vals: Calls, p: nat)
    requires Ordered(g, log) && (forall q :: q in called <==> q in log) && Computed(g, called) && Computed(g, vals)
    requires p < |g.providers| && AllAvailable(g, called, g.providers[p].inputs)
    requires forall q :: DependsOn(g, p, q) ==> q in vals
    ensures AllAvailable(g, vals, g.providers[p].inputs) && Outcome(g, vals, p) == Outcome(g, called, p)
  {
    hide Ordered, Computed;
    var ins := g.providers[p].inputs;
    forall i | 0 <= i < |ins|
      ensures Available(g, vals, ins[i]) && ValueOf(g, vals, ins[i]) == ValueOf(g, called, ins[i])
    {
      assert Available(g, called, ins[i]);
      if ins[i].typ in g.resolvers && g.resolvers[ins[i].typ].Provided? {
        var q := g.resolvers[ins[i].typ].provider;
        assert Feeds(g, p, i, q);
        assert DependsOn(g, p, q);
        var k :| 0 <= k < |log| && log[k] == q;
        ValuesUnique(g, log, called, vals, k);
      }
    }
    assert ValuesOf(g, vals, ins) == ValuesOf(g, called, ins);
  }

  /** A provider's own error is an error on the values its inputs resolve to. */
  lemma FailureUnsettles(
    g: Graph, called: Calls, resolved: map<TypeId, Val>, log: seq<nat>, stack: seq<nat>, onStack: set<nat>, s: nat, e: Error,
    vals: Calls, starts: seq<nat>, invokers: seq<nat>)
    requires Wired(g) && Kept(g, called, resolved, log) && Waiting(g, stack, onStack) && NoOutputs(g, invokers) && s in starts
    requires Through([], stack, s, e) && e.Failed? && Explains(g, called, stack, e)
    ensures !Settles(g, vals, starts, invokers)
  {
    hide Wired, Waiting, Path, Ordered, Computed, AllAvailable, DependsOn, Reaches, Outcome;
    if Settles(g, vals, starts, invokers) {
      var p := e.provider;
      FailedIsReached(g, called, stack, onStack, s, e);
      forall q | DependsOn(g, p, q)
        ensures q in vals
      {
        OnlyOutputsAreNeeded(g, p, q);
        ReachesFrom(g, s, p, q);
      }
      SameInputs(g, log, called, vals, p);
      if p !in invokers {
        JustifiedIn(g, vals, p);
      }
    }
  }

  /** Everything asked for can be had: nothing is missing or cyclic, and nobody returns an error. */
  ghost predicate Attainable(g: Graph, starts: seq<nat>, invokers: seq<nat>) {
    (forall s :: s in starts ==> Resolvable(g, s)) && exists vals :: Settles(g, vals, starts, invokers)
  }

  lemma NotAttainable(
    g: Graph, called: Calls, resolved: map<TypeId, Val>, log: seq<nat>, stack: seq<nat>, onStack: set<nat>, s: nat, e: Error,
    starts: seq<nat>, invokers: seq<nat>)
    requires Wired(g) && Kept(g, called, resolved, log) && Waiting(g, stack, onStack) && NoOutputs(g, invokers) && s in starts
    requires Through([], stack, s, e) && Explains(g, called, stack, e)
    ensures e.Failed? || !Resolvable(g, s)
    ensures !Attainable(g, starts, invokers)
    ensures NeverFails(g) ==> !Resolvable(g, s)
  {
    hide Wired, Kept, Waiting, NoOutputs, Through, Settles, Resolvable;
    ErrorsAreUnresolvable(g, called, stack, onStack, s, e);
    SomeoneFailed(g, called, stack, e);
    if e.Failed? {
      forall vals: Calls
        ensures !Settles(g, vals, starts, invokers)
      {
        FailureUnsettles(g, called, resolved, log, stack, onStack, s, e, vals, starts, invokers);
      }
    }
  }

  lemma AttainedBy(g: Graph, called: Calls, resolved: map<TypeId, Val>, log: seq<nat>, starts: seq<nat>, invokers: seq<nat>)
    requires Kept(g, called, resolved, log) && forall p :: p in invokers ==> Invoked(g, called, p)
    requires forall s :: s in starts ==> Resolvable(g, s)
    requires forall q :: q in called <==> q !in invokers && exists s :: s in starts && Reaches(g, s, q)
    ensures Attainable(g, starts, invokers)
  {
    hide Invoked, Resolvable, Reaches, Computed;
    assert Settles(g, called, starts, invokers);
  }

  lemma JustifiedIn(g: Graph, vals: Calls, p: nat)
    requires Computed(g, vals) && p in vals
    ensures p < |g.providers| && AllAvailable(g, vals, g.providers[p].inputs) && Outcome(g, vals, p).Some?
  {
    assert Justified(g, vals, p);
  }

  /** The request's own record is what its types resolve to. */
  lemma RequestMet(g: Graph, called: Calls, resolved: map<TypeId, Val>, log: seq<nat>, p: nat, types: seq<TypeId>)
    requires Kept(g, called, resolved, log) && p in called && p < |g.providers| && g.providers[p] == Request(types)
    ensures AllAvailable(g, called, Request(types).inputs) && called[p] == ValuesOf(g, called, Request(types).inputs)
  {
    assert Justified(g, called, p);
  }

  /** Nothing has been called yet, so any graph will do. */
  lemma KeptAtStart(g: Graph)
    ensures Kept(g, map[], map[], []) && Waiting(g, [], {})
  {
  }

  class Container {
    var g: Graph
    var called: Calls
    var resolved: map<TypeId, Val>
    var callerMap: set<nat>
    var callerStack: seq<nat>
    var invokers: seq<nat>
    /** The providers in the order they were called. */
    var log: seq<nat>

    ghost predicate Valid()
      reads this
    {
      && Wired(g)
      && Kept(g, called, resolved, log)
      && Waiting(g, callerStack, callerMap)
      && (forall p :: p in callerStack ==> p !in called)
    }

    constructor (zero: TypeId -> Val)
      ensures Unused() && Sole(g) && g == Graph([], map[], zero) && invokers == []
    {
      g := Graph([], map[], zero);
      called, resolved, callerMap, callerStack, log, invokers := map[], map[], {}, [], [], [];
    }

    /** Only registration has taken place so far. */
    ghost predicate Unused()
      reads this
    {
      Valid() && called == map[] && resolved == map[] && callerMap == {} && callerStack == [] && log == []
    }

    method Supply(t: TypeId, v: Val) returns (r: Resolution<()>)
      requires Unused() && Sole(g)
      modifies `g
      ensures Unused() && Sole(g)
      ensures r == if t in old(g.resolvers) then Err(Duplicate(t)) else Ok(())
      ensures g == if r.Err? then old(g) else old(g).(resolvers := old(g.resolvers)[t := Supplied(v)])
    {
      if t in g.resolvers {
        return Err(Duplicate(t));
      }
      StillWiredSupplied(g, t, v);
      g := g.(resolvers := g.resolvers[t := Supplied(v)]);
      KeptAtStart(g);
      return Ok(());
    }

    method AddNode(prov: Provider) returns (r: Resolution<nat>)
      requires Unused() && Sole(g) && Total(prov)
      modifies `g
      ensures Unused()
      ensures r.Ok? <==> Unclaimed(old(g), prov.outputs)
      ensures r.Ok? ==> r.value == |old(g.providers)| && Sole(g) && Extended(old(g), g, prov, |prov.outputs|)
      ensures r.Err? ==> r.error.Duplicate? && r.error.typ in prov.outputs
    {
      hide Wired, Sole, Total, Kept, Waiting, Extended, Unclaimed;
      var p := |g.providers|;
      g := g.(providers := g.providers + [prov]);
      var i := 0;
      NothingClaimed(old(g), prov);
      while i < |prov.outputs|
        invariant 0 <= i <= |prov.outputs|
        invariant Extended(old(g), g, prov, i) && Unclaimed(old(g), prov.outputs[..i])
      {
        var t := prov.outputs[i];
        ClaimNext(old(g), g, prov, i);
        if t in g.resolvers {
          StillWired(old(g), g, prov, i);
          KeptAtStart(g);
          return Err(Duplicate(t));
        }
        g := g.(resolvers := g.resolvers[t := Provided(p, i)]);
        i := i + 1;
      }
      assert prov.outputs[..i] == prov.outputs;
      StillWired(old(g), g, prov, i);
      KeptAtStart(g);
      return Ok(p);
    }

    method Call(p: nat) returns (r: Resolution<seq<Val>>)
      requires Valid() && Continues(g, callerStack, p) && p !in called
      modifies `called, `resolved, `callerMap, `callerStack, `log
      ensures Valid() && Needed(g, old(called), called, p)
      ensures p !in called
      ensures r.Ok? ==> callerStack == old(callerStack) && callerMap == old(callerMap) && p !in callerStack
      ensures r.Ok? ==> AllAvailable(g, called, g.providers[p].inputs) && Outcome(g, called, p) == Some(r.value)
      ensures r.Err? ==> Explains(g, called, callerStack, r.error)
      ensures r.Err? ==> Through(old(callerStack), callerStack, p, r.error)
      decreases Idle(g, callerMap), 0
    {
      hide Wired, Kept, Waiting, Path, Needed, DependsOn, Available, AllAvailable, ValuesOf, Idle;
      NeededNothing(g, called, p);
      OnStack(g, callerStack, callerMap, p);
      if p in callerMap {
        return Err(Cyclic(p));
      }
      Push(g, callerStack, callerMap, p);
      callerMap := callerMap + {p};
      callerStack := callerStack + [p];
      LessIdle(g, old(callerMap), p);

      var inVals := ResolveInputs(p);
      if inVals.Err? {
        return Err(inVals.error);
      }

      callerMap := callerMap - {p};
      callerStack := callerStack[..|callerStack| - 1];
      assert callerStack == old(callerStack) && callerMap == old(callerMap);

      var out := g.providers[p].fn(inVals.value);
      if out.None? {
        return Err(Failed(p));
      }
      return Ok(out.value);
    }

    /** The values of all inputs of the caller, in order. */
    method ResolveInputs(caller: nat) returns (r: Resolution<seq<Val>>)
      requires Valid() && callerStack != [] && callerStack[|callerStack| - 1] == caller && caller < |g.providers|
      modifies `called, `resolved, `callerMap, `callerStack, `log
      ensures Valid() && Needed(g, old(called), called, caller)
      ensures r.Ok? ==> callerMap == old(callerMap)
      ensures if r.Ok? then callerStack == old(callerStack) else old(callerStack) <= callerStack
      ensures r.Ok? ==> AllAvailable(g, called, g.providers[caller].inputs)
                        && r.value == ValuesOf(g, called, g.providers[caller].inputs)
      ensures r.Err? ==> Explains(g, called, callerStack, r.error)
      decreases Idle(g, callerMap), 3
    {
      hide Wired, Kept, Waiting, Path, Needed, DependsOn, Available, AllAvailable, ValuesOf, Idle, Explains;
      NeededNothing(g, called, caller);
      var inVals: seq<Val> := [];
      var ins := g.providers[caller].inputs;
      NothingAsked(g, called, ins);
      while |inVals| < |ins|
        invariant Valid() && Needed(g, old(called), called, caller)
        invariant callerStack == old(callerStack) && callerMap == old(callerMap)
        invariant |inVals| <= |ins|
        invariant AllAvailable(g, called, ins[..|inVals|]) && inVals == ValuesOf(g, called, ins[..|inVals|])
      {
        ghost var before := called;
        var v := Resolve(caller, |inVals|);
        NeededMore(g, old(called), before, called, caller);
        if v.Err? {
          return Err(v.error);
        }
        OneMore(g, before, called, caller, ins, |inVals|);
        inVals := inVals + [v.value];
      }
      assert ins[..|inVals|] == ins;
      return Ok(inVals);
    }

    method ResolveValues(p: nat) returns (r: Resolution<seq<Val>>)
      requires Valid() && Continues(g, callerStack, p)
      modifies `called, `resolved, `callerMap, `callerStack, `log
      ensures Valid() && Needed(g, old(called), called, p)
      ensures r.Ok? ==> callerStack == old(callerStack) && callerMap == old(callerMap) && p in called && called[p] == r.value
      ensures r.Err? ==> p !in old(called) && Explains(g, called, callerStack, r.error)
      ensures r.Err? ==> Through(old(callerStack), callerStack, p, r.error)
      decreases Idle(g, callerMap), 1
    {
      hide Wired, Path, Ordered, Computed, DependsOn, AllAvailable, Idle, Cached, Explains, Needed;
      NeededNothing(g, called, p);
      if p !in called {
        r := Call(p);
        if r.Err? {
          return;
        }
        KeepCall(g, called, resolved, log, p, r.value);
        NeededCall(g, old(called), called, p, r.value);
        called := called[p := r.value];
        log := log + [p];
      }
      return Ok(called[p]);
    }

    method Resolve(caller: nat, i: nat) returns (r: Resolution<Val>)
      requires Valid() && callerStack != [] && callerStack[|callerStack| - 1] == caller
      requires caller < |g.providers| && i < |g.providers[caller].inputs|
      modifies `called, `resolved, `callerMap, `callerStack, `log
      ensures Valid() && Needed(g, old(called), called, caller)
      ensures r.Ok? ==> callerMap == old(callerMap)
      ensures if r.Ok? then callerStack == old(callerStack) else old(callerStack) <= callerStack
      ensures r.Ok? ==> Available(g, called, g.providers[caller].inputs[i])
                        && r.value == ValueOf(g, called, g.providers[caller].inputs[i])
      ensures r.Err? ==> Explains(g, called, callerStack, r.error)
      decreases Idle(g, callerMap), 2
    {
      hide Waiting, Path, Ordered, Computed, AllAvailable, Idle, Needed;
      NeededNothing(g, called, caller);
      var input := g.providers[caller].inputs[i];
      var t := input.typ;
      if t !in g.resolvers {
        if input.optional {
          return Ok(g.zero(t));
        }
        return Err(Missing(caller, i));
      }
      match g.resolvers[t] {
        case Supplied(v) =>
          return Ok(v);
        case Provided(q, idx) =>
          if t !in resolved {
            assert Feeds(g, caller, i, q);
            assert Backed(g, t);
            var values := ResolveValues(q);
            NeededBy(g, old(called), called, caller, q);
            if values.Err? {
              return Err(values.error);
            }
            FullRecord(g, called, q);
            resolved := resolved[t := values.value[idx]];
          }
          return Ok(resolved[t]);
      }
    }

    method AddInvoker(prov: Provider) returns (r: Resolution<()>)
      requires Unused() && Sole(g) && Total(prov) && NoOutputs(g, invokers)
      modifies `g, `invokers
      ensures Unused() && Sole(g) && NoOutputs(g, invokers)
      ensures r == if prov.outputs == [] then Ok(()) else Err(HasOutputs)
      ensures g == if r.Err? then old(g) else old(g).(providers := old(g.providers) + [prov])
      ensures invokers == if r.Err? then old(invokers) else old(invokers) + [|old(g.providers)|]
    {
      if |prov.outputs| > 0 {
        return Err(HasOutputs);
      }
      invokers := invokers + [|g.providers|];
      g := g.(providers := g.providers + [prov]);
      StillWired(old(g), g, prov, 0);
      KeptAtStart(g);
      return Ok(());
    }

    /** Invokers are called once everything else is there; they provide nothing, so nobody waits for them. */
    method CallInvokers(ghost starts: seq<nat>) returns (r: Resolution<()>)
      requires Valid() && callerStack == [] && NoOutputs(g, invokers)
      requires Accounted(g, called, starts, invokers) && forall p :: p in invokers ==> p in starts
      modifies `called, `resolved, `callerMap, `callerStack, `log
      ensures Valid() && Grows(old(called), called) && Accounted(g, called, starts, invokers)
      ensures r.Ok? ==> forall p :: p in invokers ==> Served(g, called, p) && Invoked(g, called, p)
      ensures r.Err? ==> (exists p :: p in invokers && !Resolvable(g, p))
                         || (r.error.Failed? && Explains(g, called, callerStack, r.error))
      ensures r.Err? ==> Explains(g, called, callerStack, r.error)
                         && exists p :: p in invokers && Through([], callerStack, p, r.error)
    {
      hide Wired, Kept, Waiting, Explains, AllAvailable, Outcome, Served, Resolvable, Reaches, DependsOn;
      var i := 0;
      while i < |invokers|
        invariant 0 <= i <= |invokers|
        invariant Valid() && callerStack == [] && Grows(old(called), called)
        invariant forall k :: 0 <= k < i ==> Served(g, called, invokers[k]) && Invoked(g, called, invokers[k])
        invariant Accounted(g, called, starts, invokers)
      {
        var p := invokers[i];
        assert p in invokers;
        ghost var before := called;
        var done := Call(p);
        AccountMore(g, before, called, starts, invokers, p);
        if done.Err? {
          ErrorsAreUnresolvable(g, called, callerStack, callerMap, p, done.error);
          return Err(done.error);
        }
        ServedBy(g, called, resolved, log, p);
        ServedStay(g, before, called, p, invokers[..i]);
        InvokedStay(g, before, called, invokers[..i]);
        i := i + 1;
      }
      return Ok(());
    }

    method Build(types: seq<TypeId>) returns (r: Resolution<seq<Val>>)
      requires Unused() && Sole(g) && NoOutputs(g, invokers)
      modifies this
      ensures Valid() && invokers == old(invokers)
      ensures g == old(g).(providers := old(g.providers) + [Request(types)])
      ensures var starts := [|old(g.providers)|] + invokers; r.Ok? ==>
        && AllAvailable(g, called, Request(types).inputs) && r.value == ValuesOf(g, called, Request(types).inputs)
        && (forall s :: s in starts ==> Resolvable(g, s))
        && (forall q :: q in called <==> q !in invokers && exists s :: s in starts && Reaches(g, s, q))
        && (forall p :: p in invokers ==> Invoked(g, called, p))
      ensures var starts := [|old(g.providers)|] + invokers;
              r.Ok? <==> Attainable(g, starts, invokers)
      ensures var starts := [|old(g.providers)|] + invokers; r.Err? ==>
        || (exists s :: s in starts && !Resolvable(g, s))
        || (r.error.Failed? && Explains(g, called, callerStack, r.error))
      ensures NeverFails(g) ==> (r.Ok? <==> forall s :: s in [|old(g.providers)|] + invokers ==> Resolvable(g, s))
    {
      hide Wired, Sole, NeverFails, Kept, Waiting, Needed, Explains, AllAvailable, Served, Accounted, Resolvable, Reaches, DependsOn,
           Attainable, Invoked, Through;
      var root := AddNode(Request(types));
      assert g.resolvers == old(g.resolvers);
      var n := root.value;
      ghost var starts := [n] + invokers;
      var out := ResolveValues(n);
      if out.Err? {
        NotAttainable(g, called, resolved, log, callerStack, callerMap, n, out.error, starts, invokers);
        return out;
      }
      ServedBy(g, called, resolved, log, n);
      NothingAccounted(g, starts, invokers);
      AccountMore(g, map[], called, starts, invokers, n);
      ghost var before := called;
      var done := CallInvokers(starts);
      if done.Err? {
        ghost var s :| s in invokers && Through([], callerStack, s, done.error);
        NotAttainable(g, called, resolved, log, callerStack, callerMap, s, done.error, starts, invokers);
        return Err(done.error);
      }
      AllCalled(g, before, called, n, invokers);
      AttainedBy(g, called, resolved, log, starts, invokers);
      RequestMet(g, called, resolved, log, n, types);
      return Ok(called[n]);
    }
  }

  lemma FullRecord(g: Graph, called: Calls, p: nat)
    requires Wired(g) && Computed(g, called) && p in called
    ensures p < |g.providers| && |g.providers[p].outputs| <= |called[p]|
  {
    assert Justified(g, called, p);
    assert FillsOutputs(g.providers[p], ValuesOf(g, called, g.providers[p].inputs));
  }
}

/** A graph of providers: which provider feeds which input, and when the graph can be resolved at all. */
module Providers {
  import opened Wrappers

  type TypeId = string
  type Val = string

  datatype Input = Input(typ: TypeId, optional: bool)

  /** `fn` is `None` when the provider itself returns an error. */
  datatype Provider = Provider(inputs: seq<Input>, outputs: seq<TypeId>, fn: seq<Val> -> Option<seq<Val>>)

  /** What stands behind a type: a value given outright, or one output of a provider. */
  datatype Resolver = Supplied(value: Val) | Provided(provider: nat, idx: nat)

  datatype Graph = Graph(providers: seq<Provider>, resolvers: map<TypeId, Resolver>, zero: TypeId -> Val)

  /** Resolvers point at the output they are for, and providers return a value for each output. */
  ghost predicate Wired(g: Graph) {
    && (forall t :: t in g.resolvers && g.resolvers[t].Provided? ==> Backed(g, t))
    && (forall p, vs :: 0 <= p < |g.providers| ==> FillsOutputs(g.providers[p], vs))
  }

  predicate Backed(g: Graph, t: TypeId)
    requires t in g.resolvers && g.resolvers[t].Provided?
  {
    var r := g.resolvers[t];
    r.provider < |g.providers| && r.idx < |g.providers[r.provider].outputs| && g.providers[r.provider].outputs[r.idx] == t
  }

  predicate FillsOutputs(p: Provider, vs: seq<Val>) {
    p.fn(vs).Some? ==> |p.outputs| <= |p.fn(vs).value|
  }

  // ---------------------------------------------------------------- dependencies

  /** Input `i` of provider `p` comes from provider `q`. */
  predicate Feeds(g: Graph, p: nat, i: nat, q: nat)
    requires p < |g.providers|
  {
    && i < |g.providers[p].inputs|
    && var t := g.providers[p].inputs[i].typ;
       t in g.resolvers && g.resolvers[t].Provided? && g.resolvers[t].provider == q
  }

  ghost predicate DependsOn(g: Graph, p: nat, q: nat)
    requires p < |g.providers|
  {
    exists i :: Feeds(g, p, i, q)
  }

  /** A required input nobody provides. */
  predicate Lacks(g: Graph, p: nat, i: nat)
    requires p < |g.providers|
  {
    i < |g.providers[p].inputs| && !g.providers[p].inputs[i].optional && g.providers[p].inputs[i].typ !in g.resolvers
  }

  ghost predicate Unresolvable(g: Graph, p: nat)
    requires p < |g.providers|
  {
    exists i :: Lacks(g, p, i)
  }

  /** A chain of dependencies. */
  ghost predicate Path(g: Graph, w: seq<nat>) {
    && (forall i :: 0 <= i < |w| ==> w[i] < |g.providers|)
    && (forall i :: 0 <= i < |w| - 1 ==> DependsOn(g, w[i], w[i + 1]))
  }

  /** The chain `w` runs into trouble: its end lacks an input, or is on the chain already. */
  ghost predicate Blocked(g: Graph, w: seq<nat>) {
    w != [] && Path(g, w) && (Unresolvable(g, w[|w| - 1]) || w[|w| - 1] in w[..|w| - 1])
  }

  /** Everything `p` needs can be had: no chain of dependencies from it runs into a missing input or into itself. */
  ghost predicate Resolvable(g: Graph, p: nat) {
    forall w: seq<nat> :: w != [] && w[0] == p ==> !Blocked(g, w)
  }

  /** Some chain of dependencies leads from `p` to `q`. */
  ghost predicate Reaches(g: Graph, p: nat, q: nat) {
    exists w: seq<nat> :: Leads(g, w, p, q)
  }

  ghost predicate Leads(g: Graph, w: seq<nat>, p: nat, q: nat) {
    w != [] && Path(g, w) && w[0] == p && w[|w| - 1] == q
  }

  lemma ReachesItself(g: Graph, p: nat)
    requires p < |g.providers|
    ensures Reaches(g, p, p)
  {
    assert Leads(g, [p], p, p);
  }

  lemma ReachesOn(g: Graph, p: nat, q: nat, r: nat)
    requires p < |g.providers| && DependsOn(g, p, q) && Reaches(g, q, r)
    ensures Reaches(g, p, r)
  {
    var w :| Leads(g, w, q, r);
    var v := [p] + w;
    forall i | 0 <= i < |v| - 1
      ensures DependsOn(g, v[i], v[i + 1])
    {
      if i > 0 {
        assert DependsOn(g, w[i - 1], w[i]);
      }
    }
    assert Leads(g, v, p, r);
  }

  lemma ReachesFrom(g: Graph, s: nat, p: nat, q: nat)
    requires Reaches(g, s, p) && p < |g.providers| && q < |g.providers| && DependsOn(g, p, q)
    ensures Reaches(g, s, q)
  {
    var w :| Leads(g, w, s, p);
    var v := w + [q];
    forall i | 0 <= i < |v| - 1
      ensures DependsOn(g, v[i], v[i + 1])
    {
      if i < |w| - 1 {
        assert DependsOn(g, w[i], w[i + 1]);
      }
    }
    assert Leads(g, v, s, q);
  }

  // ---------------------------------------------------------------- orders

  /** Each provider once, and after all it depends on; nothing lacking. */
  ghost predicate Ordered(g: Graph, log: seq<nat>) {
    && (forall i :: 0 <= i < |log| ==> log[i] < |g.providers| && !Unresolvable(g, log[i]))
    && (forall i, j :: 0 <= i < j < |log| ==> log[i] != log[j])
    && (forall i, q :: 0 <= i < |log| && DependsOn(g, log[i], q) ==> q in log[..i])
  }

  /** A tail of a chain is a chain. */
  lemma PathTail(g: Graph, w: seq<nat>)
    requires Path(g, w) && w != []
    ensures Path(g, w[1..])
  {
    var rest := w[1..];
    forall i | 0 <= i < |rest| - 1
      ensures DependsOn(g, rest[i], rest[i + 1])
    {
      assert DependsOn(g, w[i + 1], w[i + 2]);
    }
  }

  /** A chain that starts at place `k` of an order stays at or below `k`, and never comes back to its start. */
  lemma {:induction false} ChainsDescend(g: Graph, log: seq<nat>, w: seq<nat>, k: nat)
    requires Ordered(g, log) && Path(g, w) && k < |log| && w != [] && w[0] == log[k]
    ensures forall x :: x in w[1..] ==> x in log[..k]
    ensures w[|w| - 1] in log
    ensures w[|w| - 1] !in w[..|w| - 1]
    decreases |w|
  {
    if |w| > 1 {
      var rest := w[1..];
      assert DependsOn(g, w[0], w[1]);
      var j :| 0 <= j < k && log[j] == rest[0];
      PathTail(g, w);
      ChainsDescend(g, log, rest, j);
      forall x | x in rest
        ensures x in log[..k]
      {
        assert x == rest[0] || x in rest[1..];
      }
      var last := rest[|rest| - 1];
      assert last in rest && last in log[..k];
      assert w[..|w| - 1] == [w[0]] + rest[..|rest| - 1];
    }
  }

  /** What stands in an order can be resolved, and stands there with all it reaches. */
  lemma OrderedIsResolvable(g: Graph, log: seq<nat>, p: nat)
    requires Ordered(g, log) && p in log
    ensures Resolvable(g, p)
    ensures forall q :: Reaches(g, p, q) ==> q in log
  {
    var k :| 0 <= k < |log| && log[k] == p;
    forall q | Reaches(g, p, q)
      ensures q in log
    {
      var w :| Leads(g, w, p, q);
      ChainsDescend(g, log, w, k);
    }
    forall w: seq<nat> | w != [] && w[0] == p
      ensures !Blocked(g, w)
    {
      if Path(g, w) {
        ChainsDescend(g, log, w, k);
      }
    }
  }
}

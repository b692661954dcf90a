/** The 256 capture chains of DOS traps, as linked lists in the heap. */
module CaptureChain {
  import opened Text

  type Handler = nat
  const NULL: Handler := 0
  const STUB: Handler := 1   // V86CaptStub, which always answers CAPT_NOHND
  const VECTORS := 256

  class Link {
    var handler: Handler
    var next: Link?

    constructor ()
    {
      handler, next := NULL, null;
    }
  }

  // ---- What the operations mean, on values

  datatype Op = Init | Detach | Hook(vector: nat, link: Link)

  function HookedChain(v: Version, chain: seq<Link>, link: Link): seq<Link>
    requires chain != []
  {
    [chain[0], link] + if v == AsWritten then [] else chain[1..]
  }

  predicate Shaped(heads: seq<Link>, chains: seq<seq<Link>>) {
    |heads| == |chains| == VECTORS && forall v | 0 <= v < VECTORS :: |chains[v]| > 0 && chains[v][0] == heads[v]
  }

  ghost predicate NoRepeat(chain: seq<Link>) {
    forall i, j | 0 <= i < j < |chain| :: chain[i] != chain[j]
  }

  ghost predicate Disjoint(c: seq<Link>, d: seq<Link>) {
    forall l | l in c :: l !in d
  }

  /** No link lies on two chains, or twice on one. */
  ghost predicate Apart(chains: seq<seq<Link>>) {
    && (forall v | 0 <= v < |chains| :: NoRepeat(chains[v]))
    && (forall v, w | 0 <= v < |chains| && 0 <= w < |chains| && v != w :: Disjoint(chains[v], chains[w]))
  }

  ghost predicate Unhooked(chains: seq<seq<Link>>, link: Link) {
    forall v | 0 <= v < |chains| :: link !in chains[v]
  }

  function HeadsOnly(heads: seq<Link>): seq<seq<Link>> {
    seq(|heads|, v requires 0 <= v < |heads| => [heads[v]])
  }

  function Apply(v: Version, heads: seq<Link>, chains: seq<seq<Link>>, op: Op): seq<seq<Link>> {
    match op
    case Hook(vector, link) =>
      if vector < |chains| && chains[vector] != [] then chains[vector := HookedChain(v, chains[vector], link)] else chains
    case _ => HeadsOnly(heads)
  }

  function ChainsAfter(v: Version, heads: seq<Link>, ops: seq<Op>): seq<seq<Link>> {
    if ops == [] then HeadsOnly(heads)
    else Apply(v, heads, ChainsAfter(v, heads, ops[..|ops| - 1]), ops[|ops| - 1])
  }

  /** A hook puts the link on its chain, leaves every other chain as it was, and keeps the
      earlier links of its own chain exactly when it is repaired or there were none. */
  lemma HookExact(v: Version, heads: seq<Link>, chains: seq<seq<Link>>, vector: nat, link: Link)
    requires Shaped(heads, chains) && vector < VECTORS && Apart(chains) && Unhooked(chains, link)
    ensures var after := Apply(v, heads, chains, Hook(vector, link));
            && |after| == VECTORS && link in after[vector]
            && (forall w | 0 <= w < VECTORS && w != vector :: after[w] == chains[w])
            && ((forall l | l in chains[vector] :: l in after[vector]) <==> v == Repaired || |chains[vector]| == 1)
  {
    var chain := chains[vector];
    var after := HookedChain(v, chain, link);
    assert after[1] == link;
    if v == Repaired || |chain| == 1 {
      forall l | l in chain ensures l in after {
        var i :| 0 <= i < |chain| && chain[i] == l;
        assert after[if i == 0 then 0 else i + 1] == l;
      }
    } else {
      assert chain[1] in chain && NoRepeat(chain) && link !in chain;
    }
  }

  lemma ChainsShaped(v: Version, heads: seq<Link>, ops: seq<Op>)
    requires |heads| == VECTORS
    ensures Shaped(heads, ChainsAfter(v, heads, ops))
  {
    if ops != [] { ChainsShaped(v, heads, ops[..|ops| - 1]); }
  }

  /** What takes a link off the chain of `vector`: resetting the table and, as written,
      any later hook of the same vector. */
  predicate Drops(v: Version, op: Op, vector: nat) {
    op.Init? || op.Detach? || (v == AsWritten && op.vector == vector)
  }

  /** `link` is on the chain of `vector`. */
  predicate OnChain(chains: seq<seq<Link>>, vector: nat, link: Link) {
    vector < |chains| && link in chains[vector]
  }

  /** Over any operations, a link that is hooked once is on its chain in the end exactly
      when nothing after it dropped it. */
  lemma {:induction false} SurvivesExactly(v: Version, heads: seq<Link>, ops: seq<Op>, k: nat)
    requires |heads| == VECTORS && k < |ops| && ops[k].Hook? && ops[k].vector < VECTORS && ops[k].link !in heads
    requires forall j | k < j < |ops| :: ops[j].Hook? ==> ops[j].link != ops[k].link
    ensures OnChain(ChainsAfter(v, heads, ops), ops[k].vector, ops[k].link) <==>
            forall j | k < j < |ops| :: !Drops(v, ops[j], ops[k].vector)
    decreases |ops|
  {
    var before, op := ops[..|ops| - 1], ops[|ops| - 1];
    var Hook(vector, link) := ops[k];
    ChainsShaped(v, heads, before);
    if k < |ops| - 1 {
      SurvivesExactly(v, heads, before, k);
      var chains := ChainsAfter(v, heads, before);
      assert before[k] == ops[k];
      if Drops(v, op, vector) {
        assert heads[vector] == HeadsOnly(heads)[vector][0];
        assert chains[vector][0] == heads[vector] && heads[vector] in heads;
        assert !OnChain(ChainsAfter(v, heads, ops), vector, link);
      } else {
        assert OnChain(ChainsAfter(v, heads, ops), vector, link) <==> OnChain(chains, vector, link);
        assert forall j | k < j < |before| :: before[j] == ops[j];
      }
    }
  }

  function Successor(chain: seq<Link>, i: nat): Link? {
    if i + 1 < |chain| then chain[i + 1] else null
  }

  /** Past the new link the chain goes on as it did. */
  lemma HookedSuccessor(v: Version, was: seq<Link>, link: Link, i: nat)
    requires NoRepeat(was) && link !in was && was != [] && i < |HookedChain(v, was, link)|
    ensures var chain := HookedChain(v, was, link);
            && (i == 0 ==> chain[i] == was[0] && Successor(chain, i) == link)
            && (i == 1 ==> chain[i] == link && Successor(chain, i) == if v == AsWritten then null else Successor(was, 0))
            && (i >= 2 ==> v == Repaired && chain[i] == was[i - 1] && chain[i] != link && chain[i] != was[0]
                           && Successor(chain, i) == Successor(was, i - 1))
  {
  }

  /** The heap holds `chain` as a NULL-ended list. */
  ghost predicate Linked(chain: seq<Link>)
    reads set l | l in chain
  {
    forall i | 0 <= i < |chain| :: chain[i].next == Successor(chain, i)
  }

  lemma HookKeepsApart(v: Version, chains: seq<seq<Link>>, vector: nat, link: Link)
    requires Apart(chains) && vector < |chains| && chains[vector] != [] && Unhooked(chains, link)
    ensures Apart(chains[vector := HookedChain(v, chains[vector], link)])
  {
    var was := chains[vector];
    var chain := HookedChain(v, was, link);
    var after := chains[vector := chain];
    assert NoRepeat(chain) by {
      assert NoRepeat(was) && link !in was;
      assert forall i | 2 <= i < |chain| :: chain[i] == was[i - 1];
    }
    assert forall l | l in chain :: l == link || l in was;
    forall a, b | 0 <= a < |after| && 0 <= b < |after| && a != b ensures Disjoint(after[a], after[b]) {
      assert Disjoint(chains[a], chains[b]);
    }
  }

  lemma HookKeepsShape(v: Version, heads: seq<Link>, chains: seq<seq<Link>>, vector: nat, link: Link, repr: set<Link>)
    requires Shaped(heads, chains) && Apart(chains) && vector < VECTORS && Unhooked(chains, link)
    requires forall w, l | 0 <= w < VECTORS && l in chains[w] :: l in repr
    ensures var after := chains[vector := HookedChain(v, chains[vector], link)];
            && Shaped(heads, after) && Apart(after)
            && (forall w, l | 0 <= w < VECTORS && l in after[w] :: l in repr + {link})
    ensures forall w | 0 <= w < VECTORS && w != vector :: heads[vector] !in chains[w] && link !in chains[w]
  {
    HookKeepsApart(v, chains, vector, link);
    assert heads[vector] in chains[vector];
    forall w | 0 <= w < VECTORS && w != vector ensures heads[vector] !in chains[w] {
      assert Disjoint(chains[vector], chains[w]);
    }
  }

  /** The capture table and the lists that hang from it. */
  class Chains {
    const heads: seq<Link>        // v86_capture_chain[], whose elements never move
    ghost var chains: seq<seq<Link>>
    ghost var Repr: set<Link>

    ghost predicate HeadsOk()
    {
      |heads| == VECTORS && forall v, w | 0 <= v < w < VECTORS :: heads[v] != heads[w]
    }

    /** Every chain is finite and NULL-ended, starts at its table entry, and shares no
        link with itself or another. */
    ghost predicate Valid()
      reads this, Repr
    {
      && HeadsOk() && Shaped(heads, chains) && Apart(chains)
      && (forall v, l | 0 <= v < VECTORS && l in chains[v] :: l in Repr)
      && (forall v | 0 <= v < VECTORS :: Linked(chains[v]))
    }

    /** InitV86. */
    method InitV86()
      requires HeadsOk()
      modifies this, heads
      ensures Valid() && chains == HeadsOnly(heads)
      ensures forall v | 0 <= v < VECTORS :: heads[v].handler == STUB
    {
      for i := 0 to VECTORS
        invariant forall v | 0 <= v < i :: heads[v].handler == STUB && heads[v].next == null
      {
        heads[i].handler, heads[i].next := STUB, null;
      }
      chains := HeadsOnly(heads);
      Repr := set h | h in heads;
    }

    /** ScOnErrorDetatchLinks zeroes the whole table. */
    method OnErrorDetachLinks()
      requires HeadsOk()
      modifies this, heads
      ensures Valid() && chains == HeadsOnly(heads)
      ensures forall v | 0 <= v < VECTORS :: heads[v].handler == NULL
    {
      for i := 0 to VECTORS
        invariant forall v | 0 <= v < i :: heads[v].handler == NULL && heads[v].next == null
      {
        heads[i].handler, heads[i].next := NULL, null;
      }
      chains := HeadsOnly(heads);
      Repr := set h | h in heads;
    }

    /** ScHookDosTrap, for a link that is on no chain. */
    method HookDosTrap(v: Version, vector: nat, link: Link, hnd: Handler)
      requires Valid() && vector < VECTORS && Unhooked(chains, link)
      modifies this, heads[vector], link
      ensures Valid()
      ensures chains == Apply(v, heads, old(chains), Hook(vector, link))
      ensures link.handler == hnd && heads[vector].handler == old(heads[vector].handler)
      ensures heads[vector].next == link && link.next == if v == AsWritten then null else old(heads[vector].next)
    {
      var prev := heads[vector];
      ghost var was := chains[vector];
      assert prev == was[0];
      var rest := prev.next;
      assert Linked(was) && rest == Successor(was, 0);
      prev.next := link;
      link.handler := hnd;
      link.next := if v == AsWritten then null else rest;
      ghost var chain := HookedChain(v, was, link);
      HookKeepsShape(v, heads, chains, vector, link, Repr);
      forall w | 0 <= w < VECTORS && w != vector ensures Linked(chains[w]) {
        assert old(Linked(chains[w]));
      }
      forall i | 0 <= i < |chain| ensures chain[i].next == Successor(chain, i) {
        HookedSuccessor(v, was, link, i);
        assert i >= 2 ==> old(was[i - 1].next) == Successor(was, i - 1);
      }
      chains := chains[vector := chain];
      Repr := Repr + {link};
    }
  }
}

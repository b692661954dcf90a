/** ScVirtual86_Int's walk along a capture chain. The repository has the loop commented
    out; both that text and the walk it describes are modelled. */
module CaptureWalk {
  import opened Text
  import opened Basics
  import opened CaptureChain

  datatype Outcome = Handled | RealMode(cs: nat, ip: nat)

  /** CAPT_HND; the stub answers CAPT_NOHND whatever the trap. */
  predicate Accepts(hnd: Handler, answer: bool) {
    hnd != STUB && answer
  }

  /** A NULL handler is an invalid entry. */
  function NonNull(hs: seq<Handler>): seq<Handler> {
    if hs == [] then [] else (if hs[0] == NULL then [] else [hs[0]]) + NonNull(hs[1..])
  }

  /** The links a walk may come to; as written it stops at the last one. */
  function Reach(v: Version, hs: seq<Handler>): seq<Handler>
    requires hs != []
  {
    if v == AsWritten then hs[..|hs| - 1] else hs
  }

  function Callable(v: Version, hs: seq<Handler>): seq<Handler>
    requires hs != []
  {
    NonNull(Reach(v, hs))
  }

  ghost function HandlersOf(chain: seq<Link>): (hs: seq<Handler>)
    reads set l | l in chain
    ensures |hs| == |chain| && forall i | 0 <= i < |chain| :: hs[i] == chain[i].handler
  {
    if chain == [] then [] else [chain[0].handler] + HandlersOf(chain[1..])
  }

  /** Some handler among the first `n` accepts. */
  predicate AcceptedBy(hs: seq<Handler>, respond: nat -> bool, n: nat)
    requires n <= |hs|
  {
    exists i | 0 <= i < n :: Accepts(hs[i], respond(i))
  }

  /** `called` is what calling `hs` in order until one accepts gives. */
  predicate CalledInOrder(hs: seq<Handler>, respond: nat -> bool, called: seq<Handler>, accepted: bool) {
    && called <= hs
    && (if accepted then
          && called != [] && Accepts(called[|called| - 1], respond(|called| - 1))
          && !AcceptedBy(hs, respond, |called| - 1)
        else
          called == hs && !AcceptedBy(hs, respond, |hs|))
  }

  /** The walk calls the chain's handlers in order up to and including the first that
      accepts, none after it, and enters real mode at the segment and offset in the
      interrupt vector table exactly when all have declined. `respond` is what the i-th
      handler called answers. */
  method Walk(v: Version, c: Chains, vector: nat, respond: nat -> bool, ivt: Dword)
    returns (called: seq<Handler>, outcome: Outcome)
    requires c.Valid() && vector < VECTORS
    ensures CalledInOrder(Callable(v, HandlersOf(c.chains[vector])), respond, called, outcome == Handled)
    ensures outcome == Handled || outcome == RealMode(ivt / 0x1_0000, ivt % 0x1_0000)
    // Only the last handler called accepts, and it is neither the stub nor an invalid entry.
    ensures outcome == Handled ==>
              called != [] && called[|called| - 1] !in {NULL, STUB} && respond(|called| - 1)
    ensures forall i | 0 <= i < |called| && (i < |called| - 1 || outcome != Handled) :: called[i] == STUB || !respond(i)
    // Before DOS gets the trap every entry that the walk comes to has been asked.
    ensures outcome != Handled ==> forall i | 0 <= i < |c.chains[vector]| && c.chains[vector][i].handler != NULL ::
              c.chains[vector][i].handler in called || (v == AsWritten && i == |c.chains[vector]| - 1)
    ensures (forall l | l in c.chains[vector] :: l.handler == STUB) ==> outcome == RealMode(ivt / 0x1_0000, ivt % 0x1_0000)
  {
    var handled;
    called, handled := WalkList(v, c.heads[vector], c.chains[vector], HandlersOf(c.chains[vector]), respond);
    outcome := if handled then Handled else RealMode(ivt / 0x1_0000, ivt % 0x1_0000);
    ghost var hs := HandlersOf(c.chains[vector]);
    Meaning(v, hs, respond, called, handled);
    forall i | 0 <= i < |hs| ensures hs[i] == c.chains[vector][i].handler {}
    if handled && (forall l | l in c.chains[vector] :: l.handler == STUB) { AllStubs(hs, called); }
  }

  /** What being called in order means for the handlers on the chain, without `Accepts`. */
  lemma Meaning(v: Version, hs: seq<Handler>, respond: nat -> bool, called: seq<Handler>, handled: bool)
    requires hs != [] && CalledInOrder(Callable(v, hs), respond, called, handled)
    ensures forall h | h in called :: h in hs
    ensures handled ==> called != [] && called[|called| - 1] !in {NULL, STUB} && respond(|called| - 1)
    ensures forall i | 0 <= i < |called| && (i < |called| - 1 || !handled) :: called[i] == STUB || !respond(i)
    ensures !handled ==> forall i | 0 <= i < |hs| && hs[i] != NULL :: hs[i] in called || (v == AsWritten && i == |hs| - 1)
  {
    var reach, all := Reach(v, hs), Callable(v, hs);
    NonNullOnly(reach);
    forall h | h in called ensures h in hs {
      assert called <= all && h in all;
    }
    forall i | 0 <= i < |called| && (i < |called| - 1 || !handled) ensures called[i] == STUB || !respond(i) {
      assert called[i] == all[i] && !Accepts(all[i], respond(i));
    }
    if handled { assert called[|called| - 1] in all; }
    if !handled {
      forall i | 0 <= i < |hs| && hs[i] != NULL ensures hs[i] in called || (v == AsWritten && i == |hs| - 1) {
        if i < |reach| { NonNullKeeps(reach, i); }
      }
    }
  }

  lemma AllStubs(hs: seq<Handler>, called: seq<Handler>)
    requires called != [] && (forall h | h in called :: h in hs) && forall h | h in hs :: h == STUB
    ensures called[|called| - 1] == STUB
  {
    assert called[|called| - 1] in called;
  }

  lemma NonNullOnly(hs: seq<Handler>)
    ensures forall h | h in NonNull(hs) :: h != NULL && h in hs
  {
  }

  lemma NonNullKeeps(hs: seq<Handler>, i: nat)
    requires i < |hs| && hs[i] != NULL
    ensures hs[i] in NonNull(hs)
  {
    if i > 0 { NonNullKeeps(hs[1..], i - 1); }
  }

  method WalkList(v: Version, head: Link, ghost chain: seq<Link>, ghost hs: seq<Handler>, respond: nat -> bool)
    returns (called: seq<Handler>, handled: bool)
    requires Linked(chain) && chain != [] && chain[0] == head
    requires |hs| == |chain| && forall i | 0 <= i < |chain| :: hs[i] == chain[i].handler
    ensures CalledInOrder(Callable(v, hs), respond, called, handled)
  {
    ghost var reach := Reach(v, hs);
    called := [];
    var current: Link? := head;
    ghost var n := 0;
    while current != null && (v == Repaired || current.next != null)
      invariant n <= |reach| && current == if n < |chain| then chain[n] else null
      invariant called + NonNull(reach[n..]) == NonNull(reach)
      invariant Declined(called, respond)
      decreases |chain| - n
    {
      assert current.next == Successor(chain, n);
      Advance(reach, n, called, NonNull(reach));
      var hnd := current.handler;
      current := current.next;
      n := n + 1;
      if hnd != NULL {
        called := called + [hnd];
        if Accepts(hnd, respond(|called| - 1)) {
          InOrder(NonNull(reach), respond, called, NonNull(reach[n..]));
          return called, true;
        }
      }
    }
    assert current != null ==> current.next == Successor(chain, n);
    assert n == |reach|;
    handled := false;
  }

  predicate Declined(called: seq<Handler>, respond: nat -> bool) {
    forall i | 0 <= i < |called| :: !Accepts(called[i], respond(i))
  }

  lemma Advance(reach: seq<Handler>, n: nat, called: seq<Handler>, all: seq<Handler>)
    requires n < |reach| && called + NonNull(reach[n..]) == all
    ensures reach[n] == NULL ==> called + NonNull(reach[n + 1..]) == all
    ensures reach[n] != NULL ==> called + [reach[n]] + NonNull(reach[n + 1..]) == all
  {
    NonNullFirst(reach, n);
    Regroup(called, [reach[n]], NonNull(reach[n + 1..]));
  }

  lemma NonNullFirst(hs: seq<Handler>, n: nat)
    requires n < |hs|
    ensures NonNull(hs[n..]) == if hs[n] == NULL then NonNull(hs[n + 1..]) else [hs[n]] + NonNull(hs[n + 1..])
  {
    assert hs[n..][1..] == hs[n + 1..];
    if hs[n] == NULL { assert [] + NonNull(hs[n + 1..]) == NonNull(hs[n + 1..]); }
  }

  lemma Regroup(a: seq<Handler>, b: seq<Handler>, c: seq<Handler>)
    ensures a + b + c == a + (b + c)
  {
  }

  lemma InOrder(all: seq<Handler>, respond: nat -> bool, called: seq<Handler>, rest: seq<Handler>)
    requires all == called + rest && called != [] && Declined(called[..|called| - 1], respond)
    requires Accepts(called[|called| - 1], respond(|called| - 1))
    ensures CalledInOrder(all, respond, called, true)
  {
    forall i | 0 <= i < |called| - 1 ensures !Accepts(all[i], respond(i)) {
      assert all[i] == called[..|called| - 1][i];
    }
  }

  /** A walk is handled exactly when some handler on the chain accepts. */
  lemma HandledExactly(hs: seq<Handler>, respond: nat -> bool, called: seq<Handler>, accepted: bool)
    requires CalledInOrder(hs, respond, called, accepted)
    ensures accepted <==> AcceptedBy(hs, respond, |hs|)
  {
    if accepted { assert called[|called| - 1] == hs[|called| - 1]; }
  }

  /** What a walk calls, and whether it is handled, is determined by the handlers and their
      answers. */
  lemma CalledOnce(hs: seq<Handler>, respond: nat -> bool, called: seq<Handler>, accepted: bool, called': seq<Handler>, accepted': bool)
    requires CalledInOrder(hs, respond, called, accepted) && CalledInOrder(hs, respond, called', accepted')
    ensures called == called' && accepted == accepted'
  {
    HandledExactly(hs, respond, called, accepted);
    HandledExactly(hs, respond, called', accepted');
    if accepted {
      NotShorter(hs, respond, called, called');
      NotShorter(hs, respond, called', called);
    }
  }

  lemma NotShorter(hs: seq<Handler>, respond: nat -> bool, called: seq<Handler>, called': seq<Handler>)
    requires CalledInOrder(hs, respond, called, true) && CalledInOrder(hs, respond, called', true)
    ensures |called| >= |called'|
  {
    var last := |called| - 1;
    assert hs[last] == called[last] && Accepts(hs[last], respond(last));
  }

  lemma {:induction false} NonNullSnoc(hs: seq<Handler>, h: Handler)
    requires h != NULL
    ensures NonNull(hs + [h]) == NonNull(hs) + [h]
    decreases |hs|
  {
    if hs != [] {
      assert (hs + [h])[1..] == hs[1..] + [h];
      NonNullSnoc(hs[1..], h);
    }
  }

  /** The walk as written misses the trap exactly when every other handler declines it
      and the last link's would have taken it. */
  lemma LastLinkMissed(hs: seq<Handler>, respond: nat -> bool)
    requires hs != [] && hs[|hs| - 1] != NULL
    ensures var all, reached := Callable(Repaired, hs), Callable(AsWritten, hs);
            (AcceptedBy(all, respond, |all|) != AcceptedBy(reached, respond, |reached|)) <==>
            (!AcceptedBy(reached, respond, |reached|) && Accepts(hs[|hs| - 1], respond(|reached|)))
  {
    var all, reached := Callable(Repaired, hs), Callable(AsWritten, hs);
    NonNullSnoc(hs[..|hs| - 1], hs[|hs| - 1]);
    assert hs == hs[..|hs| - 1] + [hs[|hs| - 1]];
    if Accepts(hs[|hs| - 1], respond(|reached|)) { assert Accepts(all[|reached|], respond(|reached|)); }
    if AcceptedBy(reached, respond, |reached|) {
      var i :| 0 <= i < |reached| && Accepts(reached[i], respond(i));
      assert Accepts(all[i], respond(i));
    }
  }
}

/**
  The wallet signs one message at a time: each signing waits for the one before it, whatever became of
  that one (chat-app/src/lib/queued-signer.ts:15-31).
 */
module QueuedSigner {
  import opened Encoding
  import opened Wrappers

  datatype Status = Waiting | Running | Signed(signature: Bytes) | Failed

  /** `after` is the signing whose end the chain stood for when this one was submitted. */
  datatype Signing = Signing(bytes: Bytes, after: Option<nat>, status: Status)

  predicate Settled(s: Signing) {
    s.status.Signed? || s.status.Failed?
  }

  /** A signing starts once the chain it was appended to has ended; a caught failure ends it too. */
  predicate CanStart(q: seq<Signing>, i: nat) {
    && i < |q| && q[i].status.Waiting?
    && match q[i].after
       case None => true
       case Some(j) => j < |q| && Settled(q[j])
  }

  datatype Step = Submit(bytes: Bytes) | Begin(i: nat) | End(i: nat, outcome: Status)

  predicate Enabled(q: seq<Signing>, s: Step) {
    match s
    case Submit(_) => true
    case Begin(i) => CanStart(q, i)
    case End(i, outcome) => i < |q| && q[i].status.Running? && (outcome.Signed? || outcome.Failed?)
  }

  function LastOf(q: seq<Signing>): Option<nat> {
    if q == [] then None else Some(|q| - 1)
  }

  function Apply(q: seq<Signing>, s: Step): seq<Signing>
    requires Enabled(q, s)
  {
    match s
    case Submit(bytes) => q + [Signing(bytes, LastOf(q), Waiting)]
    case Begin(i) => q[i := q[i].(status := Running)]
    case End(i, outcome) => q[i := q[i].(status := outcome)]
  }

  ghost predicate IsRun(states: seq<seq<Signing>>, steps: seq<Step>) {
    && |states| == |steps| + 1
    && forall i | 0 <= i < |steps| :: Enabled(states[i], steps[i]) && states[i + 1] == Apply(states[i], steps[i])
  }

  class QueuedCurrentAccountSigner {
    var chain: Option<nat>  // the signing whose settling resolves the chain
    var signings: seq<Signing>

    ghost predicate Valid()
      reads this
    {
      chain == LastOf(signings) && Queued(signings)
    }

    constructor ()
      ensures Valid() && signings == []
    {
      chain, signings := None, [];
    }

    method SignPersonalMessage(bytes: Bytes) returns (run: nat)
      requires Valid()
      modifies this
      ensures Valid() && signings == Apply(old(signings), Submit(bytes)) && run == |old(signings)|
      ensures signings[run].bytes == bytes && signings[run].status.Waiting?
    {
      SubmitKeepsQueued(signings, bytes);
      run := |signings|;
      signings := signings + [Signing(bytes, chain, Waiting)];
      chain := Some(run);
    }
  }

  // ---------------------------------------------------------------- the discipline

  ghost predicate Chained(q: seq<Signing>) {
    forall i | 0 <= i < |q| :: q[i].after == if i == 0 then None else Some(i - 1)
  }

  /** First the settled ones, then at most one running, then those waiting. */
  ghost predicate Queued(q: seq<Signing>) {
    Chained(q) && forall i, j | 0 <= i < j < |q| :: Settled(q[i]) || q[j].status.Waiting?
  }

  lemma SubmitKeepsQueued(q: seq<Signing>, bytes: Bytes)
    requires Queued(q)
    ensures Queued(Apply(q, Submit(bytes)))
  {
  }

  lemma StepKeepsQueued(q: seq<Signing>, s: Step)
    requires Queued(q) && Enabled(q, s)
    ensures Queued(Apply(q, s))
  {
  }

  lemma {:induction false} RunKeepsQueued(states: seq<seq<Signing>>, steps: seq<Step>, n: nat)
    requires IsRun(states, steps) && Queued(states[0]) && n < |states|
    ensures Queued(states[n])
  {
    if n == 0 {
    } else {
      RunKeepsQueued(states, steps, n - 1);
      StepKeepsQueued(states[n - 1], steps[n - 1]);
    }
  }

  /** In every reachable state at most one signing runs, and it runs only after all earlier ones ended. */
  lemma OneAtATimeInOrder(states: seq<seq<Signing>>, steps: seq<Step>, n: nat, j: nat)
    requires IsRun(states, steps) && states[0] == [] && n < |states|
    requires j < |states[n]| && !states[n][j].status.Waiting?
    ensures forall i | 0 <= i < j :: Settled(states[n][i])
    ensures states[n][j].status.Running? ==> forall i | 0 <= i < |states[n]| && i != j :: !states[n][i].status.Running?
  {
    RunKeepsQueued(states, steps, n);
  }

  lemma StepKeepsResults(q: seq<Signing>, s: Step, i: nat)
    requires Enabled(q, s) && i < |q|
    ensures i < |Apply(q, s)| && Apply(q, s)[i].bytes == q[i].bytes
    ensures Settled(q[i]) ==> Apply(q, s)[i] == q[i]
    ensures s.End? && s.i == i ==> Apply(q, s)[i].status == s.outcome
  {
  }

  /** Whoever submitted a signing gets its own outcome, over its own bytes, whatever is signed after it. */
  lemma {:induction false} EachGetsItsOwnResult(states: seq<seq<Signing>>, steps: seq<Step>, k: nat, n: nat, i: nat)
    requires IsRun(states, steps) && k < n < |states| && i < |states[k]|
    ensures i < |states[n]| && states[n][i].bytes == states[k][i].bytes
    ensures Settled(states[k][i]) ==> states[n][i] == states[k][i]
    ensures steps[k].End? && steps[k].i == i ==> states[n][i].status == steps[k].outcome
  {
    if n > k + 1 { EachGetsItsOwnResult(states, steps, k, n - 1, i); }
    StepKeepsResults(states[n - 1], steps[n - 1], i);
  }

  /** How many beginnings and endings are left. */
  function Work(q: seq<Signing>): nat {
    if q == [] then 0
    else Work(q[..|q| - 1]) + match q[|q| - 1].status case Waiting => 2 case Running => 1 case _ => 0
  }

  lemma {:induction false} WorkAt(q: seq<Signing>, i: nat, x: Signing)
    requires i < |q|
    ensures Work(q[i := x]) == Work(q) - Work([q[i]]) + Work([x])
  {
    var q' := q[i := x];
    if i == |q| - 1 {
      assert q'[..|q| - 1] == q[..|q| - 1];
    } else {
      WorkAt(q[..|q| - 1], i, x);
      assert q'[..|q| - 1] == q[..|q| - 1][i := x];
    }
    assert [x][..0] == [] && [q[i]][..0] == [];
  }

  lemma {:induction false} NoWorkIff(q: seq<Signing>)
    ensures Work(q) == 0 <==> forall i | 0 <= i < |q| :: Settled(q[i])
  {
    if q == [] {
    } else {
      NoWorkIff(q[..|q| - 1]);
      assert forall i | 0 <= i < |q| - 1 :: q[..|q| - 1][i] == q[i];
    }
  }

  lemma FirstUnsettled(q: seq<Signing>) returns (i: nat)
    requires Work(q) > 0
    ensures i < |q| && !Settled(q[i]) && forall k | 0 <= k < i :: Settled(q[k])
  {
    NoWorkIff(q);
    i := 0;
    while Settled(q[i])
      invariant i < |q| && forall k | 0 <= k < i :: Settled(q[k])
      invariant !forall k | 0 <= k < |q| :: Settled(q[k])
      decreases |q| - i
    {
      i := i + 1;
    }
  }

  /** A failed signing does not block the next: while any is unsettled, exactly the first such can move. */
  lemma AlwaysMoves(q: seq<Signing>) returns (i: nat)
    requires Queued(q) && Work(q) > 0
    ensures i < |q| && !Settled(q[i]) && forall k | 0 <= k < i :: Settled(q[k])
    ensures Enabled(q, Begin(i)) || (Enabled(q, End(i, Failed)) && forall signature :: Enabled(q, End(i, Signed(signature))))
    ensures forall k | 0 <= k < |q| && k != i :: !Enabled(q, Begin(k)) && !Enabled(q, End(k, Failed))
  {
    i := FirstUnsettled(q);
    assert q[i].after == if i == 0 then None else Some(i - 1);
    forall k | i < k < |q| ensures q[k].status.Waiting? && !CanStart(q, k) {
      assert q[k].after == Some(k - 1);
      assert k - 1 > i ==> Settled(q[i]) || q[k - 1].status.Waiting?;
    }
  }

  /** Without further submissions the queue empties after exactly `Work` steps, whichever way each one ends. */
  lemma {:induction false} QueueDrains(states: seq<seq<Signing>>, steps: seq<Step>, n: nat)
    requires IsRun(states, steps) && forall i | 0 <= i < |steps| :: !steps[i].Submit?
    requires n < |states|
    ensures Work(states[n]) == Work(states[0]) - n && |states[n]| == |states[0]|
    ensures n == Work(states[0]) ==> forall i | 0 <= i < |states[n]| :: Settled(states[n][i])
  {
    NoWorkIff(states[n]);
    if n == 0 {
    } else {
      QueueDrains(states, steps, n - 1);
      var q, s := states[n - 1], steps[n - 1];
      var x := Apply(q, s)[s.i];
      WorkAt(q, s.i, x);
      assert [x][..0] == [] && [q[s.i]][..0] == [];
    }
  }
}

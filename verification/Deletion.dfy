/** Deleting the messages that get no reply, from any interleaved run: the rest is a run as well,
    with the same outputs and the same shared state. */
module Deletion {
  import opened Text
  import opened Gateway
  import opened System
  import opened Interleavings

  /** Neither an answer nor a failure in the steps from g up to state i. */
  predicate Silent(a: Agent, r: Run, g: nat, i: nat)
    requires Valid(a, r)
  {
    forall k :: g <= k < i < |r.states| ==> Output(a, r.states[k], r.steps[k]).None? && NothingFails(r.steps[k])
  }

  /** The message received in step g has been dealt with by state i, in silence. */
  predicate Ignored(a: Agent, r: Run, g: nat, i: nat)
    requires Valid(a, r)
  {
    Completes(r, g, i) && Silent(a, r, g, i)
  }

  /** Step m is one of the handler's steps for an ignored message. */
  ghost predicate Deleted(a: Agent, r: Run, m: nat)
    requires Valid(a, r) && m < |r.steps|
  {
    ByHandler(r.steps[m]) && exists g: nat, i: nat :: g <= m < i && Ignored(a, r, g, i)
  }

  /** In state n the handler is in the middle of an ignored message. */
  ghost predicate Ignoring(a: Agent, r: Run, n: nat)
    requires Valid(a, r)
  {
    exists g: nat, i: nat :: g < n < i && Ignored(a, r, g, i)
  }

  /** The first n steps without the deleted ones, each with its output. */
  ghost function KeptTrace(a: Agent, r: Run, n: nat): seq<(Step, Option<Str>)>
    requires Valid(a, r) && n <= |r.steps|
  {
    if n == 0 then []
    else
      KeptTrace(a, r, n - 1)
      + if Deleted(a, r, n - 1) then [] else [(r.steps[n - 1], Output(a, r.states[n - 1], r.steps[n - 1]))]
  }

  /** The first n steps, each with its output. */
  function Trace(a: Agent, r: Run, n: nat): seq<(Step, Option<Str>)>
    requires Valid(a, r) && n <= |r.steps|
  {
    if n == 0 then []
    else Trace(a, r, n - 1) + [(r.steps[n - 1], Output(a, r.states[n - 1], r.steps[n - 1]))]
  }

  /** State t of the remaining run stands for state n of the whole run. */
  ghost predicate StandsFor(a: Agent, r: Run, n: nat, t: Sys)
    requires Valid(a, r) && n < |r.states|
  {
    && Shared(t) == Shared(r.states[n]) && t.clock <= r.states[n].clock
    && t.pc == if Ignoring(a, r, n) then Idle else r.states[n].pc
  }

  /** A step does the same in a state that agrees on what the step looks at. */
  lemma SameStep(a: Agent, s: Sys, t: Sys, step: Step)
    requires Enabled(s, step) && Shared(t) == Shared(s) && t.clock <= s.clock
    requires ByHandler(step) ==> t.pc == s.pc
    ensures Enabled(t, step) && Output(a, t, step) == Output(a, s, step)
    ensures Shared(Apply(a, t, step)) == Shared(Apply(a, s, step))
    ensures Apply(a, t, step).clock == Apply(a, s, step).clock
    ensures if ByHandler(step) then Apply(a, t, step).pc == Apply(a, s, step).pc
            else Apply(a, t, step).pc == t.pc && Apply(a, s, step).pc == s.pc
  {
  }

  /** While a message is being ignored the handler is busy, with it alone. */
  lemma IgnoringIsBusy(a: Agent, r: Run, n: nat)
    requires Valid(a, r) && n < |r.steps|
    ensures ByHandler(r.steps[n]) && Ignoring(a, r, n) ==> Deleted(a, r, n)
    ensures ByHandler(r.steps[n]) && Ignoring(a, r, n + 1) ==> Deleted(a, r, n)
    ensures !ByHandler(r.steps[n]) && r.states[n + 1].pc == r.states[n].pc ==>
              (Ignoring(a, r, n) <==> Ignoring(a, r, n + 1))
    ensures Deleted(a, r, n) && !Ignoring(a, r, n) ==> r.states[n].pc.Idle?
    ensures Deleted(a, r, n) && !Ignoring(a, r, n + 1) ==> r.states[n + 1].pc.Idle?
  {
  }

  lemma KeptStep(a: Agent, r: Run, n: nat, t: Sys)
    requires Valid(a, r) && n < |r.steps| && StandsFor(a, r, n, t) && !Deleted(a, r, n)
    ensures Enabled(t, r.steps[n]) && Output(a, t, r.steps[n]) == Output(a, r.states[n], r.steps[n])
    ensures StandsFor(a, r, n + 1, Apply(a, t, r.steps[n]))
  {
    IgnoringIsBusy(a, r, n);
    SameStep(a, r.states[n], t, r.steps[n]);
  }

  lemma DeletedStep(a: Agent, r: Run, n: nat, t: Sys)
    requires Valid(a, r) && n < |r.steps| && StandsFor(a, r, n, t) && Deleted(a, r, n)
    ensures StandsFor(a, r, n + 1, t)
  {
    IgnoringIsBusy(a, r, n);
    var g: nat, i: nat :| g <= n < i && Ignored(a, r, g, i);
    IgnoredIsInvisible(a, r, g, i, n);
    ClockStep(a, r.states[n], r.steps[n]);
  }

  lemma {:induction false} TraceOfPrefix(a: Agent, q: Run, q': Run, n: nat)
    requires Valid(a, q) && Valid(a, q') && q.steps <= q'.steps && q.states <= q'.states && n <= |q.steps|
    ensures Trace(a, q', n) == Trace(a, q, n)
  {
    if n > 0 {
      TraceOfPrefix(a, q, q', n - 1);
    }
  }

  /** A run goes on with any step that is enabled. */
  lemma Extended(a: Agent, p: Run, step: Step) returns (q: Run)
    requires Valid(a, p) && Enabled(p.states[|p.steps|], step)
    ensures Valid(a, q) && q.states[0] == p.states[0]
    ensures var t := p.states[|p.steps|];
            && Trace(a, q, |q.steps|) == Trace(a, p, |p.steps|) + [(step, Output(a, t, step))]
            && q.states[|q.steps|] == Apply(a, t, step)
  {
    q := Run(p.states + [Apply(a, p.states[|p.steps|], step)], p.steps + [step]);
    hide Apply;
    hide Enabled;
    hide Output;
    TraceOfPrefix(a, p, q, |p.steps|);
  }

  /** The remaining run, built step by step. */
  lemma {:induction false} Remainder(a: Agent, r: Run, n: nat) returns (q: Run)
    requires Valid(a, r) && n <= |r.steps|
    ensures Valid(a, q) && q.states[0] == r.states[0]
    ensures Trace(a, q, |q.steps|) == KeptTrace(a, r, n)
    ensures StandsFor(a, r, n, q.states[|q.steps|])
  {
    if n == 0 {
      q := Run([r.states[0]], []);
    } else {
      hide Apply;
      hide Enabled;
      hide Output;
      hide Deleted;
      hide StandsFor;
      var p := Remainder(a, r, n - 1);
      var t, step := p.states[|p.steps|], r.steps[n - 1];
      if Deleted(a, r, n - 1) {
        DeletedStep(a, r, n - 1, t);
        q := p;
      } else {
        KeptStep(a, r, n - 1, t);
        q := Extended(a, p, step);
      }
    }
  }

  /** From every run, however interleaved, the handler's steps for ignored messages can be deleted:
      what remains is a run from the same start, its steps are the others with the outputs they had,
      no output is lost, no ignored message is left, and it ends with the same shared state and the
      handler where it was. */
  lemma DeletingIgnoredLeavesARun(a: Agent, r: Run) returns (q: Run)
    requires Valid(a, r)
    ensures Valid(a, q) && q.states[0] == r.states[0]
    ensures Trace(a, q, |q.steps|) == KeptTrace(a, r, |r.steps|)
    ensures forall m: nat | m < |r.steps| && Deleted(a, r, m) :: Output(a, r.states[m], r.steps[m]).None?
    ensures forall g: nat, i: nat, m: nat ::
              && Completes(r, g, i) && g <= m < i && ByHandler(r.steps[m])
              && (forall k | g <= k < i :: Output(a, r.states[k], r.steps[k]).None? && NothingFails(r.steps[k])) ==>
                Deleted(a, r, m)
    ensures Shared(q.states[|q.steps|]) == Shared(r.states[|r.steps|])
    ensures q.states[|q.steps|].pc == r.states[|r.steps|].pc
  {
    q := Remainder(a, r, |r.steps|);
    forall g: nat, i: nat, m: nat |
      && Completes(r, g, i) && g <= m < i && ByHandler(r.steps[m])
      && (forall k | g <= k < i :: Output(a, r.states[k], r.steps[k]).None? && NothingFails(r.steps[k]))
      ensures Deleted(a, r, m)
    {
      assert Ignored(a, r, g, i);
    }
  }
}

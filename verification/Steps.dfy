/** The steps that runs of both locks are made of, whatever the contexts do in between. */
module Steps {

  /** Access: the context makes its next access (a wake takes nobody).
      WakeOf: a wake releases one sleeper, of the environment's choosing.
      Spurious: a suspended context returns although nobody woke it. */
  datatype Step = Access(t: nat) | WakeOf(t: nat, sleeper: nat) | Spurious(t: nat)

  function SpuriousReturns(steps: seq<Step>): nat {
    if |steps| == 0 then 0
    else (if steps[0].Spurious? then 1 else 0) + SpuriousReturns(steps[1..])
  }
}

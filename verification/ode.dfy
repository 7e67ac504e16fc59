/** The adaptive ODE solver, seen from outside. Its step control and
    tolerances are not modelled: one call of an `Integrator` is one adaptive
    step of `ode::Solver`, started from a state vector and a time. */
module Ode {

  /** A right-hand side: time and state in, rates of change out. */
  type Rhs = (real, seq<real>) -> seq<real>

  /** What the solver carries between steps: its step-size history. */
  datatype Solver = Solver(stepHistory: seq<real>)

  /** A solver with no step-size history: a new one, or one after `reset`. */
  function Fresh(): Solver {
    Solver([])
  }

  datatype StepOutcome = Stepped(y: seq<real>, time: real, solver: Solver) | Failed

  /** One adaptive step: right-hand side, start state, start time, solver. */
  type Integrator = (Rhs, seq<real>, real, Solver) -> StepOutcome

  /** What the model asks of a solver: an accepted step returns a state of
      the length it was started from. */
  ghost predicate ValidIntegrator(integrate: Integrator) {
    forall f: Rhs, y: seq<real>, t: real, s: Solver ::
      integrate(f, y, t, s).Stepped? ==> |integrate(f, y, t, s).y| == |y|
  }
}

/** `solve_simulated_annealing`: the improve-or-accept loop, generic over the
    problem type. The problem's two operations are function parameters:
    `energy` (`calculate_energy`) and `neighbor` (`generate_neighbor`), whose
    second argument is the iteration index and so picks the random draws of
    that iteration. Temperature and the Metropolis draw are folded into
    `accept(i, delta)`: whether iteration `i` accepts a move that raises the
    energy by `delta >= 0`. */
module Annealing {

  /** The loop's bookkeeping: current and best state with their energies. */
  datatype Search<P> = Search(current: P, currentEnergy: nat, best: P, bestEnergy: nat)

  /** The state before the first iteration (lines 16-19 of the source). */
  function Start<P>(energy: P -> nat, initial: P): (st: Search<P>)
    ensures st.current == st.best == initial
    ensures Tracks(energy, st)
  {
    Search(initial, energy(initial), initial, energy(initial))
  }

  /** The energies recorded are those of the states recorded, and the best
      energy is at most the current one. */
  predicate Tracks<P>(energy: P -> nat, st: Search<P>) {
    st.currentEnergy == energy(st.current) &&
    st.bestEnergy == energy(st.best) &&
    st.bestEnergy <= st.currentEnergy
  }

  /** One iteration past the early-stop test: generate a neighbour, accept it
      on strict improvement or when the oracle says so, then update the best
      state on strict improvement. */
  function Step<P>(energy: P -> nat, neighbor: (P, nat) -> P, accept: (nat, int) -> bool,
                   st: Search<P>, i: nat): (next: Search<P>)
    requires Tracks(energy, st)
    ensures Tracks(energy, next)
    ensures next.bestEnergy <= st.bestEnergy
    // a strictly better neighbour is always accepted
    ensures energy(neighbor(st.current, i)) < st.currentEnergy ==>
      next.current == neighbor(st.current, i) && next.currentEnergy == energy(neighbor(st.current, i))
    // a rejected neighbour leaves the current state as it was
    ensures (energy(neighbor(st.current, i)) >= st.currentEnergy &&
             !accept(i, energy(neighbor(st.current, i)) - st.currentEnergy)) ==>
      next.current == st.current && next.currentEnergy == st.currentEnergy
    // a neighbour that is no better is taken when the oracle accepts it
    ensures (energy(neighbor(st.current, i)) >= st.currentEnergy &&
             accept(i, energy(neighbor(st.current, i)) - st.currentEnergy)) ==>
      next.current == neighbor(st.current, i) && next.currentEnergy == energy(neighbor(st.current, i))
    // the best state is replaced only on strict improvement, and then by the new current state
    ensures next.bestEnergy < st.bestEnergy ==> next.best == next.current
    ensures next.bestEnergy == st.bestEnergy ==> next.best == st.best
  {
    var candidate := neighbor(st.current, i);
    var candidateEnergy := energy(candidate);
    var delta := candidateEnergy - st.currentEnergy;
    var accepted := delta < 0 || accept(i, delta);
    var current := if accepted then candidate else st.current;
    var currentEnergy := if accepted then candidateEnergy else st.currentEnergy;
    if currentEnergy < st.bestEnergy then Search(current, currentEnergy, current, currentEnergy)
    else Search(current, currentEnergy, st.best, st.bestEnergy)
  }

  /** The loop from iteration `i` up to `maxIterations`, stopping early when
      the current energy is 0. */
  function Run<P>(energy: P -> nat, neighbor: (P, nat) -> P, accept: (nat, int) -> bool,
                  st: Search<P>, i: nat, maxIterations: nat): Search<P>
    requires Tracks(energy, st)
    decreases maxIterations - i
  {
    if i >= maxIterations || st.currentEnergy == 0 then st
    else Run(energy, neighbor, accept, Step(energy, neighbor, accept, st, i), i + 1, maxIterations)
  }

  /** The number of times the loop body runs from iteration `i` on. */
  function Iterations<P>(energy: P -> nat, neighbor: (P, nat) -> P, accept: (nat, int) -> bool,
                         st: Search<P>, i: nat, maxIterations: nat): nat
    requires Tracks(energy, st)
    decreases maxIterations - i
  {
    if i >= maxIterations || st.currentEnergy == 0 then 0
    else 1 + Iterations(energy, neighbor, accept, Step(energy, neighbor, accept, st, i), i + 1, maxIterations)
  }

  /** The run keeps its bookkeeping consistent, its best energy never rises,
      the body runs at most `maxIterations - i` times, a current energy of 0
      at the top of an iteration ends the run there, and a run that stops
      before the bound stops at energy 0 with a best state of energy 0. */
  lemma {:induction false} RunFacts<P>(energy: P -> nat, neighbor: (P, nat) -> P, accept: (nat, int) -> bool,
                                       st: Search<P>, i: nat, maxIterations: nat)
    requires Tracks(energy, st)
    ensures var fin, n := Run(energy, neighbor, accept, st, i, maxIterations),
                          Iterations(energy, neighbor, accept, st, i, maxIterations);
      && Tracks(energy, fin)
      && fin.bestEnergy <= st.bestEnergy
      && (i <= maxIterations ==> n <= maxIterations - i)
      && (i < maxIterations && st.currentEnergy == 0 ==> n == 0 && fin == st)
      && (i + n < maxIterations ==> fin.currentEnergy == 0 && fin.bestEnergy == 0)
    decreases maxIterations - i
  {
    if i < maxIterations && st.currentEnergy != 0 {
      RunFacts(energy, neighbor, accept, Step(energy, neighbor, accept, st, i), i + 1, maxIterations);
    }
  }

  /** Whatever `neighbor` preserves holds of the current and the best state
      throughout the run. */
  lemma {:induction false} RunPreserves<P>(energy: P -> nat, neighbor: (P, nat) -> P, accept: (nat, int) -> bool,
                                           inv: P -> bool, st: Search<P>, i: nat, maxIterations: nat)
    requires Tracks(energy, st)
    requires forall p: P, j: nat :: inv(p) ==> inv(neighbor(p, j))
    requires inv(st.current) && inv(st.best)
    ensures inv(Run(energy, neighbor, accept, st, i, maxIterations).current)
    ensures inv(Run(energy, neighbor, accept, st, i, maxIterations).best)
    decreases maxIterations - i
  {
    if i < maxIterations && st.currentEnergy != 0 {
      RunPreserves(energy, neighbor, accept, inv, Step(energy, neighbor, accept, st, i), i + 1, maxIterations);
    }
  }

  /** `solve_simulated_annealing`. The out-parameter `iterations` (ghost)
      counts the loop bodies run. */
  method Solve<P>(initial: P, energy: P -> nat, neighbor: (P, nat) -> P, accept: (nat, int) -> bool,
                  maxIterations: nat)
    returns (best: P, ghost iterations: nat)
    ensures best == Run(energy, neighbor, accept, Start(energy, initial), 0, maxIterations).best
    ensures iterations == Iterations(energy, neighbor, accept, Start(energy, initial), 0, maxIterations)
    ensures iterations <= maxIterations
    ensures energy(best) <= energy(initial)
    ensures maxIterations == 0 ==> best == initial
    ensures energy(initial) == 0 ==> iterations == 0 && best == initial
    ensures iterations < maxIterations ==> energy(best) == 0
  {
    var current := initial;
    var currentEnergy := energy(current);
    var bestEnergy := currentEnergy;
    best := current;
    iterations := 0;
    ghost var start := Start(energy, initial);

    for i := 0 to maxIterations
      invariant currentEnergy == energy(current) && bestEnergy == energy(best)
      invariant bestEnergy <= currentEnergy && bestEnergy <= energy(initial)
      invariant iterations == i
      invariant Run(energy, neighbor, accept, start, 0, maxIterations)
        == Run(energy, neighbor, accept, Search(current, currentEnergy, best, bestEnergy), i, maxIterations)
      invariant Iterations(energy, neighbor, accept, start, 0, maxIterations)
        == i + Iterations(energy, neighbor, accept, Search(current, currentEnergy, best, bestEnergy), i, maxIterations)
    {
      if currentEnergy == 0 {
        break;
      }
      var neighborProblem := neighbor(current, i);
      var neighborEnergy := energy(neighborProblem);
      var delta := neighborEnergy - currentEnergy;
      if delta < 0 || accept(i, delta) {
        current := neighborProblem;
        currentEnergy := neighborEnergy;
      }
      if currentEnergy < bestEnergy {
        best := current;
        bestEnergy := currentEnergy;
      }
      iterations := iterations + 1;
    }
    RunFacts(energy, neighbor, accept, start, 0, maxIterations);
  }
}

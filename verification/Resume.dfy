/** Work done step by step from a stored state, possibly over many runs. */
module Resume {

  /** What the steps put out, and the state they leave stored. */
  datatype Progress<S, O> = Progress(outputs: seq<O>, state: S)

  /** One step for each input, each from the state the one before stored, until the state says the work is done. */
  function Steps<S, I, O>(state: S, inputs: seq<I>, done: S -> bool, step: (S, I) -> (O, S)): Progress<S, O>
    decreases |inputs|
  {
    if inputs == [] || done(state) then Progress([], state)
    else
      var (output, next) := step(state, inputs[0]);
      var rest := Steps(next, inputs[1..], done, step);
      Progress([output] + rest.outputs, rest.state)
  }

  /** Stopping after `first` and resuming from the stored state puts out what one uninterrupted run would. */
  lemma {:induction false} StepsSplit<S, I, O>(state: S, first: seq<I>, second: seq<I>, done: S -> bool,
                                               step: (S, I) -> (O, S))
    ensures var one := Steps(state, first, done, step);
      var two := Steps(one.state, second, done, step);
      Steps(state, first + second, done, step) == Progress(one.outputs + two.outputs, two.state)
    decreases |first|
  {
    if first == [] {
      assert first + second == second;
    } else if !done(state) {
      assert (first + second)[1..] == first[1..] + second;
      StepsSplit(step(state, first[0]).1, first[1..], second, done, step);
    }
  }

  /** A run never takes more steps than it has inputs. */
  lemma {:induction false} StepsBound<S, I, O>(state: S, inputs: seq<I>, done: S -> bool, step: (S, I) -> (O, S))
    ensures |Steps(state, inputs, done, step).outputs| <= |inputs|
    decreases |inputs|
  {
    if inputs != [] && !done(state) {
      StepsBound(step(state, inputs[0]).1, inputs[1..], done, step);
    }
  }

  /** One run for each part of the inputs. */
  function Runs<S, I, O>(state: S, parts: seq<seq<I>>, done: S -> bool, step: (S, I) -> (O, S)): Progress<S, O>
    decreases |parts|
  {
    if parts == [] then Progress([], state)
    else
      var today := Steps(state, parts[0], done, step);
      var later := Runs(today.state, parts[1..], done, step);
      Progress(today.outputs + later.outputs, later.state)
  }

  function Concat<T>(parts: seq<seq<T>>): seq<T> {
    if parts == [] then [] else parts[0] + Concat(parts[1..])
  }

  /** Any number of runs of any lengths put out what one run over all the inputs would. */
  lemma {:induction false} RunsAreOneRun<S, I, O>(state: S, parts: seq<seq<I>>, done: S -> bool, step: (S, I) -> (O, S))
    ensures Runs(state, parts, done, step) == Steps(state, Concat(parts), done, step)
    decreases |parts|
  {
    if parts != [] {
      RunsAreOneRun(Steps(state, parts[0], done, step).state, parts[1..], done, step);
      StepsSplit(state, parts[0], Concat(parts[1..]), done, step);
    }
  }

  /** One step after the other, from left to right. */
  function Fold<S, I>(state: S, inputs: seq<I>, step: (S, I) -> S): S {
    if inputs == [] then state else step(Fold(state, inputs[..|inputs| - 1], step), inputs[|inputs| - 1])
  }

  lemma {:induction false} FoldAppend<S, I>(state: S, first: seq<I>, second: seq<I>, step: (S, I) -> S)
    ensures Fold(state, first + second, step) == Fold(Fold(state, first, step), second, step)
    decreases |second|
  {
    if second == [] {
      assert first + second == first;
    } else {
      var n := |second| - 1;
      assert (first + second)[..|first| + n] == first + second[..n];
      FoldAppend(state, first, second[..n], step);
    }
  }

  lemma FoldOne<S, I>(state: S, inputs: seq<I>, i: nat, step: (S, I) -> S)
    requires i < |inputs|
    ensures Fold(state, inputs[..i + 1], step) == step(Fold(state, inputs[..i], step), inputs[i])
  {
    assert inputs[..i + 1][..i] == inputs[..i];
  }
}

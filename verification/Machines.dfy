/** Deterministic machines that answer every input with some outputs, and their runs over input sequences. */
module Machines {

  /** One step: from a state and an input to the next state and what the step puts out. */
  type Step<!S, !A, +B> = (S, A) -> (S, seq<B>)

  function StateAfter<S, A, B>(step: Step<S, A, B>, s: S, inputs: seq<A>): S {
    if inputs == [] then s
    else step(StateAfter(step, s, inputs[..|inputs| - 1]), inputs[|inputs| - 1]).0
  }

  function OutputOf<S, A, B>(step: Step<S, A, B>, s: S, inputs: seq<A>): seq<B> {
    if inputs == [] then []
    else
      var front := inputs[..|inputs| - 1];
      OutputOf(step, s, front) + step(StateAfter(step, s, front), inputs[|inputs| - 1]).1
  }

  lemma RunSnoc<S, A, B>(step: Step<S, A, B>, s: S, inputs: seq<A>, last: A)
    ensures var mid := StateAfter(step, s, inputs);
            && StateAfter(step, s, inputs + [last]) == step(mid, last).0
            && OutputOf(step, s, inputs + [last]) == OutputOf(step, s, inputs) + step(mid, last).1
  {
    assert (inputs + [last])[..|inputs|] == inputs;
  }

  lemma {:induction false} RunCons<S, A, B>(step: Step<S, A, B>, s: S, first: A, inputs: seq<A>)
    ensures StateAfter(step, s, [first] + inputs) == StateAfter(step, step(s, first).0, inputs)
  {
    if inputs == [] {
      assert [first] + inputs == [first] && [first][..0] == [];
    } else {
      var front, last := inputs[..|inputs| - 1], inputs[|inputs| - 1];
      RunCons(step, s, first, front);
      assert ([first] + inputs)[..|inputs|] == [first] + front;
    }
  }

  lemma {:induction false} RunAppend<S, A, B>(step: Step<S, A, B>, s: S, a: seq<A>, b: seq<A>)
    ensures StateAfter(step, s, a + b) == StateAfter(step, StateAfter(step, s, a), b)
  {
    if b == [] {
      assert a + b == a;
    } else {
      RunAppend(step, s, a, b[..|b| - 1]);
      assert (a + b)[..|a + b| - 1] == a + b[..|b| - 1];
    }
  }

  lemma TwoInputs<S, A, B>(step: Step<S, A, B>, s: S, a: A, b: A)
    ensures StateAfter(step, s, [a]) == step(s, a).0 && OutputOf(step, s, [a]) == step(s, a).1
    ensures var (t, out) := step(s, a);
            StateAfter(step, s, [a, b]) == step(t, b).0 && OutputOf(step, s, [a, b]) == out + step(t, b).1
  {
    RunSnoc(step, s, [], a);
    RunSnoc(step, s, [a], b);
    assert [] + [a] == [a] && [a] + [b] == [a, b] && [] + step(s, a).1 == step(s, a).1;
  }

  lemma FourInputs<S, A, B>(step: Step<S, A, B>, s: S, a: A, b: A, c: A, d: A)
    ensures var t, u := step(s, a), step(step(s, a).0, b);
            var v := step(u.0, c);
            var w := step(v.0, d);
            StateAfter(step, s, [a, b, c, d]) == w.0 && OutputOf(step, s, [a, b, c, d]) == t.1 + u.1 + v.1 + w.1
  {
    TwoInputs(step, s, a, b);
    RunSnoc(step, s, [a, b], c);
    RunSnoc(step, s, [a, b, c], d);
    assert [a, b] + [c] == [a, b, c] && [a, b, c] + [d] == [a, b, c, d];
  }

  /** Some input sequence leads from `s` to `t`. */
  ghost predicate Reaches<S, A(!new), B>(step: Step<S, A, B>, s: S, t: S) {
    exists inputs: seq<A> :: StateAfter(step, s, inputs) == t
  }

  lemma ReachesItself<S, A(!new), B>(step: Step<S, A, B>, s: S)
    ensures Reaches(step, s, s)
  {
    assert StateAfter(step, s, []) == s;
  }

  lemma ReachesNext<S, A(!new), B>(step: Step<S, A, B>, s: S, t: S, input: A)
    requires Reaches(step, s, t)
    ensures Reaches(step, s, step(t, input).0)
  {
    var inputs: seq<A> :| StateAfter(step, s, inputs) == t;
    RunSnoc(step, s, inputs, input);
  }
}

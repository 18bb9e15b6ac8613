/** `adjust_learning_rate`: the step-decay schedule, written into every
    parameter group of an optimizer. */
module LearningRate {
  import opened Arith

  /** Default decay factor `lrdec_1`. */
  const DefaultDecay: real := 0.5
  /** Default decay period `lrdec_2`, in epochs. */
  const DefaultPeriod: nat := 10

  /** A value of a parameter group's dict: a number, or any other object. */
  datatype Setting = Number(x: real) | Other(tag: string)

  /** One dict of `optimizer.param_groups`, updated in place. */
  class ParamGroup {
    var settings: map<string, Setting>

    constructor (settings: map<string, Setting>)
      ensures this.settings == settings
    {
      this.settings := settings;
    }
  }

  class Optimizer {
    var paramGroups: seq<ParamGroup>

    constructor (paramGroups: seq<ParamGroup>)
      ensures this.paramGroups == paramGroups
    {
      this.paramGroups := paramGroups;
    }
  }

  function Pow(x: real, n: nat): real
  {
    if n == 0 then 1.0 else x * Pow(x, n - 1)
  }

  /** `learning_rate * lrdec_1 ** (epoch // lrdec_2)`: the base rate during
      the first period, and never above it (nor negative) when the base is
      non-negative and the factor lies in [0, 1]. */
  function StepDecayRate(learningRate: real, lrdec1: real, lrdec2: nat, epoch: nat): (r: real)
    requires lrdec2 > 0
    ensures epoch < lrdec2 ==> r == learningRate
    ensures 0.0 <= learningRate && 0.0 <= lrdec1 <= 1.0 ==> 0.0 <= r <= learningRate
  {
    var factor := Pow(lrdec1, epoch / lrdec2);
    assert 0.0 <= learningRate && 0.0 <= lrdec1 <= 1.0 ==> 0.0 <= learningRate * factor <= learningRate by {
      if 0.0 <= learningRate && 0.0 <= lrdec1 <= 1.0 {
        PowAntitone(lrdec1, 0, epoch / lrdec2);
        ScaleBelow(learningRate, factor);
      }
    }
    learningRate * factor
  }

  /** `adjust_learning_rate(optimizer, epoch, learning_rate, lrdec_1, lrdec_2)`:
      every group's "lr" becomes the scheduled rate; nothing else in any dict
      changes, and the list of groups stays as it was. A dict listed twice
      is simply written twice with the same value. */
  method AdjustLearningRate(optimizer: Optimizer, epoch: nat, learningRate: real, lrdec1: real, lrdec2: nat)
    requires lrdec2 > 0
    modifies set g | g in optimizer.paramGroups
    ensures optimizer.paramGroups == old(optimizer.paramGroups)
    ensures forall g | g in optimizer.paramGroups ::
      g.settings == old(g.settings)["lr" := Number(StepDecayRate(learningRate, lrdec1, lrdec2, epoch))]
  {
    var lr := StepDecayRate(learningRate, lrdec1, lrdec2, epoch);
    var groups := optimizer.paramGroups;
    var i := 0;
    while i < |groups|
      invariant 0 <= i <= |groups|
      invariant forall g | g in groups ::
        g.settings == if g in groups[..i] then old(g.settings)["lr" := Number(lr)] else old(g.settings)
    {
      var g := groups[i];
      g.settings := g.settings["lr" := Number(lr)];
      assert groups[..i + 1] == groups[..i] + [g];
      i := i + 1;
    }
    assert groups[..i] == groups;
  }

  // ---------------------------------------------------------------------
  // The schedule
  // ---------------------------------------------------------------------

  /** The rate is constant within a period and drops by the factor `lrdec1`
      at the start of each: at epoch m * lrdec2 + r (r < lrdec2) it is
      learningRate * lrdec1^m. */
  lemma {:induction false} StepDecayClosedForm(learningRate: real, lrdec1: real, lrdec2: nat, m: nat, r: nat)
    requires 0 <= r < lrdec2
    ensures StepDecayRate(learningRate, lrdec1, lrdec2, m * lrdec2 + r) == learningRate * Pow(lrdec1, m)
  {
    DivModOf(m, r, lrdec2);
  }

  /** One period later the rate is `lrdec1` times what it was. */
  lemma StepDecayNextPeriod(learningRate: real, lrdec1: real, lrdec2: nat, epoch: nat)
    requires lrdec2 > 0
    ensures StepDecayRate(learningRate, lrdec1, lrdec2, epoch + lrdec2) ==
      lrdec1 * StepDecayRate(learningRate, lrdec1, lrdec2, epoch)
  {
    DivShift(epoch, lrdec2);
    var p := Pow(lrdec1, epoch / lrdec2);
    assert Pow(lrdec1, epoch / lrdec2 + 1) == lrdec1 * p;
    assert learningRate * (lrdec1 * p) == lrdec1 * (learningRate * p);
  }

  lemma ScaleBelow(a: real, f: real)
    requires 0.0 <= a && 0.0 <= f <= 1.0
    ensures 0.0 <= a * f <= a
  {
    ScaleMono(a, 0.0, f);
    ScaleMono(a, f, 1.0);
    assert a * 0.0 == 0.0 && a * 1.0 == a;
  }

  lemma ScaleMono(a: real, x: real, y: real)
    requires 0.0 <= a && x <= y
    ensures a * x <= a * y
  {
    assert a * y - a * x == a * (y - x);
  }

  lemma {:induction false} PowAntitone(x: real, a: nat, b: nat)
    requires 0.0 <= x <= 1.0 && a <= b
    ensures 0.0 <= Pow(x, b) <= Pow(x, a)
  {
    if a < b {
      PowAntitone(x, a, b - 1);
      assert Pow(x, b) == x * Pow(x, b - 1);
    } else {
      PowNonNegative(x, a);
    }
  }

  lemma {:induction false} PowNonNegative(x: real, n: nat)
    requires 0.0 <= x
    ensures 0.0 <= Pow(x, n)
  {
    if n > 0 {
      PowNonNegative(x, n - 1);
    }
  }

  /** With a decay factor in [0, 1] and a non-negative base the rate never
      grows from one epoch to a later one. */
  lemma StepDecayNonIncreasing(learningRate: real, lrdec1: real, lrdec2: nat, e1: nat, e2: nat)
    requires lrdec2 > 0 && 0.0 <= lrdec1 <= 1.0 && 0.0 <= learningRate && e1 <= e2
    ensures 0.0 <= StepDecayRate(learningRate, lrdec1, lrdec2, e2) <= StepDecayRate(learningRate, lrdec1, lrdec2, e1)
  {
    var m1, m2 := e1 / lrdec2, e2 / lrdec2;
    DivMono(e1, e2, lrdec2);
    PowAntitone(lrdec1, m1, m2);
    ScaleMono(learningRate, 0.0, Pow(lrdec1, m2));
    ScaleMono(learningRate, Pow(lrdec1, m2), Pow(lrdec1, m1));
  }

  /** With the defaults, epoch 0 keeps 0.1 and epoch 10 halves it. */
  lemma DefaultSchedule()
    ensures StepDecayRate(0.1, DefaultDecay, DefaultPeriod, 0) == 0.1
    ensures StepDecayRate(0.1, DefaultDecay, DefaultPeriod, 10) == 0.05
  {
    StepDecayClosedForm(0.1, DefaultDecay, DefaultPeriod, 1, 0);
  }
}

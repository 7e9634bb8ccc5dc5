/** The Cox-Ross-Rubinstein binomial lattice pricer.

    The source evaluates u = exp(vol*sqrt(dt)) and exp(rate*dt) with the
    floating-point library; here those two numbers are parameters and the
    rest of the algorithm is exact over `real`.  The specification of the
    lattice is given by functions (Layer, LatticeValue); the methods fill and
    overwrite a single buffer of steps+1 entries in place, as the source does,
    and are proved to compute those functions. */
module BinomialPricer {
  import opened Options

  /** One step of the tree: up factor u, down factor d, risk-neutral
      up-probability p and the one-step discount factor exp(-rate*dt). */
  datatype Lattice = Lattice(u: real, d: real, p: real, disc: real)

  /** The CRR parameters from the two exponentials the pricer evaluates:
      u = exp(vol*sqrt(dt)) and growth = exp(rate*dt).  Then d = 1/u,
      p = (growth - d) / (u - d) and the discount exp(-rate*dt) = 1/growth.
      The result is risk neutral: one step's expected growth under p is growth. */
  function CrrLattice(u: real, growth: real): (lat: Lattice)
    requires u > 0.0 && u != 1.0 && growth > 0.0
    ensures lat.u == u && lat.d * lat.u == 1.0
    ensures lat.disc * growth == 1.0
    ensures lat.p * lat.u + (1.0 - lat.p) * lat.d == growth
  {
    var d := 1.0 / u;
    assert u * d == 1.0;
    var p := (growth - d) / (u - d);
    assert p * (u - d) == growth - d;
    assert p * u + (1.0 - p) * d == d + p * (u - d);
    Lattice(u, d, p, 1.0 / growth)
  }

  /** x to the natural power n, as std::pow with an integer exponent. */
  function Pow(x: real, n: nat): (r: real)
    ensures x > 0.0 ==> r > 0.0
  {
    if n == 0 then 1.0 else x * Pow(x, n - 1)
  }

  /** The spot at node i of layer `step`, where i counts down-moves:
      S * u^(step - i) * d^i. */
  function NodeSpot(spot: real, lat: Lattice, step: nat, i: nat): (s: real)
    requires i <= step
    ensures spot > 0.0 && lat.u > 0.0 && lat.d > 0.0 ==> s > 0.0
  {
    spot * Pow(lat.u, step - i) * Pow(lat.d, i)
  }

  /** The discounted risk-neutral mix of a node's up child and down child.
      When both children are worth the same, holding is worth that value discounted. */
  function HoldValue(lat: Lattice, up: real, down: real): (h: real)
    ensures up == down ==> h == up * lat.disc
  {
    (lat.p * up + (1.0 - lat.p) * down) * lat.disc
  }

  /** The value of node i of layer `step` from its two children: the hold value,
      or for an American option the larger of it and the immediate-exercise payoff. */
  function NodeValue(o: Option, spot: real, lat: Lattice, step: nat, i: nat, up: real, down: real): (v: real)
    requires i <= step
    ensures v >= HoldValue(lat, up, down)
    ensures o.style == American ==> v >= Payoff(o, NodeSpot(spot, lat, step, i))
    ensures o.style == European ==> v == HoldValue(lat, up, down)
  {
    var hold := HoldValue(lat, up, down);
    if o.style == American then Max(hold, Payoff(o, NodeSpot(spot, lat, step, i))) else hold
  }

  /** The terminal layer of an n-step tree: n + 1 payoffs. */
  function TerminalLayer(o: Option, spot: real, lat: Lattice, n: nat): (vs: seq<real>)
    ensures |vs| == n + 1
  {
    seq(n + 1, i requires 0 <= i <= n => Payoff(o, NodeSpot(spot, lat, n, i)))
  }

  /** Layer `step` computed from layer step + 1 (which has step + 2 entries). */
  function Rollback(o: Option, spot: real, lat: Lattice, step: nat, next: seq<real>): (vs: seq<real>)
    requires |next| == step + 2
    ensures |vs| == step + 1
  {
    seq(step + 1, i requires 0 <= i <= step => NodeValue(o, spot, lat, step, i, next[i], next[i + 1]))
  }

  /** Layer `step` of an n-step tree: the terminal layer at step n, and each
      earlier layer rolled back from the one after it. */
  function Layer(o: Option, spot: real, lat: Lattice, n: nat, step: nat): (vs: seq<real>)
    requires step <= n
    ensures |vs| == step + 1
    decreases n - step
  {
    if step == n then TerminalLayer(o, spot, lat, n)
    else Rollback(o, spot, lat, step, Layer(o, spot, lat, n, step + 1))
  }

  /** The price: the root of layer 0.  A tree of no steps prices the
      payoff at today's spot. */
  function LatticeValue(o: Option, spot: real, lat: Lattice, n: nat): (v: real)
    ensures n == 0 ==> v == Payoff(o, spot)
  {
    Layer(o, spot, lat, n, 0)[0]
  }

  /** Fills the whole buffer with the terminal payoffs of a tree of
      values.Length - 1 steps. */
  method FillTerminal(values: array<real>, o: Option, spot: real, lat: Lattice)
    requires values.Length >= 1
    modifies values
    ensures forall i :: 0 <= i < values.Length ==>
              values[i] == Payoff(o, NodeSpot(spot, lat, values.Length - 1, i))
    ensures values[..] == TerminalLayer(o, spot, lat, values.Length - 1)
  {
    var n := values.Length - 1;
    var i := 0;
    while i <= n
      invariant 0 <= i <= n + 1
      invariant forall k :: 0 <= k < i ==> values[k] == Payoff(o, NodeSpot(spot, lat, n, k))
    {
      var spotAtMaturity := spot * Pow(lat.u, n - i) * Pow(lat.d, i);
      values[i] := Payoff(o, spotAtMaturity);
      i := i + 1;
    }
  }

  /** Overwrites entries 0..step with layer `step`, computed from the layer
      step + 1 held in entries 0..step+1, and leaves every entry above step alone.
      The index runs upward, so when node i is written, entries i and i + 1
      still hold the later layer. */
  method StepBack(values: array<real>, o: Option, spot: real, lat: Lattice, step: nat)
    requires step + 2 <= values.Length
    modifies values
    ensures values[..step + 1] == Rollback(o, spot, lat, step, old(values[..step + 2]))
    ensures values[step + 1..] == old(values[step + 1..])
  {
    ghost var prev := values[..];
    var i := 0;
    while i <= step
      invariant 0 <= i <= step + 1
      invariant forall k :: 0 <= k < i ==> values[k] == NodeValue(o, spot, lat, step, k, prev[k], prev[k + 1])
      invariant forall k :: i <= k < values.Length ==> values[k] == prev[k]
    {
      var holdValue := (lat.p * values[i] + (1.0 - lat.p) * values[i + 1]) * lat.disc;
      assert holdValue == HoldValue(lat, prev[i], prev[i + 1]);
      if o.style == American {
        var spotAtNode := spot * Pow(lat.u, step - i) * Pow(lat.d, i);
        assert spotAtNode == NodeSpot(spot, lat, step, i);
        var exerciseValue := Payoff(o, spotAtNode);
        values[i] := Max(holdValue, exerciseValue);
      } else {
        values[i] := holdValue;
      }
      assert values[i] == NodeValue(o, spot, lat, step, i, prev[i], prev[i + 1]);
      i := i + 1;
    }
    assert prev[..step + 2] == old(values[..step + 2]);
    ghost var rolled := Rollback(o, spot, lat, step, prev[..step + 2]);
    assert forall k :: 0 <= k <= step ==> values[k] == rolled[k];
  }

  /** The binomial price of option o at spot S over `steps` steps, given
      u = exp(vol*sqrt(dt)) and growth = exp(rate*dt).  One buffer of
      steps + 1 entries is filled with the terminal payoffs and then
      overwritten layer by layer from steps - 1 down to 0; the root entry is
      the price. */
  method Price(o: Option, spot: real, u: real, growth: real, steps: nat) returns (value: real)
    requires steps >= 1
    requires u > 0.0 && u != 1.0 && growth > 0.0
    ensures value == LatticeValue(o, spot, CrrLattice(u, growth), steps)
  {
    var lat := CrrLattice(u, growth);
    var values := new real[steps + 1];
    FillTerminal(values, o, spot, lat);
    var step: int := steps - 1;
    while step >= 0
      invariant -1 <= step < steps
      invariant values[..step + 2] == Layer(o, spot, lat, steps, step + 1)
      invariant forall k :: step + 1 < k <= steps ==> values[k] == Layer(o, spot, lat, steps, k)[k]
    {
      ghost var before := values[..];
      StepBack(values, o, spot, lat, step);
      assert before[..step + 2] == Layer(o, spot, lat, steps, step + 1);
      assert values[..step + 1] == Layer(o, spot, lat, steps, step);
      forall k | step < k <= steps
        ensures values[k] == Layer(o, spot, lat, steps, k)[k]
      {
        assert values[k] == values[step + 1..][k - step - 1] == before[step + 1..][k - step - 1];
        if k == step + 1 {
          assert before[k] == before[..step + 2][k];
        }
      }
      step := step - 1;
    }
    assert values[0] == values[..1][0];
    value := values[0];
  }
}

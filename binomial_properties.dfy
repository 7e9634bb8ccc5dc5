/** What the binomial lattice guarantees: the shape of the tree, the
    risk-neutral parameters, the node rule for each style, non-negativity,
    American value at least European value, and monotonicity in spot. */
module BinomialProperties {
  import opened Options
  import opened BinomialPricer

  /** The tree recombines: node i of layer `step` moves up to node i and down to
      node i + 1 of layer step + 1.  This is the indexing the rollback relies on
      when it reads the children of node i from entries i and i + 1. */
  lemma NodeChildren(spot: real, lat: Lattice, step: nat, i: nat)
    requires i <= step
    ensures NodeSpot(spot, lat, step + 1, i) == NodeSpot(spot, lat, step, i) * lat.u
    ensures NodeSpot(spot, lat, step + 1, i + 1) == NodeSpot(spot, lat, step, i) * lat.d
  {
  }

  /** Arithmetic helper for CrrProbabilityInUnitInterval: a quotient by a positive
      number is in [0, 1] exactly when the numerator is in [0, denominator]. */
  lemma QuotientInUnitInterval(a: real, b: real)
    requires b > 0.0
    ensures 0.0 <= a / b <==> 0.0 <= a
    ensures a / b <= 1.0 <==> a <= b
  {
  }

  /** With u > 1 (positive volatility and time step), the CRR up-probability
      lies in [0, 1] exactly when d <= exp(rate*dt) <= u. */
  lemma CrrProbabilityInUnitInterval(u: real, growth: real)
    requires u > 1.0 && growth > 0.0
    ensures var lat := CrrLattice(u, growth);
            0.0 <= lat.p <= 1.0 <==> lat.d <= growth <= u
  {
    var d := 1.0 / u;
    assert d < 1.0 by {
      QuotientInUnitInterval(1.0, u);
    }
    assert CrrLattice(u, growth).p == (growth - d) / (u - d);
    QuotientInUnitInterval(growth - d, u - d);
  }

  /** A European node is worth its hold value. */
  lemma EuropeanNodeIsHold(o: Option, spot: real, lat: Lattice, step: nat, i: nat, up: real, down: real)
    requires i <= step && o.style == European
    ensures NodeValue(o, spot, lat, step, i, up, down) == (lat.p * up + (1.0 - lat.p) * down) * lat.disc
  {
  }

  /** An American node is the larger of its hold value and its immediate-exercise payoff. */
  lemma AmericanNodeIsMax(o: Option, spot: real, lat: Lattice, step: nat, i: nat, up: real, down: real)
    requires i <= step && o.style == American
    ensures var v := NodeValue(o, spot, lat, step, i, up, down);
            var hold := (lat.p * up + (1.0 - lat.p) * down) * lat.disc;
            var exercise := Payoff(o, NodeSpot(spot, lat, step, i));
            v >= hold && v >= exercise && (v == hold || v == exercise)
  {
  }

  /** Valid risk-neutral parameters: a probability and a non-negative discount. */
  predicate Sound(lat: Lattice)
  {
    0.0 <= lat.p <= 1.0 && lat.disc >= 0.0
  }

  /** The hold value is monotone in both children when the parameters are sound. */
  lemma HoldMonotone(lat: Lattice, up1: real, down1: real, up2: real, down2: real)
    requires Sound(lat) && up1 <= up2 && down1 <= down2
    ensures HoldValue(lat, up1, down1) <= HoldValue(lat, up2, down2)
  {
    var m1 := lat.p * up1 + (1.0 - lat.p) * down1;
    var m2 := lat.p * up2 + (1.0 - lat.p) * down2;
    var q := 1.0 - lat.p;
    assert lat.p * (up2 - up1) >= 0.0 && q * (down2 - down1) >= 0.0;
    assert m2 - m1 == lat.p * (up2 - up1) + q * (down2 - down1);
    assert (m2 - m1) * lat.disc >= 0.0;
    assert m2 * lat.disc - m1 * lat.disc == (m2 - m1) * lat.disc;
  }

  /** Non-negative children give a non-negative hold value. */
  lemma HoldNonNegative(lat: Lattice, up: real, down: real)
    requires Sound(lat) && up >= 0.0 && down >= 0.0
    ensures HoldValue(lat, up, down) >= 0.0
  {
    HoldMonotone(lat, 0.0, 0.0, up, down);
  }

  /** With 0 <= p <= 1 and a non-negative discount every entry of every layer is
      non-negative, because payoffs are and the node rule keeps the sign. */
  lemma {:induction false} LayerNonNegative(o: Option, spot: real, lat: Lattice, n: nat, step: nat)
    requires Sound(lat) && step <= n
    ensures forall i :: 0 <= i <= step ==> Layer(o, spot, lat, n, step)[i] >= 0.0
    decreases n - step
  {
    if step < n {
      var next := Layer(o, spot, lat, n, step + 1);
      LayerNonNegative(o, spot, lat, n, step + 1);
      forall i | 0 <= i <= step
        ensures Layer(o, spot, lat, n, step)[i] >= 0.0
      {
        HoldNonNegative(lat, next[i], next[i + 1]);
      }
    }
  }

  /** The price is non-negative under sound parameters. */
  lemma LatticeValueNonNegative(o: Option, spot: real, lat: Lattice, n: nat)
    requires Sound(lat)
    ensures LatticeValue(o, spot, lat, n) >= 0.0
  {
    LayerNonNegative(o, spot, lat, n, 0);
  }

  /** Every American node is worth at least its immediate-exercise payoff. */
  lemma AmericanLayerAboveExercise(o: Option, spot: real, lat: Lattice, n: nat, step: nat, i: nat)
    requires o.style == American && i <= step <= n
    ensures Layer(o, spot, lat, n, step)[i] >= Payoff(o, NodeSpot(spot, lat, step, i))
  {
  }

  /** Layer by layer, the American value is at least the European value of
      the same contract on the same lattice. */
  lemma {:induction false} AmericanLayerDominates(o: Option, spot: real, lat: Lattice, n: nat, step: nat)
    requires Sound(lat) && step <= n
    ensures forall i :: 0 <= i <= step ==>
              Layer(o.(style := American), spot, lat, n, step)[i] >= Layer(o.(style := European), spot, lat, n, step)[i]
    decreases n - step
  {
    var am, eu := o.(style := American), o.(style := European);
    if step == n {
      forall i | 0 <= i <= step
        ensures Layer(am, spot, lat, n, step)[i] >= Layer(eu, spot, lat, n, step)[i]
      {
        PayoffIgnoresStyle(o, NodeSpot(spot, lat, n, i));
      }
    } else {
      AmericanLayerDominates(o, spot, lat, n, step + 1);
      var nextA, nextE := Layer(am, spot, lat, n, step + 1), Layer(eu, spot, lat, n, step + 1);
      forall i | 0 <= i <= step
        ensures Layer(am, spot, lat, n, step)[i] >= Layer(eu, spot, lat, n, step)[i]
      {
        assert Layer(am, spot, lat, n, step)[i] == NodeValue(am, spot, lat, step, i, nextA[i], nextA[i + 1]);
        assert Layer(eu, spot, lat, n, step)[i] == HoldValue(lat, nextE[i], nextE[i + 1]);
        HoldMonotone(lat, nextE[i], nextE[i + 1], nextA[i], nextA[i + 1]);
      }
    }
  }

  /** The American price is at least the European price for the same contract,
      spot and lattice, when 0 <= p <= 1. */
  lemma AmericanPriceDominates(o: Option, spot: real, lat: Lattice, n: nat)
    requires Sound(lat)
    ensures LatticeValue(o.(style := American), spot, lat, n) >= LatticeValue(o.(style := European), spot, lat, n)
  {
    AmericanLayerDominates(o, spot, lat, n, 0);
  }

  /** For u > 1 and d <= exp(rate*dt) <= u, the lattice the pricer builds is sound. */
  lemma CrrLatticeSound(u: real, growth: real)
    requires u > 1.0 && growth > 0.0 && 1.0 / u <= growth <= u
    ensures Sound(CrrLattice(u, growth))
  {
    CrrProbabilityInUnitInterval(u, growth);
    var lat := CrrLattice(u, growth);
    assert lat.disc * growth == 1.0;
  }

  /** On the CRR lattice with d <= exp(rate*dt) <= u, the price is non-negative and
      the American price is at least the European price. */
  lemma CrrPriceBounds(o: Option, spot: real, u: real, growth: real, n: nat)
    requires u > 1.0 && growth > 0.0 && 1.0 / u <= growth <= u
    ensures LatticeValue(o, spot, CrrLattice(u, growth), n) >= 0.0
    ensures LatticeValue(o.(style := American), spot, CrrLattice(u, growth), n)
         >= LatticeValue(o.(style := European), spot, CrrLattice(u, growth), n)
  {
    CrrLatticeSound(u, growth);
    LatticeValueNonNegative(o, spot, CrrLattice(u, growth), n);
    AmericanPriceDominates(o, spot, CrrLattice(u, growth), n);
  }

  /** Node spots grow with the initial spot when u and d are positive. */
  lemma NodeSpotMonotone(s1: real, s2: real, lat: Lattice, step: nat, i: nat)
    requires s1 <= s2 && lat.u > 0.0 && lat.d > 0.0 && i <= step
    ensures NodeSpot(s1, lat, step, i) <= NodeSpot(s2, lat, step, i)
  {
  }

  /** Under sound parameters with positive u and d, a call's lattice values never
      decrease and a put's never increase as the initial spot rises, in either style. */
  lemma {:induction false} LayerMonotoneInSpot(o: Option, s1: real, s2: real, lat: Lattice, n: nat, step: nat)
    requires Sound(lat) && lat.u > 0.0 && lat.d > 0.0 && s1 <= s2 && step <= n
    ensures o.kind == Call ==> forall i :: 0 <= i <= step ==>
              Layer(o, s1, lat, n, step)[i] <= Layer(o, s2, lat, n, step)[i]
    ensures o.kind == Put ==> forall i :: 0 <= i <= step ==>
              Layer(o, s1, lat, n, step)[i] >= Layer(o, s2, lat, n, step)[i]
    decreases n - step
  {
    var lo, hi := Layer(o, s1, lat, n, step), Layer(o, s2, lat, n, step);
    if step == n {
      forall i | 0 <= i <= step
        ensures o.kind == Call ==> lo[i] <= hi[i]
        ensures o.kind == Put ==> lo[i] >= hi[i]
      {
        NodeSpotMonotone(s1, s2, lat, n, i);
        PayoffMonotoneInSpot(o, NodeSpot(s1, lat, n, i), NodeSpot(s2, lat, n, i));
      }
    } else {
      LayerMonotoneInSpot(o, s1, s2, lat, n, step + 1);
      var nextLo, nextHi := Layer(o, s1, lat, n, step + 1), Layer(o, s2, lat, n, step + 1);
      forall i | 0 <= i <= step
        ensures o.kind == Call ==> lo[i] <= hi[i]
        ensures o.kind == Put ==> lo[i] >= hi[i]
      {
        NodeSpotMonotone(s1, s2, lat, step, i);
        PayoffMonotoneInSpot(o, NodeSpot(s1, lat, step, i), NodeSpot(s2, lat, step, i));
        if o.kind == Call {
          HoldMonotone(lat, nextLo[i], nextLo[i + 1], nextHi[i], nextHi[i + 1]);
        } else {
          HoldMonotone(lat, nextHi[i], nextHi[i + 1], nextLo[i], nextLo[i + 1]);
        }
      }
    }
  }
}

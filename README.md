# Option pricing: payoff and binomial lattice

This project models two parts of a small C++ option-pricing library in Dafny.

1. The option contract descriptor and its payoff at maturity.
2. The Cox-Ross-Rubinstein (CRR) binomial lattice pricer. It fills one buffer of `steps + 1` terminal payoffs. Then it overwrites that buffer in place, layer by layer, down to the root. For American options it checks early exercise at every node.

All arithmetic is over Dafny's exact `real`. The model therefore covers the algorithms, not floating-point rounding.

Modules:

- `Options` (`options.dfy`) covers `include/Option.hpp`, `src/european_option.cpp` and `src/american_option.cpp`.
  - An option is one immutable datatype: `Option(strike, maturity, kind, style)`.
  - The source picks the exercise style through the subclass (`EuropeanOption` or `AmericanOption`). Here the style is an explicit `ExerciseStyle` field.
  - Both subclasses implement the same payoff formula. The model has a single `Payoff` function that dispatches on `Call`/`Put`.
  - A Dafny function has no side effects and reads only its arguments. This matches the `const` payoff that takes only the spot.
  - Datatype values cannot be mutated, which matches the source's missing setters.
- `BinomialPricer` (`binomial_pricer.dfy`) covers `src/binomial_pricer.cpp`.
  - The specification functions are `NodeSpot`, `HoldValue`, `NodeValue`, `TerminalLayer`, `Rollback`, `Layer` and `LatticeValue`.
  - The imperative methods are `FillTerminal` (the terminal fill), `StepBack` (one in-place layer of backward induction) and `Price`.
  - `Price` allocates the buffer, runs both phases and returns entry 0. Each method is proved to compute the specification.
  - The source evaluates `u = exp(vol*sqrt(dt))` and `exp(rate*dt)` with the math library. Here both are parameters of `Price` (`u` and `growth`).
  - `CrrLattice` derives the rest exactly: `d = 1/u`, `p = (growth - d)/(u - d)`, and the discount `exp(-rate*dt) = 1/growth`.
  - Of the pricer's constructor fields, the option, the spot and the step count are parameters of `Price`.
  - The rate, the volatility and the option's maturity reach `Price` only through `u` and `growth`. `Price` reads neither the maturity nor any rate or volatility.
- `BinomialProperties` (`binomial_properties.dfy`) holds the lemmas about the lattice.
  - The tree recombines.
  - The CRR probability lies in [0, 1] exactly when `d <= growth <= u`.
  - The node rule for each exercise style.
  - Every layer is non-negative.
  - American value ≥ European value.
  - A call's value never decreases in the spot, and a put's never increases.

## Model

| member | source | states |
|---|---|---|
| `Options.GettersReturnConstructorArguments` | include/Option.hpp:15-24 | strike, maturity, type and style read back exactly as the option was built |
| `Options.OptionTypeIsCallOrPut` | include/Option.hpp:7-10 | an option type is Call or Put and never both |
| `Options.Payoff` | src/european_option.cpp:4-10 | the one payoff used by both styles is never negative |
| `Options.CallPayoffCases` | src/european_option.cpp:5-6 | a call pays `S-K` when `S >= K` and 0 when `S <= K` |
| `Options.PutPayoffCases` | src/european_option.cpp:7-8 | a put pays `K-S` when `S <= K` and 0 when `S >= K` |
| `Options.PayoffParity` | src/european_option.cpp:4-10 | call payoff minus put payoff at the same strike and spot is `S-K`, for either style |
| `Options.PayoffMonotoneInSpot` | src/european_option.cpp:6-8 | a call's payoff is non-decreasing and a put's non-increasing in the spot |
| `Options.PayoffIgnoresStyle` | src/american_option.cpp:5-15 | the American payoff equals the European payoff for the same strike, type and spot |
| `Options.PayoffIgnoresMaturity` | src/american_option.cpp:5-15 | changing only the maturity does not change the payoff |
| `Options.Max` | src/european_option.cpp:6 | `std::max` as used by both payoffs and by the early-exercise rule: the result is at least both arguments and equal to one of them |
| `BinomialPricer.CrrLattice` | src/binomial_pricer.cpp:13-15 | `d*u == 1`, `disc*growth == 1`, and the lattice is risk neutral: `p*u + (1-p)*d == growth` |
| `BinomialPricer.Pow` | src/binomial_pricer.cpp:21 | a positive base raised to a natural power stays positive |
| `BinomialPricer.NodeSpot` | src/binomial_pricer.cpp:37 | the spot `S*u^(step-i)*d^i` at node `i` of layer `step`, as at lines 21 and 37; it is positive when `S`, `u` and `d` are |
| `BinomialPricer.HoldValue` | src/binomial_pricer.cpp:31 | the discounted mix `(p*up + (1-p)*down)*disc`; with equal children it is that value discounted |
| `BinomialPricer.NodeValue` | src/binomial_pricer.cpp:31-45 | the per-node rule: hold value for European, `max(hold, payoff(node spot))` for American; always at least the hold value, equal to it for European, and for American at least the exercise payoff |
| `BinomialPricer.TerminalLayer` | src/binomial_pricer.cpp:18-23 | the terminal layer of an n-step tree has n+1 entries |
| `BinomialPricer.Rollback` | src/binomial_pricer.cpp:28-46 | rolling back a layer of step+2 entries gives step+1 entries |
| `BinomialPricer.Layer` | src/binomial_pricer.cpp:17-47 | layer `step` has step+1 entries: the terminal payoffs at step n, otherwise the rollback of layer step+1 |
| `BinomialPricer.LatticeValue` | src/binomial_pricer.cpp:50 | the price is the root entry of layer 0; a tree of no steps gives the payoff at today's spot |
| `BinomialPricer.FillTerminal` | src/binomial_pricer.cpp:18-23 | after the fill, every one of the steps+1 entries `i` equals `payoff(S*u^(steps-i)*d^i)`, i.e. the terminal layer |
| `BinomialPricer.StepBack` | src/binomial_pricer.cpp:28-46 | entries `0..step` become the rollback of the previous layer read from the old entries `0..step+1`; entries above `step` are unchanged; the ascending loop keeps entries `i..` equal to the previous layer, so node `i` reads the old `values[i]` and `values[i+1]` |
| `BinomialPricer.Price` | src/binomial_pricer.cpp:9-51 | with `steps >= 1`, the result is the root of layer 0 after layers `steps-1` down to 0 are rolled back in one buffer, i.e. `LatticeValue` of the CRR lattice |
| `BinomialProperties.NodeChildren` | src/binomial_pricer.cpp:37 | node `i` of layer `step` has spot `S*u^(step-i)*d^i`, whose up move is node `i` and down move node `i+1` of the next layer |
| `BinomialProperties.CrrProbabilityInUnitInterval` | src/binomial_pricer.cpp:15 | for `u > 1`, `0 <= p <= 1` holds if and only if `d <= exp(rate*dt) <= u` |
| `BinomialProperties.EuropeanNodeIsHold` | src/binomial_pricer.cpp:41-45 | a European node is `(p*v[i] + (1-p)*v[i+1]) * disc` over the previous layer |
| `BinomialProperties.AmericanNodeIsMax` | src/binomial_pricer.cpp:35-39 | an American node is the larger of hold and exercise: at least both, and equal to one |
| `BinomialProperties.HoldMonotone` | src/binomial_pricer.cpp:31 | with `0 <= p <= 1` and `disc >= 0` the hold value is monotone in both children |
| `BinomialProperties.HoldNonNegative` | src/binomial_pricer.cpp:31 | non-negative children give a non-negative hold value |
| `BinomialProperties.LayerNonNegative` | src/binomial_pricer.cpp:22-44 | with `0 <= p <= 1` and `disc >= 0`, every entry of every layer is `>= 0` |
| `BinomialProperties.LatticeValueNonNegative` | src/binomial_pricer.cpp:50 | the price is `>= 0` under the same conditions |
| `BinomialProperties.AmericanLayerAboveExercise` | src/binomial_pricer.cpp:35-39 | every American node is worth at least its immediate-exercise payoff |
| `BinomialProperties.AmericanLayerDominates` | src/binomial_pricer.cpp:35-44 | with `0 <= p <= 1` and `disc >= 0`, each American layer entry is `>=` the European one on the same lattice |
| `BinomialProperties.AmericanPriceDominates` | src/binomial_pricer.cpp:35-50 | the American root value is `>=` the European root value |
| `BinomialProperties.CrrLatticeSound` | src/binomial_pricer.cpp:13-15 | for `u > 1` and `d <= exp(rate*dt) <= u`, the CRR lattice has `0 <= p <= 1` and a non-negative discount |
| `BinomialProperties.CrrPriceBounds` | src/binomial_pricer.cpp:12-50 | on such a CRR lattice, `LatticeValue` (which `Price` is proved to return) is `>= 0` and the American price is `>=` the European price |
| `BinomialProperties.NodeSpotMonotone` | src/binomial_pricer.cpp:21 | with `u, d > 0`, node spots grow with the initial spot |
| `BinomialProperties.LayerMonotoneInSpot` | src/binomial_pricer.cpp:19-47 | in both styles, with sound parameters and `u, d > 0`, call lattice values are non-decreasing and put lattice values non-increasing in the initial spot |

Inside `Price` there is a loop invariant. Between layers, every entry `k` above the active range still holds the last node `Layer(k)[k]` of the layer that last wrote it.

## Left out

- The closed-form pricer and its Greeks (`src/black_scholes_pricer.cpp`) are not part of this model. They consist of `log`, `sqrt`, `exp` and `erf` over doubles.
- The Monte Carlo pricer (`src/monte_carlo_pricer.cpp`) is not part of this model. Its result is a random sample with no deterministic contract.
- The console shell (`main.cpp`) is not part of this model: input prompting and output formatting.
- Lines 12-15 of `src/binomial_pricer.cpp` compute `dt`, `exp(vol*sqrt(dt))` and `exp(rate*dt)` with floating-point functions. These values are inputs `u` and `growth` to `Price`. The discount `exp(-rate*dt)` is modelled by the exact identity `1/exp(rate*dt)`.
- `BinomialPricer.Price` requires `u != 1`. At zero volatility `u - d` is 0, and the source divides by zero, producing an infinite or NaN probability. It also requires `u > 0` and `growth > 0`, which hold for every result of `exp`. A zero maturity gives `dt = 0` and so `u = exp(0) = 1`. The source then divides `0/0` at line 15 as at zero volatility, and `u != 1` excludes this case too. A negative maturity takes `sqrt` of a negative number (NaN) in the source and is outside the model.
- `BinomialPricer.Price` requires `steps >= 1`, the pricer's documented precondition. A negative step count would size the vector negatively in the source.
- The `dynamic_cast` style test is replaced by the explicit `style` field. Run-time type identification is not modelled.
- The virtual destructor and the polymorphic class hierarchy are not modelled. The datatype value replaces them.
- Double rounding, and convergence of the lattice price to the closed-form price as the step count grows, are numerical-analysis claims that are not modelled.

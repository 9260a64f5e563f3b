# rust_pbc threshold helpers, modelled in Dafny

The crate wraps the PBC pairing library. Its own logic, outside the foreign
bindings, is two functions in the crate root `src/lib.rs`:

- `xor(a, b)` combines two equally long byte vectors byte by byte into a
  freshly allocated vector;
- `polynomial(in_x, pairing, coefficients)` evaluates
  Σ coefficients[i] · in_x^i over the scalar ring Zr of a pairing, keeping a
  running sum `y` (starting at 0) and a running power `x` (starting at 1),
  and for each coefficient in order adding `coefficient · x` to `y` and
  then multiplying `x` by `in_x`.

The model has two modules.

- `ZrRing` (`zr_ring.dfy`) is the part of the Element binding that
  `polynomial` uses. The pairing engine is opaque, so a pairing context is
  reduced to its group order `r > 1`. A Zr element is a class with a fixed
  `order` and a mutable `value`, a residue in `[0, r)`. Its methods
  `InitZr`, `Set0`, `Set1`, `Set`, `Add` and `Mul` update the receiver in
  place, as the binding's methods do. Addition and multiplication are
  taken modulo `r`. Besides these, the module holds small residue lemmas
  and the identities `a + 0 = a`, `a · 1 = a` and `a · 0 = 0`.
- `Lib` (`lib.dfy`) holds the two algorithms.
  - `Xor` takes the two vectors as byte sequences, because Rust moves the
    vectors in. It fills a zero-initialised array in a loop and returns the
    array's contents. A recursive reference definition `XorBytes` comes
    with lemmas: the per-index law, self-inverse and commutativity.
  - `Polynomial` takes `in_x` and the coefficients as `Element` objects. It
    allocates `y`, `x` and a fresh `tmp` for each term. Its `ensures` tie
    the result to `RingEval`, the ring-step specification of the loop.
    Lemmas prove that `RingEval` equals the integer power sum
    Σ c[t]·x^t reduced mod r, that this equals Horner's form, and that at
    `x = 0` the result is the constant term. `Polynomial` has no
    `modifies` clause, so the verifier checks that `in_x` and every
    coefficient are left unchanged. Its `ensures` also state this.

The system's design also calls for Lagrange coefficient reconstruction.
No code for it exists in the crate, so it is not modelled.

## Model

| member | source | states |
|---|---|---|
| `ZrRing.Element.InitZr` | src/element.rs:64-68 | a new element belongs to Zr of the given pairing (its order is the pairing's group order, fixed for its life) and holds a residue |
| `ZrRing.Element.Set0` | src/element.rs:76-80 | the receiver becomes the additive identity 0 |
| `ZrRing.Element.Set1` | src/element.rs:82-86 | the receiver becomes the multiplicative identity 1 |
| `ZrRing.Element.Set` | src/element.rs:70-74 | the receiver takes the value of another element of the same ring |
| `ZrRing.Element.Add` | src/element.rs:108-112 | the receiver becomes (old value + rhs) mod r, with rhs read before the update, so `rhs` may be the receiver itself |
| `ZrRing.Element.Mul` | src/element.rs:120-124 | the receiver becomes (old value · rhs) mod r, with rhs read before the update |
| `Lib.XorBytes` | src/lib.rs:18 | the combination of two equally long byte strings has their common length |
| `Lib.XorBytesAt` | src/lib.rs:19-21 | byte i of the combination is a[i] XOR b[i], for every i below the length |
| `Lib.XorBytesSelfInverse` | src/lib.rs:19-21 | combining the result with b again gives back a |
| `Lib.XorBytesCommutative` | src/lib.rs:19-21 | combining a with b equals combining b with a |
| `Lib.Xor` | src/lib.rs:15-23 | demands equal lengths; the result has that length, byte i is a[i] XOR b[i] for every i in 0..len, and the result equals the reference `XorBytes(a, b)` |
| `Lib.PowMod` | src/lib.rs:31-46 | the running power is always a residue of Zr |
| `Lib.RingEval` | src/lib.rs:35-47 | the accumulated sum after any prefix of the coefficients is a residue of Zr |
| `Lib.PowModIsIntPow` | src/lib.rs:46 | n multiplications of 1 by in_x in Zr give in_x^n mod r |
| `Lib.RingEvalIsPowerSum` | src/lib.rs:35-47 | accumulating coefficient·power terms in Zr gives Σ c[t]·x^t mod r, coefficient 0 the constant term |
| `Lib.PowerSumCons` | src/lib.rs:35-47 | prepending a constant term a to a power sum gives a + x · (the old sum) |
| `Lib.PowerSumIsHorner` | src/lib.rs:35-47 | the power-accumulating sum equals Horner's form c[0] + x·(c[1] + x·(…)) |
| `Lib.RingEvalSnoc` | src/lib.rs:36-46 | one loop step: the value after i+1 coefficients is the value after i plus c[i]·x^i, in Zr |
| `Lib.RingEvalAtZero` | src/lib.rs:35-46 | at x = 0 a non-empty coefficient list evaluates to its constant term |
| `Lib.PolynomialValue` | src/lib.rs:25-50 | the Zr evaluation equals the power sum mod r and Horner's form mod r; it is 0 with no coefficients; it is c[0] at x = 0 |
| `Lib.Polynomial` | src/lib.rs:25-51 | the result is a fresh Zr element equal to Σ coefficients[i]·in_x^i mod r (also given in Horner form); 0 for an empty list; coefficients[0] when in_x is 0; in_x and every coefficient are unchanged |

## Left out

- `Xor`: the source panics (`assert_eq!`) when the lengths differ. A panic returns no result, so the model states equal lengths as a precondition instead of an error value.
- `ZrRing.Element.InitZr`: the initial value that the engine gives a fresh Zr element is not stated beyond being a residue. `polynomial` always sets it with `set0`, `set1` or `set` before reading it.
- The pairing context is reduced to its group order. Parsing curve parameters (`Pairing::init`) and the primality of the order are not modelled, since nothing here depends on them.
- Elements of G1, G2 and GT are left out. So are `sub`, `set_si`, `cmp`, `pair`, `random`, `set_from_hash`, `hash_g`, `hash_h`, `to_bytes`, `from_bytes`, `print` and the other group initialisers in `src/element.rs`. Each forwards to a foreign call whose behaviour lives in the PBC library, or uses SHA-256, entropy or I/O.
- `src/element_pp.rs`, `src/integer.rs` and `src/pairing.rs` are not modelled. They only manage foreign handles. Precomputed exponentiation and big-integer conversion are foreign calls.
- Allocation and release of foreign handles (`new`, the `Drop` impls) are not modelled. Dafny's object allocation stands in for `Element::new()`, and memory is never freed.
- Lagrange coefficient reconstruction is not part of this model: no source of it exists in the crate.

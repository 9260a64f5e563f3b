/** The two algorithms of the crate root: byte-wise XOR of two vectors and
    evaluation of a polynomial over Zr at a point. */
module Lib {
  import opened ZrRing

  type Byte = bv8

  // ---------------------------------------------------------------------
  // xor
  // ---------------------------------------------------------------------

  /** Reference definition: the element-wise XOR of two equally long byte
      strings, built one byte at a time from the front. */
  function XorBytes(a: seq<Byte>, b: seq<Byte>): (c: seq<Byte>)
    requires |a| == |b|
    ensures |c| == |a|
    decreases |a|
  {
    if a == [] then [] else [a[0] ^ b[0]] + XorBytes(a[1..], b[1..])
  }

  /** Byte i of the combined string combines byte i of each input. */
  lemma {:induction false} XorBytesAt(a: seq<Byte>, b: seq<Byte>, i: nat)
    requires |a| == |b| && i < |a|
    ensures XorBytes(a, b)[i] == a[i] ^ b[i]
    decreases i
  {
    if i > 0 {
      XorBytesAt(a[1..], b[1..], i - 1);
    }
  }

  /** XOR-ing with the same key twice gives back the original bytes. */
  lemma {:induction false} XorBytesSelfInverse(a: seq<Byte>, b: seq<Byte>)
    requires |a| == |b|
    ensures XorBytes(XorBytes(a, b), b) == a
  {
    var c := XorBytes(a, b);
    forall i | 0 <= i < |a|
      ensures XorBytes(c, b)[i] == a[i]
    {
      XorBytesAt(c, b, i);
      XorBytesAt(a, b, i);
      ByteXorTwice(a[i], b[i]);
    }
  }

  lemma ByteXorTwice(x: Byte, k: Byte)
    ensures (x ^ k) ^ k == x
  {
  }

  /** The order of the two inputs does not matter. */
  lemma {:induction false} XorBytesCommutative(a: seq<Byte>, b: seq<Byte>)
    requires |a| == |b|
    ensures XorBytes(a, b) == XorBytes(b, a)
  {
    forall i | 0 <= i < |a|
      ensures XorBytes(a, b)[i] == XorBytes(b, a)[i]
    {
      XorBytesAt(a, b, i);
      XorBytesAt(b, a, i);
    }
  }

  /** `xor(a, b)`: the inputs must have equal length (the source panics
      otherwise); a zero-filled buffer of that length is written at every
      index 0 .. |a| - 1 with a[i] ^ b[i]. */
  method Xor(a: seq<Byte>, b: seq<Byte>) returns (c: seq<Byte>)
    requires |a| == |b|
    ensures |c| == |a|
    ensures forall i :: 0 <= i < |a| ==> c[i] == a[i] ^ b[i]
    ensures c == XorBytes(a, b)
  {
    var buf := new Byte[|a|](_ => 0);
    for i := 0 to |a|
      invariant forall k :: 0 <= k < i ==> buf[k] == a[k] ^ b[k]
    {
      buf[i] := a[i] ^ b[i];
    }
    c := buf[..];
    forall k | 0 <= k < |a|
      ensures c[k] == XorBytes(a, b)[k]
    {
      XorBytesAt(a, b, k);
    }
  }

  // ---------------------------------------------------------------------
  // polynomial
  // ---------------------------------------------------------------------

  /** in_x^n computed in Zr by repeated multiplication, starting from 1. */
  function PowMod(r: GroupOrder, x: int, n: nat): (p: int)
    ensures 0 <= p < r
  {
    if n == 0 then 1 else ZrMul(r, PowMod(r, x, n - 1), x)
  }

  /** The value the evaluation reaches after the coefficients in `c`: the
      previous value plus the last coefficient times x^(|c|-1), in Zr. */
  function RingEval(r: GroupOrder, c: seq<int>, x: int): (v: int)
    ensures 0 <= v < r
  {
    if c == [] then 0
    else ZrAdd(r, RingEval(r, c[..|c| - 1], x),
                    ZrMul(r, c[|c| - 1], PowMod(r, x, |c| - 1)))
  }

  /** Integer power x^n. */
  function IntPow(x: int, n: nat): int
  {
    if n == 0 then 1 else IntPow(x, n - 1) * x
  }

  /** The integer sum of c[t] * x^t over t < |c|, index 0 the constant term. */
  function PowerSum(c: seq<int>, x: int): int
  {
    if c == [] then 0 else PowerSum(c[..|c| - 1], x) + c[|c| - 1] * IntPow(x, |c| - 1)
  }

  /** Horner's form c[0] + x * (c[1] + x * (...)), an independent reference. */
  function Horner(c: seq<int>, x: int): int
  {
    if c == [] then 0 else c[0] + x * Horner(c[1..], x)
  }

  /** The values of a sequence of Zr elements. */
  ghost function Values(es: seq<Element>): (vs: seq<int>)
    reads set k | 0 <= k < |es| :: es[k]
    ensures |vs| == |es|
    ensures forall k :: 0 <= k < |es| ==> vs[k] == es[k].value
  {
    if es == [] then [] else Values(es[..|es| - 1]) + [es[|es| - 1].value]
  }

  /** Repeated multiplication in Zr computes the integer power modulo r. */
  lemma {:induction false} PowModIsIntPow(r: GroupOrder, x: int, n: nat)
    ensures PowMod(r, x, n) == IntPow(x, n) % r
  {
    if n > 0 {
      PowModIsIntPow(r, x, n - 1);
      ModMulModLeft(IntPow(x, n - 1), x, r);
    }
  }

  /** The Zr accumulation yields the sum of c[t] * x^t over t < |c|, modulo r. */
  lemma {:induction false} RingEvalIsPowerSum(r: GroupOrder, c: seq<int>, x: int)
    ensures RingEval(r, c, x) == PowerSum(c, x) % r
    decreases |c|
  {
    if c != [] {
      var n := |c| - 1;
      var front := c[..n];
      RingEvalIsPowerSum(r, front, x);
      PowModIsIntPow(r, x, n);
      ModMulMod(c[n], IntPow(x, n), r);
      ModAddMod(PowerSum(front, x), c[n] * IntPow(x, n), r);
    }
  }

  /** Prepending a constant term: the rest is shifted up one power of x. */
  lemma {:induction false} PowerSumCons(a: int, rest: seq<int>, x: int)
    ensures PowerSum([a] + rest, x) == a + x * PowerSum(rest, x)
    decreases |rest|
  {
    if rest != [] {
      var n := |rest|;
      var front := rest[..n - 1];
      var l := rest[n - 1];
      assert ([a] + rest)[..n] == [a] + front;
      PowerSumCons(a, front, x);
      calc {
        PowerSum([a] + rest, x);
        PowerSum([a] + front, x) + l * IntPow(x, n);
        a + x * PowerSum(front, x) + l * (IntPow(x, n - 1) * x);
        { assert l * (IntPow(x, n - 1) * x) == x * (l * IntPow(x, n - 1)); }
        a + x * PowerSum(front, x) + x * (l * IntPow(x, n - 1));
        a + x * (PowerSum(front, x) + l * IntPow(x, n - 1));
        a + x * PowerSum(rest, x);
      }
    }
  }

  /** Power-accumulating summation and Horner's rule agree. */
  lemma {:induction false} PowerSumIsHorner(c: seq<int>, x: int)
    ensures PowerSum(c, x) == Horner(c, x)
    decreases |c|
  {
    if c != [] {
      assert c == [c[0]] + c[1..];
      PowerSumCons(c[0], c[1..], x);
      PowerSumIsHorner(c[1..], x);
    }
  }

  /** One more coefficient: the loop's step. */
  lemma RingEvalSnoc(r: GroupOrder, c: seq<int>, i: nat, x: int)
    requires i < |c|
    ensures RingEval(r, c[..i + 1], x) == ZrAdd(r, RingEval(r, c[..i], x), ZrMul(r, c[i], PowMod(r, x, i)))
  {
    assert c[..i + 1][..i] == c[..i];
  }

  lemma ValuesUnchanged(es: seq<Element>, vs: seq<int>)
    requires |vs| == |es|
    requires forall k :: 0 <= k < |es| ==> es[k].value == vs[k]
    ensures Values(es) == vs
  {
  }

  /** At x = 0 only the constant term survives. */
  lemma {:induction false} RingEvalAtZero(r: GroupOrder, c: seq<int>)
    requires |c| > 0 && 0 <= c[0] < r
    ensures RingEval(r, c, 0) == c[0]
    decreases |c|
  {
    var n := |c| - 1;
    if n > 0 {
      var front := c[..n];
      assert front[0] == c[0];
      RingEvalAtZero(r, front);
      ZrMulZero(r, PowMod(r, 0, n - 1));
      ZrMulZero(r, c[n]);
      ZrAddZero(r, c[0]);
    } else {
      ZrMulOne(r, c[0]);
      ZrAddZero(r, c[0]);
      assert ZrAdd(r, 0, c[0]) == ZrAdd(r, c[0], 0);
    }
  }

  /** What the Zr evaluation of coefficients c at x is: the power sum
      modulo r, equally Horner's form modulo r; 0 for no coefficients; the
      constant term at x = 0. */
  lemma PolynomialValue(r: GroupOrder, c: seq<int>, x: int)
    ensures RingEval(r, c, x) == PowerSum(c, x) % r == Horner(c, x) % r
    ensures c == [] ==> RingEval(r, c, x) == 0
    ensures c != [] && x == 0 && 0 <= c[0] < r ==> RingEval(r, c, x) == c[0]
  {
    RingEvalIsPowerSum(r, c, x);
    PowerSumIsHorner(c, x);
    if c != [] && x == 0 && 0 <= c[0] < r {
      RingEvalAtZero(r, c);
    }
  }

  /** `polynomial(in_x, pairing, coefficients)`: starting from y = 0 and
      x = 1, for each coefficient in order, y := y + coefficient * x and
      x := x * in_x, each product formed in a fresh temporary. The result is
      a fresh element; neither in_x nor any coefficient is changed. */
  method Polynomial(inX: Element, pairing: Pairing, coefficients: seq<Element>)
    returns (y: Element)
    requires inX.order == pairing.order && inX.Valid()
    requires forall k :: 0 <= k < |coefficients| ==>
               coefficients[k].order == pairing.order && coefficients[k].Valid()
    ensures fresh(y) && y.order == pairing.order && y.Valid()
    ensures y.value == RingEval(pairing.order, Values(coefficients), inX.value)
    ensures y.value == PowerSum(Values(coefficients), inX.value) % pairing.order
    ensures y.value == Horner(Values(coefficients), inX.value) % pairing.order
    ensures coefficients == [] ==> y.value == 0
    ensures coefficients != [] && inX.value == 0 ==> y.value == coefficients[0].value
    ensures unchanged(inX)
    ensures forall k :: 0 <= k < |coefficients| ==> unchanged(coefficients[k])
  {
    ghost var r := pairing.order;
    ghost var cs := Values(coefficients);
    // y = 0
    y := new Element.InitZr(pairing);
    y.Set0();
    // x = 1
    var x := new Element.InitZr(pairing);
    x.Set1();

    for i := 0 to |coefficients|
      invariant fresh(y) && fresh(x) && x != y
      invariant y.order == r && x.order == r && y.Valid() && x.Valid()
      invariant forall k :: 0 <= k < |coefficients| ==> coefficients[k].value == cs[k]
      invariant x.value == PowMod(r, inX.value, i)
      invariant y.value == RingEval(r, cs[..i], inX.value)
    {
      // tmp = coefficient * x
      var tmp := new Element.InitZr(pairing);
      tmp.Set(coefficients[i]);
      tmp.Mul(x);
      // y = y + tmp
      y.Add(tmp);
      // x = x * in_x
      x.Mul(inX);
      RingEvalSnoc(r, cs, i, inX.value);
    }
    assert cs[..|coefficients|] == cs;
    ValuesUnchanged(coefficients, cs);
    PolynomialValue(r, cs, inX.value);
  }
}

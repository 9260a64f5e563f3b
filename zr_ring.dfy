/** The scalar ring Zr of a pairing, as far as polynomial evaluation uses it.

    The pairing engine is opaque; what the model keeps of it is the group
    order r, and of a Zr element its value, a residue in [0, r).  Every
    arithmetic operation of the engine on Zr is addition or multiplication
    modulo r.  An element is an object updated in place, as the binding's
    `set`, `set0`, `set1`, `add` and `mul` update their receiver.
 */
module ZrRing {

  /** The order of the pairing's groups; the modulus of Zr. */
  type GroupOrder = r: int | r > 1 witness 2

  /** A pairing context: only its group order matters to Zr arithmetic. */
  datatype Pairing = Pairing(order: GroupOrder)

  /** Sum in Zr. */
  function ZrAdd(r: GroupOrder, a: int, b: int): (s: int)
    ensures 0 <= s < r
  {
    (a + b) % r
  }

  /** Product in Zr. */
  function ZrMul(r: GroupOrder, a: int, b: int): (p: int)
    ensures 0 <= p < r
  {
    (a * b) % r
  }

  /** Adding the additive identity leaves a residue unchanged. */
  lemma ZrAddZero(r: GroupOrder, a: int)
    requires 0 <= a < r
    ensures ZrAdd(r, a, 0) == a
  {
    ModUnique(a, 0, a, r);
  }

  /** Multiplying by the multiplicative identity leaves a residue unchanged. */
  lemma ZrMulOne(r: GroupOrder, a: int)
    requires 0 <= a < r
    ensures ZrMul(r, a, 1) == a
  {
    ModUnique(a, 0, a, r);
  }

  /** Multiplying by zero gives zero. */
  lemma ZrMulZero(r: GroupOrder, a: int)
    ensures ZrMul(r, a, 0) == 0
  {
    ModUnique(0, 0, 0, r);
  }

  // Residue arithmetic used to relate the Zr computation to the integer sum.

  lemma ModUnique(n: int, q: int, s: int, r: int)
    requires r > 0 && 0 <= s < r && n == q * r + s
    ensures n % r == s
  {
    var d := n / r - q;
    assert d * r == s - n % r;
  }

  lemma ModShift(m: int, k: int, r: int)
    requires r > 0
    ensures (m + k * r) % r == m % r
  {
    ModUnique(m + k * r, m / r + k, m % r, r);
  }

  lemma ModAddMod(a: int, b: int, r: int)
    requires r > 0
    ensures (a % r + b % r) % r == (a + b) % r
  {
    assert a + b == (a % r + b % r) + (a / r + b / r) * r;
    ModShift(a % r + b % r, a / r + b / r, r);
  }

  lemma ModMulMod(a: int, b: int, r: int)
    requires r > 0
    ensures (a * (b % r)) % r == (a * b) % r
  {
    assert a * b == a * (b % r) + (a * (b / r)) * r;
    ModShift(a * (b % r), a * (b / r), r);
  }

  lemma ModMulModLeft(a: int, b: int, r: int)
    requires r > 0
    ensures ((a % r) * b) % r == (a * b) % r
  {
    ModMulMod(b, a, r);
  }

  /** An element initialised in Zr of one pairing. */
  class Element {
    const order: GroupOrder
    var value: int

    ghost predicate Valid()
      reads this
    {
      0 <= value < order
    }

    /** `Element::new()` followed by `init_zr(pairing)`: the element belongs
        to Zr of `pairing` for the rest of its life. */
    constructor InitZr(pairing: Pairing)
      ensures order == pairing.order && Valid()
    {
      order := pairing.order;
      value := 0;
    }

    /** `set0`: the additive identity. */
    method Set0()
      modifies this
      ensures Valid() && value == 0
    {
      value := 0;
    }

    /** `set1`: the multiplicative identity. */
    method Set1()
      modifies this
      ensures Valid() && value == 1
    {
      value := 1;
    }

    /** `set(rhs)`: copies the value of an element of the same ring. */
    method Set(rhs: Element)
      requires rhs.order == order && rhs.Valid()
      modifies this
      ensures Valid() && value == old(rhs.value)
    {
      value := rhs.value;
    }

    /** `add(rhs)`: self := self + rhs in Zr; `rhs` may be `this`. */
    method Add(rhs: Element)
      requires rhs.order == order
      modifies this
      ensures Valid() && value == ZrAdd(order, old(value), old(rhs.value))
    {
      value := ZrAdd(order, value, rhs.value);
    }

    /** `mul(rhs)`: self := self * rhs in Zr; `rhs` may be `this`. */
    method Mul(rhs: Element)
      requires rhs.order == order
      modifies this
      ensures Valid() && value == ZrMul(order, old(value), old(rhs.value))
    {
      value := ZrMul(order, value, rhs.value);
    }
  }
}

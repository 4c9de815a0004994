/** The quantised join costs of every pair of instances of a phone, one byte each, in a triangle. */
module JoinCost {
  import opened Wrappers

  newtype Byte = x: int | 0 <= x < 0x100

  const WORD := 0x1_0000_0000
  const MIN_VAL: Byte := 0
  const MAX_VAL: Byte := 0xFF

  // ---------- The triangle ----------

  /** The number of pairs below n; the rows of the triangle start at these places. */
  function Tri(n: nat): (t: nat)
    ensures 2 * t == n * (n - 1)
  {
    if n == 0 then 0 else Tri(n - 1) + (n - 1)
  }

  lemma {:induction false} TriRows(b: nat, d: nat)
    requires b < d
    ensures Tri(b) + b <= Tri(d)
  {
    if b + 1 == d {
    } else {
      TriRows(b, d - 1);
    }
  }

  function Shifted(product: nat, a: nat): nat { (product % WORD / 2 + a) % WORD }

  /** The place of the pair of a and the larger b, in 32-bit words. */
  function Slot(a: nat, b: nat): nat { Shifted(b * (b - 1), a) }

  /** The allocation of the program, in 32-bit words. */
  function AllocatedLength(n: nat): nat { ((n * n) % WORD / 2 - n) % WORD }

  lemma {:induction false} Scaled(x: nat, y: nat, z: nat)
    requires x <= y
    ensures x * z <= y * z
  {
  }

  lemma {:induction false} Product(b: nat)
    requires b <= 0x1_0000
    ensures b * (b - 1) <= 0x1_0000 * 0xFFFF
  {
    if b > 0 {
      Scaled(b, 0x1_0000, b - 1);
    }
  }

  lemma {:induction false} Unwrapped(product: nat, t: nat, a: nat)
    requires product == 2 * t && product < WORD && a < 0x1_0000
    ensures Shifted(product, a) == t + a
  {
  }

  lemma {:induction false} SlotIsTri(a: nat, b: nat)
    requires a < b <= 0x1_0000
    ensures Slot(a, b) == Tri(b) + a
  {
    Product(b);
    Unwrapped(b * (b - 1), Tri(b), a);
  }

  lemma {:induction false} SlotInRange(n: nat, a: nat, b: nat)
    requires a < b < n <= 0x1_0001
    ensures Slot(a, b) < Tri(n)
  {
    SlotIsTri(a, b);
    TriRows(b, n);
  }

  lemma {:induction false} SlotInjective(a: nat, b: nat, c: nat, d: nat)
    requires a < b <= 0x1_0000 && c < d <= 0x1_0000
    requires Slot(a, b) == Slot(c, d)
    ensures a == c && b == d
  {
    SlotIsTri(a, b);
    SlotIsTri(c, d);
    if b < d {
      TriRows(b, d);
    } else if d < b {
      TriRows(d, b);
    }
  }

  /** The row and the column of a place. */
  lemma {:induction false} SlotOnto(n: nat, k: nat) returns (a: nat, b: nat)
    requires n <= 0x1_0001 && k < Tri(n)
    ensures a < b < n && Slot(a, b) == k
  {
    if k < Tri(n - 1) {
      a, b := SlotOnto(n - 1, k);
    } else {
      a, b := k - Tri(n - 1), n - 1;
      SlotIsTri(a, b);
    }
  }

  predicate SlotsDiffer(a: nat, b: nat, c: nat, d: nat) { Slot(a, b) == Slot(c, d) ==> a == c && b == d }

  ghost predicate OnePlaceEach(n: nat) {
    forall a: nat, b: nat, c: nat, d: nat :: a < b < n && c < d < n ==> SlotsDiffer(a, b, c, d)
  }

  /** The product in the formula wraps as soon as there are more than 65537 instances. */
  lemma {:induction false} OnePlaceEachIff(n: nat)
    ensures OnePlaceEach(n) <==> n <= 0x1_0001
  {
    if n <= 0x1_0001 {
      forall a: nat, b: nat, c: nat, d: nat | a < b < n && c < d < n ensures SlotsDiffer(a, b, c, d) {
        if Slot(a, b) == Slot(c, d) {
          SlotInjective(a, b, c, d);
        }
      }
    } else {
      assert !SlotsDiffer(0, 0x1_0001, 128, 256);
    }
  }

  /** For as many instances as have places of their own, the allocation of the program holds the triangle only when there is
      one instance or none, or when the product for the size wraps. */
  lemma {:induction false} AllocationSuffices(n: nat)
    requires n <= 0x1_0001
    ensures Tri(n) <= AllocatedLength(n) <==> n <= 1 || n >= 0x1_0000
  {
    if n < 0x1_0000 {
      Scaled(n, 0xFFFF, n);
      Scaled(n, 0xFFFF, 0xFFFF);
      Unwrapping(n, n * n, Tri(n));
    }
  }

  lemma {:induction false} Unwrapping(n: nat, square: nat, t: nat)
    requires 2 * t == square - n && square < WORD && (n >= 2 ==> square >= 2 * n) && (n < 2 ==> square == n)
    ensures t <= (square % WORD / 2 - n) % WORD <==> n <= 1
  {
    assert square % WORD == square;
  }

  // ---------- Quantisation ----------

  function Abs(x: real): real { if x < 0.0 then -x else x }

  /** Rounding to the nearest integer, a half to the even one. */
  function Rint(x: real): (r: int)
    ensures Abs(r as real - x) <= 0.5
    ensures Abs(r as real - x) == 0.5 ==> r % 2 == 0
  {
    var low := x.Floor;
    var rest := x - low as real;
    if rest < 0.5 || (rest == 0.5 && low % 2 == 0) then low else low + 1
  }

  const LEVELS := 255.0
  const U_LIMIT := 1.0 - 1.0 / LEVELS
  const L_LIMIT := 1.0 / LEVELS

  function Quantise(cost: real): Byte {
    if cost >= U_LIMIT then MAX_VAL
    else if cost <= L_LIMIT then MIN_VAL
    else
      RintInRange(cost);
      Rint(cost * LEVELS) as Byte
  }

  lemma {:induction false} RintInRange(cost: real)
    requires L_LIMIT < cost < U_LIMIT
    ensures 1 <= Rint(cost * LEVELS) <= 254
  {
  }

  function Clamp(cost: real): real {
    if cost < 0.0 then 0.0 else if cost > 1.0 then 1.0 else cost
  }

  function Level(q: Byte): real { q as int as real / LEVELS }

  /** No stored cost is off by more than one level, and by no more than half of one away from the ends. */
  lemma {:induction false} QuantisedNear(cost: real)
    ensures Abs(Level(Quantise(cost)) - Clamp(cost)) <= 1.0 / LEVELS
    ensures L_LIMIT < cost < U_LIMIT ==> Abs(Level(Quantise(cost)) - cost) <= 0.5 / LEVELS
  {
  }

  lemma {:induction false} QuantisedInOrder(x: real, y: real)
    requires x <= y
    ensures Quantise(x) <= Quantise(y)
  {
  }

  // ---------- The table ----------

  class JoinCostCache {
    const numInstances: nat
    const cache: array<Byte>

    ghost predicate Valid() {
      numInstances <= 0x1_0001 && cache.Length == Tri(numInstances)
    }

    /** Room for every pair. */
    constructor (n: nat)
      requires n <= 0x1_0001
      ensures Valid() && numInstances == n && fresh(cache)
    {
      numInstances := n;
      cache := new Byte[Tri(n)];
    }

    /** Indices the table answers for: the error message leaves out the number of instances itself. */
    predicate Rejected(a: nat, b: nat) { a > numInstances || b > numInstances }

    predicate Answered(a: nat, b: nat) { a == b || (a < numInstances && b < numInstances) }

    /** The byte a pair stands for. */
    ghost function Stored(a: nat, b: nat): Byte
      requires Valid() && a < numInstances && b < numInstances
      reads cache
    {
      if a == b then MIN_VAL
      else if a < b then SlotInRange(numInstances, a, b); cache[Slot(a, b)]
      else SlotInRange(numInstances, b, a); cache[Slot(b, a)]
    }

    method Val(a: nat, b: nat) returns (v: Option<Byte>)
      requires Valid() && (Rejected(a, b) || Answered(a, b))
      ensures v.None? <==> Rejected(a, b)
      ensures a < numInstances && b < numInstances ==> v == Some(Stored(a, b)) == Some(Stored(b, a))
      ensures v.Some? && a == b ==> v == Some(MIN_VAL)
    {
      if a > numInstances || b > numInstances {
        return None;
      }
      if a == b {
        return Some(MIN_VAL);
      } else if b > a {
        SlotInRange(numInstances, a, b);
        return Some(cache[Slot(a, b)]);
      } else {
        SlotInRange(numInstances, b, a);
        return Some(cache[Slot(b, a)]);
      }
    }

    method SetVal(a: nat, b: nat, v: Byte) returns (ok: Option<bool>)
      requires Valid() && (Rejected(a, b) || Answered(a, b))
      modifies cache
      ensures ok == if Rejected(a, b) then None else Some(true)
      ensures Rejected(a, b) || a == b ==> cache[..] == old(cache[..])
      ensures !Rejected(a, b) && a != b ==>
                forall c, d :: 0 <= c < numInstances && 0 <= d < numInstances ==>
                  Stored(c, d) == if (c == a && d == b) || (c == b && d == a) then v else old(Stored(c, d))
    {
      if a > numInstances || b > numInstances {
        return None;
      }
      if a != b {
        var low, high := if b > a then a else b, if b > a then b else a;
        SlotInRange(numInstances, low, high);
        cache[Slot(low, high)] := v;
        forall c, d | 0 <= c < d < numInstances
          ensures Slot(c, d) < Tri(numInstances) && SlotsDiffer(c, d, low, high)
        {
          SlotInRange(numInstances, c, d);
          if Slot(c, d) == Slot(low, high) {
            SlotInjective(c, d, low, high);
          }
        }
      }
      return Some(true);
    }

    /** The pairs of the list before the pair of i and j, in the order of the two loops. */
    predicate Earlier(c: nat, d: nat, i: nat, j: nat) { c < d && (c < i || (c == i && d < j)) }

    /** Two nested walks of the list: every pair of instances is costed once and stored. */
    method ComputeAndCache<Item>(list: seq<Item>, jc: (Item, Item) -> real) returns (ok: bool)
      requires Valid() && |list| <= numInstances
      modifies cache
      ensures ok
      ensures forall c, d :: 0 <= c < d < |list| ==>
                Stored(c, d) == Stored(d, c) == Quantise(jc(list[c], list[d]))
      ensures forall c, d :: 0 <= c < d < |list| ==>
                Abs(Level(Stored(c, d)) - Clamp(jc(list[c], list[d]))) <= 1.0 / LEVELS
      ensures forall c, d :: 0 <= c < d < numInstances && d >= |list| ==>
                Stored(c, d) == old(Stored(c, d))
    {
      var i := 0;
      while i < |list|
        invariant i <= |list|
        invariant forall c, d :: 0 <= c < d < numInstances ==>
                    Stored(c, d) ==
                    if d < |list| && Earlier(c, d, i, 0) then Quantise(jc(list[c], list[d])) else old(Stored(c, d))
      {
        var j := i + 1;
        while j < |list|
          invariant i < j <= |list|
          invariant forall c, d :: 0 <= c < d < numInstances ==>
                      Stored(c, d) ==
                      if d < |list| && Earlier(c, d, i, j) then Quantise(jc(list[c], list[d])) else old(Stored(c, d))
        {
          var cost := jc(list[i], list[j]);
          var _ := SetVal(i, j, Quantise(cost));
          j := j + 1;
        }
        i := i + 1;
      }
      forall c, d | 0 <= c < d < |list|
        ensures Abs(Level(Stored(c, d)) - Clamp(jc(list[c], list[d]))) <= 1.0 / LEVELS
      {
        QuantisedNear(jc(list[c], list[d]));
      }
      return true;
    }
  }
}

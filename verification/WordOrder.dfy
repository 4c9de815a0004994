/** The string orders of the lexicon: comparison functions in the style of strcmp. */
module WordOrder {

  /** A three-way comparison whose signs describe a total preorder. */
  ghost predicate TotalPreorder<W(!new)>(cmp: (W, W) -> int) {
    && (forall a, b :: cmp(a, b) < 0 <==> cmp(b, a) > 0)
    && (forall a, b, c :: cmp(a, b) <= 0 && cmp(b, c) <= 0 ==> cmp(a, c) <= 0)
  }

  /** Lexicographic comparison of two strings by the weight of their characters. */
  function CompareBy(weight: char -> int, a: string, b: string): int {
    if a == [] then (if b == [] then 0 else -1)
    else if b == [] then 1
    else if weight(a[0]) != weight(b[0]) then weight(a[0]) - weight(b[0])
    else CompareBy(weight, a[1..], b[1..])
  }

  lemma {:induction false} CompareByFlips(weight: char -> int, a: string, b: string)
    ensures CompareBy(weight, a, b) < 0 <==> CompareBy(weight, b, a) > 0
  {
    if a != [] && b != [] && weight(a[0]) == weight(b[0]) {
      CompareByFlips(weight, a[1..], b[1..]);
    }
  }

  lemma {:induction false} CompareByTransitive(weight: char -> int, a: string, b: string, c: string)
    requires CompareBy(weight, a, b) <= 0 && CompareBy(weight, b, c) <= 0
    ensures CompareBy(weight, a, c) <= 0
  {
    if a != [] && weight(a[0]) == weight(b[0]) == weight(c[0]) {
      CompareByTransitive(weight, a[1..], b[1..], c[1..]);
    }
  }

  lemma {:induction false} CompareByIsTotalPreorder(weight: char -> int)
    ensures TotalPreorder((a, b) => CompareBy(weight, a, b))
  {
    forall a, b ensures CompareBy(weight, a, b) < 0 <==> CompareBy(weight, b, a) > 0 {
      CompareByFlips(weight, a, b);
    }
    forall a, b, c | CompareBy(weight, a, b) <= 0 && CompareBy(weight, b, c) <= 0
      ensures CompareBy(weight, a, c) <= 0
    {
      CompareByTransitive(weight, a, b, c);
    }
  }

  /** When different characters weigh differently, only equal strings tie. */
  lemma {:induction false} InjectiveWeightTies(weight: char -> int, a: string, b: string)
    requires forall x, y :: weight(x) == weight(y) ==> x == y
    requires CompareBy(weight, a, b) == 0
    ensures a == b
  {
    if a == [] {
    } else {
      InjectiveWeightTies(weight, a[1..], b[1..]);
      assert a == [a[0]] + a[1..] && b == [b[0]] + b[1..];
    }
  }
}

/** The host's string collation, as a parameter of every ordering that uses it. */
module Collation {

  type Collate = (string, string) -> int

  /** Collation is a strict total order on strings, zero on equal strings only. */
  ghost predicate IsCollation(collate: Collate) {
    && (forall a, b :: collate(a, b) == 0 <==> a == b)
    && (forall a, b :: collate(a, b) < 0 <==> collate(b, a) > 0)
    && (forall a, b, c :: collate(a, b) < 0 && collate(b, c) < 0 ==> collate(a, c) < 0)
  }

  lemma CollationAt(collate: Collate, a: string, b: string, c: string)
    requires IsCollation(collate)
    ensures collate(a, b) == 0 <==> a == b
    ensures collate(a, b) < 0 <==> collate(b, a) > 0
    ensures collate(a, b) <= 0 && collate(b, c) <= 0 ==> collate(a, c) <= 0
  {
    assert collate(b, c) == 0 <==> b == c;
    assert collate(a, b) == 0 <==> a == b;
    assert collate(b, a) == 0 <==> a == b;
  }
}

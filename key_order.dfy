/** The order in which a block iterator compares keys: `Arrays.compare` on
    boxed `Byte[]` arrays. It is lexicographic under `Byte.compareTo`, which
    compares SIGNED bytes (0x80..0xff sort before 0x00..0x7f), and a proper
    prefix sorts before any of its extensions. */
module KeyOrder {
  import opened JavaBytes

  /** The value `Arrays.compare(a, b)` returns: at the first position where the
      arrays differ, the difference `a[i] - b[i]` of the signed bytes that
      `Byte.compareTo` returns; when one is a prefix of the other, the
      difference of the lengths. */
  function Compare(a: Bytes, b: Bytes): (c: int)
    ensures c == 0 <==> a == b
  {
    if a == [] || b == [] then |a| - |b|
    else if a[0] != b[0] then a[0] - b[0]
    else
      assert a == [a[0]] + a[1..] && b == [b[0]] + b[1..];
      Compare(a[1..], b[1..])
  }

  /** `a` sorts strictly before `b`. */
  predicate Less(a: Bytes, b: Bytes) {
    Compare(a, b) < 0
  }

  /** Swapping the arguments negates the result. */
  lemma {:induction false} CompareAntisymmetric(a: Bytes, b: Bytes)
    ensures Compare(b, a) == -Compare(a, b)
  {
    if a != [] && b != [] && a[0] == b[0] {
      CompareAntisymmetric(a[1..], b[1..]);
    }
  }

  /** Exactly one of `a < b`, `a == b`, `b < a` holds. */
  lemma Trichotomy(a: Bytes, b: Bytes)
    ensures Less(a, b) || a == b || Less(b, a)
    ensures !(Less(a, b) && Less(b, a))
  {
    CompareAntisymmetric(a, b);
  }

  /** The key order is transitive. */
  lemma {:induction false} LessTransitive(a: Bytes, b: Bytes, c: Bytes)
    requires Less(a, b) && Less(b, c)
    ensures Less(a, c)
  {
    if a != [] && b != [] && c != [] && a[0] == b[0] && b[0] == c[0] {
      LessTransitive(a[1..], b[1..], c[1..]);
    }
  }

  /** The order is the signed one: a key starting with byte 0xff sorts before a
      key starting with 0x01, and a proper prefix sorts first. */
  lemma SignedAndPrefixOrder()
    ensures Less([-1], [1])
    ensures Less([1], [1, 0])
  {
  }
}

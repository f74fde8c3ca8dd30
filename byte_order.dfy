/** Byte strings and the order bolt keeps its keys in (Go's bytes.Compare). */
module ByteOrder {

  /** One byte. Bucket names, keys and values are all byte strings. */
  type byte = b: int | 0 <= b < 256

  type Bytes = seq<byte>

  /** bytes.Compare: -1, 0 or +1 by lexicographic order, where a proper prefix is smaller. */
  function Compare(a: Bytes, b: Bytes): (c: int)
    ensures -1 <= c <= 1
    ensures c == 0 <==> a == b
  {
    if a == [] then (if b == [] then 0 else -1)
    else if b == [] then 1
    else if a[0] < b[0] then -1
    else if a[0] > b[0] then 1
    else
      assert a == [a[0]] + a[1..] && b == [b[0]] + b[1..];
      Compare(a[1..], b[1..])
  }

  predicate Less(a: Bytes, b: Bytes) {
    Compare(a, b) < 0
  }

  predicate LessEq(a: Bytes, b: Bytes) {
    Compare(a, b) <= 0
  }

  /** Swapping the operands negates the comparison. */
  lemma {:induction false} CompareFlip(a: Bytes, b: Bytes)
    ensures Compare(b, a) == -Compare(a, b)
  {
    if a != [] && b != [] && a[0] == b[0] {
      CompareFlip(a[1..], b[1..]);
    }
  }

  /** The comparison is transitive, and strictly so when either step is strict. */
  lemma {:induction false} CompareTransitive(a: Bytes, b: Bytes, c: Bytes)
    requires LessEq(a, b) && LessEq(b, c)
    ensures LessEq(a, c)
    ensures Less(a, b) || Less(b, c) ==> Less(a, c)
  {
    if a != [] && b != [] && c != [] && a[0] == b[0] == c[0] {
      CompareTransitive(a[1..], b[1..], c[1..]);
    }
  }

  /** Any two byte strings are ordered one way or the other. */
  lemma LessTrichotomy(a: Bytes, b: Bytes)
    ensures Less(a, b) || a == b || Less(b, a)
    ensures !(Less(a, b) && Less(b, a))
  {
    CompareFlip(a, b);
  }

  /** Not at most `b` is the same as strictly above `b`. */
  lemma NotLessEq(a: Bytes, b: Bytes)
    ensures !LessEq(a, b) <==> Less(b, a)
  {
    CompareFlip(a, b);
  }

  /** Appending to two strings of equal length that already differ keeps their order. */
  lemma {:induction false} LessExtend(a: Bytes, b: Bytes, x: Bytes, y: Bytes)
    requires |a| == |b| && Less(a, b)
    ensures Less(a + x, b + y)
  {
    assert a != [] && b != [];
    assert (a + x)[0] == a[0] && (b + y)[0] == b[0];
    if a[0] == b[0] {
      assert (a + x)[1..] == a[1..] + x && (b + y)[1..] == b[1..] + y;
      LessExtend(a[1..], b[1..], x, y);
    }
  }

  /** A common prefix leaves the order to the first bytes after it. */
  lemma {:induction false} LessAfterCommonPrefix(p: Bytes, c: byte, d: byte)
    requires c < d
    ensures Less(p + [c], p + [d])
  {
    if p != [] {
      assert (p + [c])[1..] == p[1..] + [c] && (p + [d])[1..] == p[1..] + [d];
      LessAfterCommonPrefix(p[1..], c, d);
    }
  }
}

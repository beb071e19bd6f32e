/** What several modules use. */
module Common {
  const U32: nat := 0x1_0000_0000
  const U64: nat := 0x1_0000_0000_0000_0000

  type UInt16 = n: nat | n < 0x1_0000
  type UInt32 = n: nat | n < U32
  type UInt64 = n: nat | n < U64

  datatype Option<+T> = None | Some(value: T)

  function Min(a: nat, b: nat): nat {
    if a <= b then a else b
  }

  lemma Regroup<T>(a: seq<T>, b: seq<T>, c: seq<T>)
    ensures (a + b) + c == a + (b + c)
    ensures a == [] ==> a + b == b
  {
  }

  // ----- lexicographic order -----------------------------------------------------------

  /** Compares from the front by an order of the elements; a prefix comes first. */
  predicate LexLess<T(==)>(a: seq<T>, b: seq<T>, less: (T, T) -> bool) {
    if b == [] then false
    else if a == [] then true
    else less(a[0], b[0]) || (a[0] == b[0] && LexLess(a[1..], b[1..], less))
  }

  predicate CharLess(a: char, b: char) {
    a < b
  }

  /** The order of strings. */
  predicate StrLess(a: string, b: string) {
    LexLess(a, b, CharLess)
  }

  lemma LexOne<T>(x: T, y: T, less: (T, T) -> bool)
    ensures LexLess([x], [y], less) <==> less(x, y)
  {
    assert [y][1..] == [];
  }

  lemma {:induction false} LexConcat<T>(a: seq<T>, b: seq<T>, u: seq<T>, v: seq<T>, less: (T, T) -> bool)
    requires |a| == |b|
    requires forall x :: !less(x, x)
    ensures LexLess(a + u, b + v, less) <==> LexLess(a, b, less) || (a == b && LexLess(u, v, less))
    decreases |a|
  {
    if a == [] {
      assert a + u == u && b + v == v;
    } else {
      assert (a + u)[1..] == a[1..] + u && (b + v)[1..] == b[1..] + v;
      LexConcat(a[1..], b[1..], u, v, less);
      assert a == [a[0]] + a[1..] && b == [b[0]] + b[1..];
    }
  }
}

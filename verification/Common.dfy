/** Result types and finite-set facts shared by the other modules. */
module Common {

  /** The number of values of the unsigned integer types. */
  const U16: nat := 0x1_0000
  const U32: nat := 0x1_0000_0000
  const U64: nat := 0x1_0000_0000_0000_0000

  datatype Option<+T> = None | Some(value: T)

  /** What a kernel call does: it returns, or it ends in `panic`, which never returns, or it writes over the
      allocator's own tables, and what it does next depends on the bytes it wrote there. */
  datatype Outcome<+T> = Panicked | Returned(value: T) | TablesLost

  /** The integers lo, ..., lo + n - 1. */
  function Span(lo: nat, n: nat): (r: set<nat>)
    ensures forall x: nat :: x in r <==> lo <= x < lo + n
  {
    if n == 0 then {} else Span(lo, n - 1) + {lo + n - 1}
  }

  lemma {:induction false} SpanSize(lo: nat, n: nat)
    ensures |Span(lo, n)| == n
  {
    if n > 0 {
      SpanSize(lo, n - 1);
    }
  }

  lemma Associates<T>(a: seq<T>, b: seq<T>, c: seq<T>)
    ensures a + (b + c) == (a + b) + c
  {
  }

  lemma Joined<T>(a: set<T>, b: set<T>)
    requires a !! b
    ensures |a + b| == |a| + |b|
  {
  }

  lemma {:induction false} SubsetSize<T>(a: set<T>, b: set<T>)
    requires a <= b
    ensures |a| <= |b|
    ensures |a| == |b| ==> a == b
  {
    assert b == a + (b - a);
  }

  /** An injective function keeps the size of a set. */
  lemma {:induction false} ImageSize<T, U>(a: set<T>, m: map<T, U>, b: set<U>)
    requires a <= m.Keys
    requires forall x, y :: x in a && y in a && m[x] == m[y] ==> x == y
    requires forall y :: y in b <==> exists x :: x in a && m[x] == y
    ensures |a| == |b|
  {
    if a == {} {
      assert b == {};
    } else {
      var x :| x in a;
      assert m[x] in b;
      forall y ensures y in b - {m[x]} <==> exists z :: z in a - {x} && m[z] == y {
        if y in b - {m[x]} {
          var z :| z in a && m[z] == y;
          assert z in a - {x};
        }
      }
      ImageSize(a - {x}, m, b - {m[x]});
    }
  }
}

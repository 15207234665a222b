/** Division facts and the macros of kernel/utils.h. */
module Arithmetic {

  /** ~KERNEL_SPACE_MASK + 1: the bytes below the kernel-space bits of an address. */
  const KERNEL_SPACE: nat := 0x1_0000_0000_0000

  /** MIN. */
  function Min(a: nat, b: nat): nat { if a < b then a else b }

  lemma DivUnique(w: nat, d: nat, q: nat, r: nat)
    requires r < d && w == q * d + r
    ensures w / d == q && w % d == r
  {
    MulMono(w / d, q, d);
    MulMono(q, w / d, d);
  }

  lemma MulMono(a: nat, b: nat, d: nat)
    ensures a < b ==> a * d + d <= b * d
  {
    if a < b {
      var k := b - a - 1;
      assert b * d == (a + 1 + k) * d == a * d + d + k * d;
    }
  }

  predicate PowerOfTwo(n: nat) {
    n == 1 || (n > 1 && n % 2 == 0 && PowerOfTwo(n / 2))
  }

  /** ALIGN_UP. For a power of two, masking the low bits off is rounding down to a multiple. */
  function AlignUp(x: nat, align: nat): nat
    requires align > 0
  {
    (x + align - 1) / align * align
  }

  lemma AlignUpIsLeast(x: nat, align: nat)
    requires align > 0
    ensures AlignUp(x, align) % align == 0 && x <= AlignUp(x, align) < x + align
  {
    var q := (x + align - 1) / align;
    DivUnique(q * align, align, q, 0);
  }

  /** Rounding up commutes with adding a multiple. */
  lemma AlignUpShift(m: nat, x: nat, align: nat)
    requires align > 0 && m % align == 0
    ensures AlignUp(m + x, align) == m + AlignUp(x, align)
  {
    var q, r := (x + align - 1) / align, (x + align - 1) % align;
    assert m == m / align * align;
    assert m + x + align - 1 == (m / align + q) * align + r;
    DivUnique(m + x + align - 1, align, m / align + q, r);
  }

  lemma AddMultiples(x: nat, y: nat, align: nat)
    requires align > 0 && x % align == 0 && y % align == 0
    ensures (x + y) % align == 0
  {
    var a, b := x / align, y / align;
    assert x == a * align && y == b * align;
    DivUnique(x + y, align, a + b, 0);
  }

  lemma FactorDivides(x: nat, k: nat, size: nat)
    requires k > 0 && size > 0 && k * size > 0 && x % (k * size) == 0
    ensures x % size == 0
  {
    var q := x / (k * size);
    assert x == q * (k * size) == (q * k) * size;
    DivUnique(x, size, q * k, 0);
  }

  /** Different multiples of align are at least align apart. */
  lemma MultiplesApart(x: nat, y: nat, align: nat)
    requires align > 0 && x % align == 0 && y % align == 0 && x < y
    ensures x + align <= y
  {
    var a, b := x / align, y / align;
    assert x == a * align && y == b * align;
    MulMono(a, b, align);
    MulMono(b, a, align);
  }

  /** A set whose elements have different keys below k has at most k elements. */
  lemma {:induction false} KeysBound(elements: set<nat>, key: map<nat, nat>, k: nat)
    requires elements <= key.Keys && forall x :: x in elements ==> key[x] < k
    requires forall x, y :: x in elements && y in elements && key[x] == key[y] ==> x == y
    ensures |elements| <= k
    decreases k
  {
    if elements != {} {
      if x :| x in elements && key[x] == k - 1 {
        KeysBound(elements - {x}, key, k - 1);
      } else {
        var x :| x in elements;
        assert key[x] < k;
        KeysBound(elements, key, k - 1);
      }
    }
  }

  lemma SubsetSize(a: set<nat>, b: set<nat>)
    requires a <= b
    ensures |a| <= |b|
  {
    assert b == a + (b - a);
  }
}

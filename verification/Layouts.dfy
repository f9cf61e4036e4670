/** Memory layouts and the rounding the heap applies to their sizes. */
module Layouts {
  import opened Bits

  ghost predicate IsAlignment(a: nat) {
    exists k: nat :: k < 64 && a == Pow2(k)
  }

  /** A request; `Valid` is the guarantee a Rust `Layout` carries. */
  datatype Layout = Layout(size: nat, align: nat) {
    ghost predicate Valid() {
      IsAlignment(align) && size + align - 1 <= ISIZE_MAX
    }
  }

  /** A size the allocator adds to its word: a multiple of the requested alignment. */
  ghost predicate Rounded(size: nat, align: nat) {
    IsAlignment(align) && align > 0 && size % align == 0 && size <= ISIZE_MAX
  }

  /** The mask form used by the source. */
  function AlignUp(value: nat, align: nat): (r: nat)
    requires 1 <= align < WORD
  {
    WordIsPow2();
    And(value + align - 1, Not(64, align - 1))
  }

  lemma {:induction false} AlignUpValue(value: nat, align: nat, k: nat)
    requires k < 64 && align == Pow2(k) && value + align - 1 < WORD
    ensures align < WORD
    ensures AlignUp(value, align) == (value + align - 1) - (value + align - 1) % align
  {
    WordIsPow2();
    Pow2Monotone(k + 1, 64);
    AndMask(value + align - 1, 64, k);
  }

  /** The least multiple of `a` that is not below `v`. */
  ghost predicate IsLeastMultiple(r: nat, v: nat, a: nat)
    requires a > 0
  {
    r % a == 0 && v <= r && forall m: nat :: m % a == 0 && m >= v ==> r <= m
  }

  lemma {:induction false} Distribute(q: int, p: int, a: int)
    ensures q * a - p * a == (q - p) * a
  {
  }

  lemma {:induction false} MultiplesApart(m: nat, r: nat, a: nat)
    requires a > 0 && m % a == 0 && r % a == 0 && m < r
    ensures m + a <= r
  {
    var p, q := m / a, r / a;
    assert m == p * a && r == q * a;
    Distribute(q, p, a);
    if q > p { TimesAtLeast(q - p, a); } else { NonPositive(q - p, a); }
  }

  lemma {:induction false} NonPositive(c: int, a: int)
    requires c <= 0 <= a
    ensures c * a <= 0
  {
  }

  lemma {:induction false} RoundUpIsLeast(v: nat, a: nat, r: nat)
    requires a > 0 && r == (v + a - 1) - (v + a - 1) % a
    ensures IsLeastMultiple(r, v, a) && r < v + a
  {
    DivModUnique(r, a, (v + a - 1) / a, 0);
    forall m: nat | m % a == 0 && m >= v
      ensures r <= m
    {
      if m < r { MultiplesApart(m, r, a); }
    }
  }

  /** The mask form is the least multiple of the alignment that is not below the value. */
  lemma {:induction false} AlignUpIsLeastMultiple(value: nat, align: nat, k: nat)
    requires k < 64 && align == Pow2(k) && value + align - 1 < WORD
    ensures align < WORD
    ensures IsLeastMultiple(AlignUp(value, align), value, align)
    ensures AlignUp(value, align) < value + align
  {
    AlignUpValue(value, align, k);
    RoundUpIsLeast(value, align, AlignUp(value, align));
  }

  /** What `alloc` adds for a valid layout is a rounded size, at least as large as asked for. */
  lemma {:induction false} LayoutRounds(l: Layout)
    requires l.Valid()
    ensures 1 <= l.align < WORD
    ensures Rounded(AlignUp(l.size, l.align), l.align)
    ensures l.size <= AlignUp(l.size, l.align) < l.size + l.align
  {
    var k: nat :| k < 64 && l.align == Pow2(k);
    AlignUpIsLeastMultiple(l.size, l.align, k);
  }
}

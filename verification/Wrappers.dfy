/** Option and Result values shared by every module, and the u64 helpers the source uses. */
module Wrappers {
  datatype Option<+T> = None | Some(value: T) {
    function UnwrapOr(default: T): T {
      if Some? then value else default
    }
  }

  datatype Result<+T, +E> = Success(value: T) | Failure(error: E)

  const U64_MAX: nat := 0xffff_ffff_ffff_ffff

  function Min(a: int, b: int): int {
    if a < b then a else b
  }

  function Max(a: int, b: int): int {
    if a < b then b else a
  }

  /** `u64::saturating_add`. */
  function SaturatingAdd(a: nat, b: nat): nat {
    Min(a + b, U64_MAX)
  }

  /** `u64::saturating_sub`. */
  function SaturatingSub(a: nat, b: nat): nat {
    Max(a - b, 0)
  }

  /** `u64::saturating_mul`. */
  function SaturatingMul(a: nat, b: nat): nat {
    Min(a * b, U64_MAX)
  }

  /** `u64::checked_mul`. */
  function CheckedMul(a: nat, b: nat): Option<nat> {
    if a * b <= U64_MAX then Some(a * b) else None
  }

  /** Two sets in one-to-one correspondence have the same size. */
  lemma {:induction false} SameSize<A, B>(a: set<A>, b: set<B>, f: A -> B)
    requires forall x :: x in a ==> f(x) in b
    requires forall y :: y in b ==> exists x :: x in a && f(x) == y
    requires forall x, y :: x in a && y in a && f(x) == f(y) ==> x == y
    ensures |a| == |b|
    decreases a
  {
    if a == {} {
      assert b == {};
    } else {
      var x :| x in a;
      forall y | y in b - {f(x)} ensures exists z :: z in a - {x} && f(z) == y {
        var z :| z in a && f(z) == y;
        assert z in a - {x};
      }
      SameSize(a - {x}, b - {f(x)}, f);
    }
  }

  lemma {:induction false} MultiplesGrow(a: nat, b: nat, d: nat)
    requires a < b
    ensures a * d + d <= b * d
  {
    assert b * d == (b - 1) * d + d;
    if a < b - 1 {
      MultiplesGrow(a, b - 1, d);
    }
  }

  lemma DivisionUnique(i: nat, d: nat, q: nat, r: nat)
    requires d >= 1 && i == q * d + r && r < d
    ensures q == i / d && r == i % d
  {
    var quotient: nat := i / d;
    assert i == quotient * d + i % d;
    if q < quotient {
      MultiplesGrow(q, quotient, d);
    } else if quotient < q {
      MultiplesGrow(quotient, q, d);
    }
  }
}

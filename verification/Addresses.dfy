/** 64-bit addresses, and how pointers add and subtract. */
module Addresses {
  const TWO64 := 0x1_0000_0000_0000_0000

  type Address = a: int | 0 <= a < 0x1_0000_0000_0000_0000

  function Wrap(a: int): Address {
    a % TWO64
  }

  /** The distance from `b` to `a`, as a signed 64-bit number. */
  function Distance(a: Address, b: Address): int {
    var d := a - b;
    if d >= TWO64 / 2 then d - TWO64 else if d < -TWO64 / 2 then d + TWO64 else d
  }

  lemma WrapTwice(a: int, b: int, c: int)
    ensures Wrap(Wrap(a + b) + c) == Wrap(a + (b + c))
  {
  }

  function Onward(a: Address, d: nat): Address {
    Wrap(a + d)
  }

  /** `b` is `k` bytes ahead of `a`: going on from the one is going on from the other, by as much more. */
  ghost predicate IsAhead(a: Address, k: nat, b: Address) {
    forall d: nat {:trigger Onward(b, d)} :: Onward(b, d) == Onward(a, k + d)
  }

  lemma AheadIff(a: Address, k: nat, b: Address)
    ensures IsAhead(a, k, b) <==> b == Wrap(a + k)
  {
    if IsAhead(a, k, b) {
      assert Onward(b, 0) == Onward(a, k + 0);
    }
    if b == Wrap(a + k) {
      forall d: nat
        ensures Onward(b, d) == Onward(a, k + d)
      {
        WrapTwice(a, k, d);
      }
    }
  }

  lemma NoneAhead(a: Address, b: Address)
    ensures IsAhead(a, 0, b) <==> b == a
  {
    AheadIff(a, 0, b);
  }

  /** From some bytes ahead, it is as many less. */
  lemma LessAhead(a: Address, k: nat, n: nat, b: Address)
    requires IsAhead(a, k + n, b)
    ensures IsAhead(Wrap(a + k), n, b) && (n == 0 ==> b == Wrap(a + k))
  {
    AheadIff(a, k + n, b);
    AheadIff(Wrap(a + k), n, b);
    WrapTwice(a, k, n);
  }
}

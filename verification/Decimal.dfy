/**
 Decimal numbers: Rust's `{}` formatting of a `u64` and `u64::from_str`.
 */
module Decimal {
  import opened Prelude

  predicate IsDigit(c: char) {
    '0' <= c <= '9'
  }

  predicate AllDigits(s: Bytes) {
    forall i :: 0 <= i < |s| ==> IsDigit(s[i])
  }

  function Digit(d: nat): (c: char)
    requires d < 10
    ensures IsDigit(c)
  {
    '0' + d as char
  }

  /** What `{}` prints for an unsigned integer. */
  function Dec(n: nat): Bytes {
    if n < 10 then [Digit(n)] else Dec(n / 10) + [Digit(n % 10)]
  }

  /** The number that a string of digits denotes. */
  function Value(s: Bytes): nat
    requires AllDigits(s)
  {
    if s == [] then 0
    else Value(s[..|s| - 1]) * 10 + (s[|s| - 1] as int - '0' as int)
  }

  /** `u64::from_str`: an optional leading `+`, then digits whose value fits. */
  function ParseU64(s: Bytes): Option<u64> {
    var t := if s != [] && s[0] == '+' then s[1..] else s;
    if t == [] || !AllDigits(t) || Value(t) > U64_MAX then None else Some(Value(t))
  }

  function Pow10(k: nat): (p: nat)
    ensures p >= 1
  {
    if k == 0 then 1 else 10 * Pow10(k - 1)
  }

  lemma {:induction false} DecDigits(n: nat)
    ensures |Dec(n)| >= 1 && AllDigits(Dec(n)) && Value(Dec(n)) == n
  {
    if n < 10 {
      assert Dec(n)[..0] == [];
    } else {
      DecDigits(n / 10);
      assert Dec(n)[..|Dec(n)| - 1] == Dec(n / 10);
    }
  }

  /** Reading back what was printed gives the number. */
  lemma PrintThenParse(n: u64)
    ensures ParseU64(Dec(n)) == Some(n)
  {
    DecDigits(n);
  }

  /** A number prints in at most `k` digits exactly when it is below `10^k`. */
  lemma {:induction false} DecLength(n: nat, k: nat)
    requires k >= 1
    ensures |Dec(n)| <= k <==> n < Pow10(k)
  {
    if n < 10 {
      if k > 1 {
        assert Pow10(k) >= 10;
      }
      assert Pow10(1) == 10;
    } else if k == 1 {
      DecDigits(n / 10);
      assert Pow10(1) == 10;
    } else {
      DecLength(n / 10, k - 1);
    }
  }

  /** A `u64` prints in at most 20 digits. */
  lemma U64Digits(n: u64)
    ensures 1 <= |Dec(n)| <= 20
  {
    DecDigits(n);
    Pow10Twenty();
    DecLength(n, 20);
  }

  lemma Pow10Twenty()
    ensures Pow10(20) == 1_0000_0000_0000_0000_0000
  {
    assert Pow10(5) == 1_0000_0 by {
      assert Pow10(2) == 100;
    }
    assert Pow10(10) == 1_0000_0000_00 by {
      assert Pow10(7) == 100 * Pow10(5);
    }
    assert Pow10(15) == 1_0000_0000_0000_000 by {
      assert Pow10(12) == 100 * Pow10(10);
    }
    assert Pow10(17) == 100 * Pow10(15);
  }

  /** A smaller number never prints longer. */
  lemma DecMonotone(m: nat, n: nat)
    requires m <= n
    ensures |Dec(m)| <= |Dec(n)|
  {
    DecDigits(n);
    DecLength(n, |Dec(n)|);
    DecLength(m, |Dec(n)|);
  }
}

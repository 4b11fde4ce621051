/** Remainders by a divisor that is not a constant: ring positions. */
module Modular {
  import opened Bytes

  lemma Small(n: nat, m: nat)
    requires m > 0
    ensures n < m ==> n % m == n
    ensures m <= n < 2 * m ==> n % m == n - m
  {
    if n < m {
      DivModUnique(n, m, 0, n);
    } else if n < 2 * m {
      DivModUnique(n, m, 1, n - m);
    }
  }

  lemma NextPlace(n: nat, m: nat)
    requires m > 0
    ensures (n + 1) % m == if n % m + 1 == m then 0 else n % m + 1
  {
    var q, r := n / m, n % m;
    assert n == m * q + r;
    if r + 1 == m {
      DivModUnique(n + 1, m, q + 1, 0);
    } else {
      DivModUnique(n + 1, m, q, r + 1);
    }
  }

  /** Less than m apart, two numbers have different places. */
  lemma Apart(j: nat, n: nat, m: nat)
    requires m > 0 && j < n < j + m
    ensures j % m != n % m
  {
    var a, b, r := j / m, n / m, n % m;
    assert j == m * a + j % m && n == m * b + r;
    if j % m == r {
      if b > a {
        MulAtLeast(m, b - a);
      } else if a > b {
        MulAtLeast(m, a - b);
      }
    }
  }

  lemma Shift(n: nat, m: nat)
    requires m > 0
    ensures (n + m) % m == n % m
  {
    assert n == m * (n / m) + n % m;
    DivModUnique(n + m, m, n / m + 1, n % m);
  }

  lemma {:induction false} Add(a: nat, b: nat, m: nat, x: nat)
    requires m > 0 && a % m == b % m
    ensures (a + x) % m == (b + x) % m
  {
    if x > 0 {
      Add(a, b, m, x - 1);
      NextPlace(a + x - 1, m);
      NextPlace(b + x - 1, m);
    }
  }
}

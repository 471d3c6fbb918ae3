/** Bitwise and, or, on natural numbers, and when they are plain arithmetic. */
module Bits {
  import opened Powers

  function And(a: nat, b: nat): nat {
    if a == 0 || b == 0 then 0
    else (if a % 2 == 1 && b % 2 == 1 then 1 else 0) + 2 * And(a / 2, b / 2)
  }

  function Or(a: nat, b: nat): nat {
    if a == 0 && b == 0 then 0
    else (if a % 2 == 1 || b % 2 == 1 then 1 else 0) + 2 * Or(a / 2, b / 2)
  }

  /** Masking with k ones keeps the low k bits. */
  lemma {:induction false} AndMask(a: nat, k: nat)
    ensures And(a, Pow(2, k) - 1) == a % Pow(2, k)
  {
    if k > 0 {
      AndMask(a / 2, k - 1);
      HalfRemainder(a, Pow(2, k - 1));
      AndOdd(a, Pow(2, k - 1) - 1);
    }
  }

  lemma AndOdd(a: nat, b: nat)
    ensures And(a, 2 * b + 1) == a % 2 + 2 * And(a / 2, b)
  {
    assert (2 * b + 1) % 2 == 1 && (2 * b + 1) / 2 == b;
    assert a == 0 ==> And(a / 2, b) == 0;
  }

  lemma HalfRemainder(a: nat, m: int)
    requires m >= 1
    ensures a % (2 * m) == a % 2 + 2 * (a / 2 % m)
  {
    var q, r := a / 2 / m, a / 2 % m;
    assert a == 2 * (q * m + r) + a % 2 == q * (2 * m) + (2 * r + a % 2);
    Remainder(a, q, 2 * m, 2 * r + a % 2);
  }

  lemma Remainder(a: int, q: int, m: int, r: int)
    requires a == q * m + r && 0 <= r < m
    ensures a / m == q && a % m == r
  {
    var d := a / m - q;
    assert a == (a / m) * m + a % m;
    assert d * m == r - a % m;
    if d > 0 {
      MultiplyMonotone(1, d, m);
    } else if d < 0 {
      MultiplyMonotone(d, -1, m);
    }
  }

  lemma {:induction false} AndShifted(a: nat, m: nat, k: nat)
    ensures And(a, m * Pow(2, k)) == And(a / Pow(2, k), m) * Pow(2, k)
  {
    hide And;
    if k > 0 {
      var p := Pow(2, k - 1);
      var x := And(a / 2 / p, m);
      AndShifted(a / 2, m, k - 1);
      AndTwice(a, p, m * p, x);
      DivideTwice(a, 2, p);
      DoubleOutside(m, p);
      assert Pow(2, k) == 2 * p;
      assert And(a / Pow(2, k), m) == x;
    }
  }

  lemma AndTwice(a: nat, p: nat, mask: nat, x: int)
    requires And(a / 2, mask) == x * p
    ensures And(a, 2 * mask) == x * (2 * p)
  {
    hide And;
    AndEven(a, mask);
    DoubleOutside(x, p);
  }

  lemma DoubleOutside(x: int, p: int)
    ensures x * (2 * p) == 2 * (x * p)
  {
  }

  lemma AndEven(a: nat, b: nat)
    ensures And(a, 2 * b) == 2 * And(a / 2, b)
  {
    assert 2 * b % 2 == 0 && 2 * b / 2 == b;
  }

  /** Masking with n ones above bit k tests whether the number has more than k bits. */
  lemma HighMask(a: nat, n: nat, k: nat)
    requires a < Pow(2, n) * Pow(2, k)
    ensures And(a, (Pow(2, n) - 1) * Pow(2, k)) == 0 <==> a < Pow(2, k)
  {
    hide And, Pow;
    var q, p := a / Pow(2, k), Pow(2, k);
    AndShifted(a, Pow(2, n) - 1, k);
    AndMask(q, n);
    DivideBelow(a, p, Pow(2, n));
    Remainder(q, 0, Pow(2, n), q);
    if q > 0 {
      MultiplyMonotone(1, q, p);
    }
  }

  /** Bits put beside each other add up. */
  lemma {:induction false} OrBeside(a: nat, b: nat, k: nat)
    requires b < Pow(2, k)
    ensures Or(a * Pow(2, k), b) == a * Pow(2, k) + b
  {
    if k == 0 {
      OrZero(a);
    } else {
      hide Or;
      var high := a * Pow(2, k - 1);
      OrBeside(a, b / 2, k - 1);
      OrEven(high, b);
      MultiplyAssociates(a, 2, Pow(2, k - 1));
      MultiplyAssociates(2, a, Pow(2, k - 1));
      assert Or(2 * high, b) == 2 * high + b;
    }
  }

  lemma OrEven(x: nat, b: nat)
    ensures Or(2 * x, b) == b % 2 + 2 * Or(x, b / 2)
  {
    assert 2 * x % 2 == 0 && 2 * x / 2 == x;
  }

  lemma {:induction false} OrZero(a: nat)
    ensures Or(a, 0) == a
  {
    if a > 0 {
      OrZero(a / 2);
    }
  }

  /** A single bit is set or not. */
  lemma {:induction false} AndBit(k: nat, a: nat)
    ensures And(Pow(2, k), a) != 0 <==> a / Pow(2, k) % 2 == 1
  {
    if k == 0 {
      assert And(0, a / 2) == 0;
    } else {
      AndBit(k - 1, a / 2);
      DivideTwice(a, 2, Pow(2, k - 1));
      assert Pow(2, k) % 2 == 0 && Pow(2, k) / 2 == Pow(2, k - 1);
    }
  }

  lemma DivideTwice(a: nat, m: int, n: int)
    requires 1 <= m && 1 <= n
    ensures a / m / n == a / (m * n)
  {
    var q, r := a / m / n, a / m % n;
    assert a == (q * n + r) * m + a % m;
    Distribute(q * n, r, m);
    MultiplyAssociates(q, n, m);
    MultiplyMonotone(r, n - 1, m);
    Distribute(n, -1, m);
    Remainder(a, q, n * m, r * m + a % m);
  }

  lemma {:induction false} AndCommutes(a: nat, b: nat)
    ensures And(a, b) == And(b, a)
  {
    if a > 0 && b > 0 {
      AndCommutes(a / 2, b / 2);
    }
  }

  lemma {:induction false} OrCommutes(a: nat, b: nat)
    ensures Or(a, b) == Or(b, a)
  {
    if a > 0 || b > 0 {
      OrCommutes(a / 2, b / 2);
    }
  }
}

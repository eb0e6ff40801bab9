/** Powers, positional values and congruences: the arithmetic every other module shares. */
module Arithmetic {

  function Pow(b: int, e: nat): int {
    if e == 0 then 1 else b * Pow(b, e - 1)
  }

  lemma {:induction false} PowPositive(b: int, e: nat)
    requires b > 0
    ensures Pow(b, e) > 0
  {
    if e > 0 {
      PowPositive(b, e - 1);
    }
  }

  lemma {:induction false} PowAdd(b: int, e: nat, f: nat)
    ensures Pow(b, e + f) == Pow(b, e) * Pow(b, f)
  {
    if e > 0 {
      PowAdd(b, e - 1, f);
      MulAssoc(b, Pow(b, e - 1), Pow(b, f));
    }
  }

  lemma {:induction false} PowMonotone(b: int, e: nat, f: nat)
    requires b >= 1 && e <= f
    ensures Pow(b, e) <= Pow(b, f)
  {
    if e < f {
      PowMonotone(b, e, f - 1);
      PowPositive(b, f - 1);
      MulLe(1, b, Pow(b, f - 1));
    }
  }

  lemma MulAssoc(x: int, y: int, z: int)
    ensures (x * y) * z == x * (y * z)
  {
  }

  lemma Distribute(b: int, w: int, d: int, p: int)
    ensures b * (w + d * p) == b * w + d * (b * p)
  {
    assert b * (d * p) == d * (b * p);
  }

  lemma MulLe(x: int, y: int, z: int)
    requires x <= y && z >= 0
    ensures x * z <= y * z
  {
  }

  lemma MulStrictlyBetween(k: int, m: int)
    requires -m < k * m < m
    ensures k == 0
  {
    if k > 0 {
      MulLe(1, k, m);
    } else if k < 0 {
      MulLe(k, -1, m);
    }
  }

  // ----- little-endian positional values -----

  /** The number written by `s` in base `b`, least significant digit first. */
  function LeValue(b: int, s: seq<int>): int {
    if s == [] then 0 else s[0] + b * LeValue(b, s[1..])
  }

  predicate Digits(b: int, s: seq<int>) {
    forall i :: 0 <= i < |s| ==> 0 <= s[i] < b
  }

  lemma {:induction false} LeAppend(b: int, s: seq<int>, t: seq<int>)
    ensures LeValue(b, s + t) == LeValue(b, s) + Pow(b, |s|) * LeValue(b, t)
  {
    if s == [] {
      assert s + t == t;
    } else {
      assert (s + t)[1..] == s[1..] + t;
      LeAppend(b, s[1..], t);
      Distribute(b, LeValue(b, s[1..]), LeValue(b, t), Pow(b, |s| - 1));
    }
  }

  /** One more digit at the top. */
  lemma LeSnoc(b: int, s: seq<int>, k: nat)
    requires k < |s|
    ensures LeValue(b, s[..k + 1]) == LeValue(b, s[..k]) + s[k] * Pow(b, k)
  {
    assert s[..k + 1] == s[..k] + [s[k]];
    LeAppend(b, s[..k], [s[k]]);
    assert LeValue(b, [s[k]]) == s[k] + b * LeValue(b, []);
  }

  lemma LeAppendDigit(b: int, s: seq<int>, x: int)
    ensures LeValue(b, s + [x]) == LeValue(b, s) + x * Pow(b, |s|)
  {
    LeSnoc(b, s + [x], |s|);
    assert (s + [x])[..|s|] == s && (s + [x])[..|s| + 1] == s + [x];
  }

  lemma {:induction false} LeUpdate(b: int, s: seq<int>, k: nat, x: int)
    requires k < |s|
    ensures LeValue(b, s[k := x]) == LeValue(b, s) + (x - s[k]) * Pow(b, k)
  {
    if k == 0 {
      assert s[0 := x][1..] == s[1..];
    } else {
      assert s[k := x][1..] == s[1..][k - 1 := x];
      LeUpdate(b, s[1..], k - 1, x);
      Distribute(b, LeValue(b, s[1..]), x - s[k], Pow(b, k - 1));
    }
  }

  lemma {:induction false} LeBound(b: int, s: seq<int>)
    requires b > 0 && Digits(b, s)
    ensures 0 <= LeValue(b, s) < Pow(b, |s|)
  {
    if s != [] {
      LeBound(b, s[1..]);
      DigitBound(b, s[0], LeValue(b, s[1..]), Pow(b, |s| - 1));
    }
  }

  lemma DigitBound(b: int, digit: int, v: int, p: int)
    requires 0 <= digit < b && 0 <= v < p
    ensures 0 <= digit + b * v < b * p
  {
    MulLe(0, v, b);
    MulLe(v, p - 1, b);
    assert (p - 1) * b == b * p - b;
  }

  /** A digit that is not zero puts the value at or above its weight. */
  lemma {:induction false} LeAtLeast(b: int, s: seq<int>, k: nat)
    requires b > 0 && Digits(b, s) && k < |s| && s[k] != 0
    ensures LeValue(b, s) >= Pow(b, k)
  {
    var v := LeValue(b, s[1..]);
    LeBound(b, s[1..]);
    if k == 0 {
      MulLe(0, v, b);
    } else {
      LeAtLeast(b, s[1..], k - 1);
      MulLe(Pow(b, k - 1), v, b);
    }
  }

  lemma {:induction false} LeUnique(b: int, s: seq<int>, t: seq<int>)
    requires b > 0 && Digits(b, s) && Digits(b, t) && |s| == |t|
    requires LeValue(b, s) == LeValue(b, t)
    ensures s == t
  {
    if s != [] {
      var v, w := LeValue(b, s[1..]), LeValue(b, t[1..]);
      DivModUnique(LeValue(b, s), v, s[0], b);
      DivModUnique(LeValue(b, t), w, t[0], b);
      LeUnique(b, s[1..], t[1..]);
      assert s == [s[0]] + s[1..];
      assert t == [t[0]] + t[1..];
    }
  }

  /** Digits of the value from the top: the leading digit decides a comparison. */
  lemma LeTopDigit(b: int, s: seq<int>, t: seq<int>, k: nat)
    requires b > 0 && Digits(b, s) && Digits(b, t) && |s| == |t| && k < |s|
    requires s[k + 1..] == t[k + 1..] && s[k] > t[k]
    ensures LeValue(b, s) > LeValue(b, t)
  {
    assert s == s[..k + 1] + s[k + 1..] && t == t[..k + 1] + t[k + 1..];
    LeAppend(b, s[..k + 1], s[k + 1..]);
    LeAppend(b, t[..k + 1], t[k + 1..]);
    LeSnoc(b, s, k);
    LeSnoc(b, t, k);
    LeBound(b, s[..k]);
    LeBound(b, t[..k]);
    MulLe(t[k] + 1, s[k], Pow(b, k));
    assert (t[k] + 1) * Pow(b, k) == t[k] * Pow(b, k) + Pow(b, k);
  }

  // ----- division and congruence -----

  lemma DivModUnique(x: int, q: int, r: int, m: int)
    requires m > 0 && 0 <= r < m && x == m * q + r
    ensures x / m == q && x % m == r
  {
    var q', r' := x / m, x % m;
    assert x == m * q' + r' && 0 <= r' < m;
    assert (q - q') * m == m * q - m * q';
    MulStrictlyBetween(q - q', m);
  }

  /** Adding a multiple of the modulus changes no residue. */
  lemma ModShift(x: int, y: int, k: int, m: int)
    requires m > 0 && x == y + k * m
    ensures x % m == y % m
  {
    assert x == m * (y / m + k) + y % m by {
      assert m * (y / m + k) == m * (y / m) + k * m;
    }
    DivModUnique(x, y / m + k, y % m, m);
  }

  lemma ModDiff(x: int, y: int, m: int)
    requires m > 0 && x % m == y % m
    ensures x == y + (x / m - y / m) * m
  {
    assert (x / m - y / m) * m == m * (x / m) - m * (y / m);
  }

  lemma ModSmall(x: int, m: int)
    requires 0 <= x < m
    ensures x % m == x
  {
    DivModUnique(x, 0, x, m);
  }

  lemma ModAdd(x: int, y: int, m: int)
    requires m > 0
    ensures (x % m + y % m) % m == (x + y) % m
    ensures (x + y % m) % m == (x + y) % m
    ensures (x % m + y) % m == (x + y) % m
  {
    ModAddLeft(x, y, m);
    ModAddLeft(y, x, m);
    ModAddLeft(x, y % m, m);
  }

  lemma ModAddLeft(x: int, y: int, m: int)
    requires m > 0
    ensures (x % m + y) % m == (x + y) % m
  {
    assert x + y == x % m + y + (x / m) * m;
    ModShift(x + y, x % m + y, x / m, m);
  }

  lemma ModMul(x: int, y: int, m: int)
    requires m > 0
    ensures ((x % m) * (y % m)) % m == (x * y) % m
    ensures (x * (y % m)) % m == (x * y) % m
    ensures ((x % m) * y) % m == (x * y) % m
  {
    ModMulLeft(x, y, m);
    ModMulLeft(y, x, m);
    ModMulLeft(x, y % m, m);
    assert y * x == x * y && (y % m) * x == x * (y % m);
  }

  lemma ModMulLeft(x: int, y: int, m: int)
    requires m > 0
    ensures ((x % m) * y) % m == (x * y) % m
  {
    var i, r := x / m, x % m;
    assert x == m * i + r;
    assert (m * i + r) * y == r * y + (i * y) * m;
    ModShift(x * y, r * y, i * y, m);
  }

  // ----- halving an index -----

  /** `n` shifted right by `l` bits. */
  function Shr(n: nat, l: nat): nat {
    if l == 0 then n else Shr(n, l - 1) / 2
  }

  lemma {:induction false} ShrBound(n: nat, l: nat)
    ensures Pow(2, l) * Shr(n, l) <= n < Pow(2, l) * (Shr(n, l) + 1)
  {
    if l > 0 {
      ShrBound(n, l - 1);
      PowPositive(2, l - 1);
      HalfBounds(Pow(2, l - 1), Shr(n, l - 1), n);
    }
  }

  lemma HalfBounds(p: int, s: nat, n: int)
    requires p >= 0 && p * s <= n < p * (s + 1)
    ensures (2 * p) * (s / 2) <= n < (2 * p) * (s / 2 + 1)
  {
    var h := s / 2;
    assert 2 * h <= s <= 2 * h + 1;
    MulLe(2 * h, s, p);
    MulLe(s + 1, 2 * h + 2, p);
    assert (2 * p) * h == (2 * h) * p;
    assert (2 * p) * (h + 1) == (2 * h + 2) * p;
  }

  lemma ShrSmall(n: nat, l: nat)
    requires n < Pow(2, l)
    ensures Shr(n, l) == 0
  {
    ShrBound(n, l);
    var p, s := Pow(2, l), Shr(n, l);
    assert p * s == s * p;
    MulStrictlyBetween(s, p);
  }

  lemma {:induction false} ShrMonotone(m: nat, n: nat, l: nat)
    requires m <= n
    ensures Shr(m, l) <= Shr(n, l)
  {
    if l > 0 {
      ShrMonotone(m, n, l - 1);
    }
  }

  lemma {:induction false} ShrSucc(n: nat, l: nat)
    ensures Shr(n + 1, l) == Shr(n, l) || Shr(n + 1, l) == Shr(n, l) + 1
  {
    if l > 0 {
      ShrSucc(n, l - 1);
    }
  }
}

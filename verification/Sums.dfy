/** Sums over finite maps and sequences, and the rounding arithmetic the allocator uses. */
module Sums {

  ghost function Total(m: map<int, int>): int {
    if exists k :: k in m then
      var k :| k in m;
      m[k] + Total(m - {k})
    else
      0
  }

  /** The order in which the entries are summed does not matter. */
  lemma {:induction false} TotalRemove(m: map<int, int>, k: int)
    requires k in m
    ensures Total(m) == m[k] + Total(m - {k})
    decreases |m|
  {
    var j :| j in m && Total(m) == m[j] + Total(m - {j});
    if j != k {
      TotalRemove(m - {j}, k);
      TotalRemove(m - {k}, j);
      assert m - {j} - {k} == m - {k} - {j};
    }
  }

  lemma TotalAdd(m: map<int, int>, k: int, v: int)
    requires k !in m
    ensures Total(m[k := v]) == Total(m) + v
  {
    TotalRemove(m[k := v], k);
    assert m[k := v] - {k} == m;
  }

  function AddUp(s: seq<int>): int {
    if s == [] then 0 else AddUp(s[..|s| - 1]) + s[|s| - 1]
  }

  lemma {:induction false} AddUpdate(s: seq<int>, i: int, v: int)
    requires 0 <= i < |s|
    ensures AddUp(s[i := v]) == AddUp(s) - s[i] + v
  {
    var t, n := s[i := v], |s| - 1;
    if i == n {
      assert t[..n] == s[..n];
    } else {
      AddUpdate(s[..n], i, v);
      assert t[..n] == s[..n][i := v];
    }
  }

  lemma {:induction false} AddZeros(n: nat)
    ensures AddUp(seq(n, _ => 0)) == 0
  {
    if n > 0 {
      AddZeros(n - 1);
      assert seq(n, _ => 0)[..n - 1] == seq(n - 1, _ => 0);
    }
  }

  /** The least multiple of `m` that is at least `x`. */
  function RoundUp(x: int, m: int): (y: int)
    requires 0 < m && 0 <= x
    ensures x <= y < x + m && y % m == 0 && (x > 0 ==> m <= y)
  {
    var q := (x + m - 1) / m;
    assert q * m % m == 0 by { MulMod(q, m); }
    assert x > 0 ==> m <= q * m by { if x > 0 { MulLe(1, q, m); } }
    q * m
  }

  function RoundDown(x: int, m: int): (y: int)
    requires 0 < m && 0 <= x
    ensures x - m < y <= x && y % m == 0 && 0 <= y
  {
    var q := x / m;
    assert q * m % m == 0 by { MulMod(q, m); }
    q * m
  }

  lemma MulMod(q: int, m: int)
    requires 0 < m
    ensures q * m % m == 0
  {
    var x := q * m;
    var d := q - x / m;
    assert d * m == x % m;
    if d >= 1 { MulLe(1, d, m); }
    if d <= -1 { MulLe(d, -1, m); }
  }

  lemma MulLe(x: int, y: int, m: int)
    requires x <= y && 0 <= m
    ensures x * m <= y * m
  {
  }

  lemma ModAdd(x: int, y: int, m: int)
    requires 0 < m && x % m == 0 && y % m == 0
    ensures (x + y) % m == 0 && (x - y) % m == 0
  {
    var p, q := x / m, y / m;
    assert x == p * m && y == q * m;
    MulMod(p + q, m);
    MulMod(p - q, m);
    assert (p + q) * m == x + y && (p - q) * m == x - y;
  }

  lemma ModRest(x: int, m: int)
    requires 0 < m
    ensures (x - x % m) % m == 0
  {
    MulMod(x / m, m);
    assert x - x % m == x / m * m;
  }

  lemma RoundUpIs(x: int, m: int, y: int)
    requires 0 < m && 0 <= x && y % m == 0 && y - m < x <= y
    ensures RoundUp(x, m) == y
  {
    hide RoundUp;
    var d := RoundUp(x, m) - y;
    ModAdd(RoundUp(x, m), y, m);
    SmallMultiple(d, m);
  }

  lemma SmallMultiple(d: int, m: int)
    requires 0 < m && d % m == 0 && -m < d < m
    ensures d == 0
  {
  }

  lemma Residue(x: int, q: int, r: int, m: int)
    requires 0 < m && x == q * m + r && 0 <= r < m
    ensures x % m == r
  {
    assert x == (x / m) * m + x % m;
    var d := x / m - q;
    assert d * m == r - x % m;
    assert d > 0 ==> d * m >= m;
    assert d < 0 ==> d * m + m <= 0;
  }
}

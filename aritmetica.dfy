/** Remainders, as the position arithmetic needs them. */
module Aritmetica {

  /** Adding one commutes with taking the remainder. */
  lemma SiguienteModulo(v: int, m: int)
    requires m >= 1
    ensures (v % m + 1) % m == (v + 1) % m
  {
    var q, r := v / m, v % m;
    assert v == q * m + r && 0 <= r < m;
    if r + 1 < m {
      ModuloUnico(v + 1, q, m, r + 1);
      ModuloUnico(r + 1, 0, m, r + 1);
    } else {
      assert v + 1 == (q + 1) * m + 0;
      ModuloUnico(v + 1, q + 1, m, 0);
      ModuloUnico(r + 1, 1, m, 0);
    }
  }

  /** Below twice the modulus, the remainder is the value itself or one modulus less. */
  lemma RestoPequeno(x: int, m: int)
    requires m >= 1 && 0 <= x < 2 * m
    ensures x % m == if x < m then x else x - m
  {
    if x < m {
      ModuloUnico(x, 0, m, x);
    } else {
      ModuloUnico(x, 1, m, x - m);
    }
  }

  /** x written as q * m + r with 0 <= r < m leaves remainder r. */
  lemma ModuloUnico(x: int, q: int, m: int, r: int)
    requires m >= 1 && 0 <= r < m && x == q * m + r
    ensures x % m == r
  {
    var q2, r2 := x / m, x % m;
    assert x == q2 * m + r2 && 0 <= r2 < m;
    assert (q - q2) * m == r2 - r by {
      assert q * m - q2 * m == (q - q2) * m;
    }
    if q > q2 {
      AlMenosUnaVez(q - q2, m);
    } else if q < q2 {
      AlMenosUnaVez(q2 - q, m);
    }
  }

  lemma {:induction false} AlMenosUnaVez(d: int, m: int)
    requires d >= 1 && m >= 1
    ensures d * m >= m
    decreases d
  {
    if d > 1 {
      AlMenosUnaVez(d - 1, m);
      assert d * m == (d - 1) * m + m;
    }
  }
}

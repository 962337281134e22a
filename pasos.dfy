/**
 * The stepping of the rotor stack, on positions: rotor 0 advances on every key press, and rotor i
 * advances when rotor i - 1 has advanced and now sits at its mark, position 0 (a carry).
 */
module Pasos {
  import opened Aritmetica
  import opened Rotores

  /** Every position is one of the 26 rotor positions. */
  predicate EnRango(ps: seq<int>)
  {
    forall i :: 0 <= i < |ps| ==> 0 <= ps[i] < 26
  }

  /** The positions after one key press. */
  function Avance(ps: seq<int>): (qs: seq<int>)
    requires EnRango(ps)
    ensures |qs| == |ps| && EnRango(qs)
  {
    if ps == [] then []
    else
      var p := Siguiente(ps[0]);
      if p == 0 then [p] + Avance(ps[1..]) else [p] + ps[1..]
  }

  /** The positions after k key presses. */
  function AvanceN(ps: seq<int>, k: nat): (qs: seq<int>)
    requires EnRango(ps)
    ensures |qs| == |ps| && EnRango(qs)
  {
    if k == 0 then ps else Avance(AvanceN(ps, k - 1))
  }

  /** Whether the rotors before the j-th all sat at position 25 (so all of them wrap to 0). */
  predicate TodosAlFinal(ps: seq<int>, j: nat)
    requires j <= |ps|
  {
    forall k :: 0 <= k < j ==> ps[k] == 25
  }

  lemma TodosAlFinalUnoMas(ps: seq<int>, j: nat)
    requires j < |ps| && TodosAlFinal(ps, j) && ps[j] == 25
    ensures TodosAlFinal(ps, j + 1)
  {
  }

  /**
   * Rotor j advances exactly when every earlier rotor advanced and wrapped to 0; otherwise it
   * keeps its position. In particular rotor 0 always advances.
   */
  lemma {:induction false} AvanceEn(ps: seq<int>, j: nat)
    requires EnRango(ps) && j < |ps|
    ensures Avance(ps)[j] == if TodosAlFinal(ps, j) then Siguiente(ps[j]) else ps[j]
  {
    if j > 0 {
      if ps[0] == 25 {
        AvanceEn(ps[1..], j - 1);
        assert TodosAlFinal(ps, j) <==> TodosAlFinal(ps[1..], j - 1) by {
          if TodosAlFinal(ps[1..], j - 1) {
            forall k | 0 <= k < j ensures ps[k] == 25 {
              if k > 0 { assert ps[1..][k - 1] == ps[k]; }
            }
          }
        }
      } else {
        assert !TodosAlFinal(ps, j);
      }
    }
  }

  /** The positions once the first i rotors have advanced and the others have not yet. */
  function Parcial(ps: seq<int>, i: nat): (qs: seq<int>)
    requires EnRango(ps)
    ensures |qs| == |ps| && EnRango(qs)
  {
    seq(|ps|, j requires 0 <= j < |ps| => if j < i then Siguiente(ps[j]) else ps[j])
  }

  /** Before any rotor has advanced, the positions are the old ones. */
  lemma ParcialCero(ps: seq<int>)
    requires EnRango(ps)
    ensures Parcial(ps, 0) == ps
  {
  }

  /** Advancing rotor i next extends the advanced prefix by one. */
  lemma ParcialUnoMas(ps: seq<int>, qs: seq<int>, i: nat)
    requires EnRango(ps) && i < |ps| && qs == Parcial(ps, i)
    ensures qs[i := Siguiente(ps[i])] == Parcial(ps, i + 1)
  {
  }

  /**
   * The stepping loop's result: the first i rotors advanced, every rotor before the (i - 1)-th
   * wrapped, and the loop stopped at the end or after a rotor that did not wrap.
   */
  lemma AvanceHasta(ps: seq<int>, i: nat)
    requires EnRango(ps) && 1 <= i <= |ps|
    requires TodosAlFinal(ps, i - 1) && (i == |ps| || ps[i - 1] != 25)
    ensures Parcial(ps, i) == Avance(ps)
  {
    var qs := Parcial(ps, i);
    forall j | 0 <= j < |ps| ensures qs[j] == Avance(ps)[j] {
      AvanceEn(ps, j);
      if j >= i {
        assert !TodosAlFinal(ps, j) by {
          assert ps[i - 1] != 25;
        }
      }
    }
  }

  /** The rotors that move form a prefix: once one keeps its place, so do all after it. */
  lemma PrefijoQueAvanza(ps: seq<int>, i: nat, j: nat)
    requires EnRango(ps) && i <= j < |ps| && Avance(ps)[i] == ps[i]
    ensures Avance(ps)[j] == ps[j]
  {
    QuietoSiNoTodosAlFinal(ps, i);
    var k :| 0 <= k < i && ps[k] != 25;
    assert !TodosAlFinal(ps, j);
    AvanceEn(ps, j);
  }

  lemma QuietoSiNoTodosAlFinal(ps: seq<int>, i: nat)
    requires EnRango(ps) && i < |ps| && Avance(ps)[i] == ps[i]
    ensures !TodosAlFinal(ps, i)
  {
    AvanceEn(ps, i);
  }

  /** From all positions 0, one key press moves rotor 0 to 1 and leaves the others at 0. */
  lemma AvanceDesdeCero(n: nat)
    requires n > 0
    ensures Avance(seq(n, _ => 0)) == [1] + seq(n - 1, _ => 0)
  {
    var ceros := seq(n, _ => 0);
    assert ceros[1..] == seq(n - 1, _ => 0);
  }

  function Potencia(n: nat): (m: nat)
    ensures m >= 1
  {
    if n == 0 then 1 else 26 * Potencia(n - 1)
  }

  /** The positions read as a number in base 26, rotor 0 the least significant digit. */
  function Valor(ps: seq<int>): (v: int)
    requires EnRango(ps)
    ensures 0 <= v < Potencia(|ps|)
  {
    if ps == [] then 0 else ps[0] + 26 * Valor(ps[1..])
  }

  /** A key press adds one to the base-26 reading, wrapping to 0 after 26^n - 1. */
  lemma {:induction false} ValorAvance(ps: seq<int>)
    requires EnRango(ps)
    ensures Valor(Avance(ps)) == if Valor(ps) + 1 == Potencia(|ps|) then 0 else Valor(ps) + 1
  {
    if ps != [] {
      ValorAvance(ps[1..]);
      if ps[0] == 25 {
        assert Avance(ps) == [0] + Avance(ps[1..]);
        assert Avance(ps)[1..] == Avance(ps[1..]);
      } else {
        assert Avance(ps)[1..] == ps[1..];
      }
    }
  }

  /** If va is v + (k - 1) modulo m, one more (wrapping at m) is v + k modulo m. */
  lemma UnoMasModulo(v: int, k: nat, va: int, vn: int, m: int)
    requires m >= 1 && k >= 1 && va == (v + (k - 1)) % m
    requires vn == if va + 1 == m then 0 else va + 1
    ensures vn == (v + k) % m
  {
    MasUnoModulo(va, m);
    SiguienteModulo(v + (k - 1), m);
    assert v + (k - 1) + 1 == v + k;
  }

  lemma MasUnoModulo(v: int, m: int)
    requires 0 <= v < m
    ensures (v + 1) % m == if v + 1 == m then 0 else v + 1
  {
    if v + 1 == m {
      ModuloUnico(v + 1, 1, m, 0);
    } else {
      ModuloUnico(v + 1, 0, m, v + 1);
    }
  }

  /** k key presses add k to the base-26 reading, modulo 26^n (one press: exactly +1 modulo 26^n). */
  lemma {:induction false} ValorAvanceN(ps: seq<int>, k: nat)
    requires EnRango(ps)
    ensures Valor(AvanceN(ps, k)) == (Valor(ps) + k) % Potencia(|ps|)
  {
    var m := Potencia(|ps|);
    var v := Valor(ps);
    if k == 0 {
      ModuloUnico(v, 0, m, v);
    } else {
      var antes := AvanceN(ps, k - 1);
      ValorAvanceN(ps, k - 1);
      ValorAvance(antes);
      assert AvanceN(ps, k) == Avance(antes);
      UnoMasModulo(v, k, Valor(antes), Valor(AvanceN(ps, k)), m);
    }
  }
}

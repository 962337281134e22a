/** A rotor: a wired substitution turned by a position that advances with each key press. */
module Rotores {
  import opened Alfabeto
  import opened Resultados
  import opened Aritmetica

  /** The acceptance test of a rotor (or reflector) wiring: 26 characters, none repeated. */
  predicate CableadoCorrecto(cableado: string)
  {
    |cableado| == 26 && Distintos(cableado)
  }

  /**
   * For a wiring written in capital letters the test accepts exactly the permutations of the
   * alphabet: every letter occurs, and the wiring read as letters is a permutation.
   */
  lemma CableadoCorrectoSiiPermutacion(cableado: string)
    requires SoloMayusculas(cableado)
    ensures CableadoCorrecto(cableado) <==> |cableado| == 26 && forall y: Letra :: y in Indices(cableado)
    ensures CableadoCorrecto(cableado) <==> EsPermutacion(Indices(cableado))
  {
    var w := Indices(cableado);
    if |cableado| == 26 {
      Palomar(w);
      assert Distintos(cableado) <==> Distintos(w) by {
        if Distintos(cableado) {
          forall i, j | 0 <= i < j < 26 ensures w[i] != w[j] {
            assert cableado[i] != cableado[j];
          }
        }
        if Distintos(w) {
          forall i, j | 0 <= i < j < 26 ensures cableado[i] != cableado[j] {
            assert w[i] != w[j];
          }
        }
      }
    }
  }

  /** The signal through a rotor of wiring w at position p, entry side to reflector side. */
  function PasoDirecto(w: seq<Letra>, p: int, x: Letra): (y: Letra)
    requires EsPermutacion(w) && 0 <= p < 26
    ensures Inversa(w)[y] == (x + p) % 26
  {
    w[(x + p) % 26]
  }

  /** The signal through the same rotor in the other direction. */
  function PasoInverso(w: seq<Letra>, p: int, y: Letra): (x: Letra)
    requires EsPermutacion(w) && 0 <= p < 26
    ensures w[(x + p) % 26] == y
  {
    var a := Inversa(w)[y];
    RestoPequeno(a - p + 26, 26);
    RestoPequeno((a - p + 26) % 26 + p, 26);
    (a - p + 26) % 26
  }

  /** At every position the two directions of a rotor undo each other. */
  lemma RondaPaso(w: seq<Letra>, p: int, x: Letra)
    requires EsPermutacion(w) && 0 <= p < 26
    ensures PasoInverso(w, p, PasoDirecto(w, p, x)) == x
    ensures PasoDirecto(w, p, PasoInverso(w, p, x)) == x
  {
    // The forward step reaches wiring entry (x + p) % 26, and stepping back subtracts p again.
    var a := (x + p) % 26;
    RestoPequeno(x + p, 26);
    RestoPequeno(a - p + 26, 26);
  }

  /** The position a rotor moves to when it advances: it wraps from 25 to its mark, 0. */
  function Siguiente(p: int): (q: int)
    requires 0 <= p < 26
    ensures 0 <= q < 26 && q != p
    ensures q == 0 <==> p == 25
    ensures p < 25 ==> q == p + 1
  {
    RestoPequeno(p + 1, 26);
    (p + 1) % 26
  }

  /** The position after k advances from p. */
  function Avances(p: int, k: nat): (q: int)
    requires 0 <= p < 26
    ensures 0 <= q < 26
  {
    if k == 0 then p else Siguiente(Avances(p, k - 1))
  }

  /** k advances add k to the position, modulo 26. */
  lemma {:induction false} AvancesSuman(p: int, k: nat)
    requires 0 <= p < 26
    ensures Avances(p, k) == (p + k) % 26
  {
    if k == 0 {
      RestoPequeno(p, 26);
    } else {
      AvancesSuman(p, k - 1);
      SiguienteDeResto(p + (k - 1));
      assert p + (k - 1) + 1 == p + k;
    }
  }

  /** Advancing from the rest of v modulo 26 gives the rest of v + 1. */
  lemma SiguienteDeResto(v: int)
    ensures Siguiente(v % 26) == (v + 1) % 26
  {
    SiguienteModulo(v, 26);
  }

  /** 26 advances bring a rotor back to where it started. */
  lemma VueltaCompleta(p: int)
    requires 0 <= p < 26
    ensures Avances(p, 26) == p
  {
    AvancesSuman(p, 26);
  }

  class Rotor {
    const mapaDirecto: seq<Letra>
    const mapaInverso: seq<Letra>
    var posicion: int

    ghost predicate Valid()
      reads this
    {
      EsPermutacion(mapaDirecto) && mapaInverso == Inversa(mapaDirecto) && 0 <= posicion < 26
    }

    /** Builds the inverse table with one pass over the wiring, as the source does. */
    constructor (cableado: string, posicionInicial: nat)
      requires SoloMayusculas(cableado) && CableadoCorrecto(cableado)
      ensures Valid()
      ensures mapaDirecto == Indices(cableado)
      ensures posicion == posicionInicial % 26
    {
      CableadoCorrectoSiiPermutacion(cableado);
      var directo := Indices(cableado);
      var inverso := new Letra[26];
      for i := 0 to 26
        invariant forall j :: 0 <= j < i ==> inverso[directo[j]] == j
      {
        inverso[directo[i]] := i;
      }
      mapaDirecto := directo;
      mapaInverso := inverso[..];
      posicion := posicionInicial % 26;
      new;
      assert mapaInverso == Inversa(directo) by {
        forall y | 0 <= y < 26 ensures mapaInverso[y] == Inversa(directo)[y] {
          assert directo[Inversa(directo)[y]] == y;
        }
      }
    }

    /** The letter leaving the rotor towards the reflector. */
    function Adelante(letra: Letra): (r: Letra)
      reads this
      requires Valid()
      ensures (mapaInverso[r] - posicion + 26) % 26 == letra
    {
      mapaDirecto[(letra + posicion) % 26]
    }

    /** The letter leaving the rotor towards the keyboard. */
    function Atras(letra: Letra): (r: Letra)
      reads this
      requires Valid()
      ensures mapaDirecto[(r + posicion) % 26] == letra
    {
      (mapaInverso[letra] - posicion + 26) % 26
    }

    /** The rotor's two directions undo each other at its current position. */
    lemma Ronda(x: Letra)
      requires Valid()
      ensures Atras(Adelante(x)) == x && Adelante(Atras(x)) == x
    {
    }

    method Avanzar()
      requires Valid()
      modifies this
      ensures Valid()
      ensures posicion == Siguiente(old(posicion))
    {
      posicion := (posicion + 1) % 26;
    }

    /** Whether the rotor sits at its mark, position 0. */
    function EnMarca(): (b: bool)
      reads this
      ensures b <==> posicion == 0
    {
      posicion == 0
    }
  }

  /** The rotor constructor, including its rejection of a bad wiring. */
  method NuevoRotor(cableado: string, posicionInicial: nat) returns (r: Result<Rotor>)
    requires SoloMayusculas(cableado)
    ensures r.Fallo? <==> !CableadoCorrecto(cableado)
    ensures r.Fallo? ==> r.error == CableadoRotorInvalido
    ensures r.Ok? ==> fresh(r.value) && r.value.Valid()
    ensures r.Ok? ==> r.value.mapaDirecto == Indices(cableado) && r.value.posicion == posicionInicial % 26
  {
    if !CableadoCorrecto(cableado) {
      return Fallo(CableadoRotorInvalido);
    }
    var rotor := new Rotor(cableado, posicionInicial);
    return Ok(rotor);
  }
}

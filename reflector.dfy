/** The reflector: a fixed symmetric pairing of letters between the two rotor passes. */
module Reflectores {
  import opened Alfabeto
  import opened Resultados
  import Rotores

  datatype Reflector = Reflector(mapa: map<Letra, Letra>)
  {
    /** Every letter is wired, and the wiring is its own inverse. */
    ghost predicate Valid()
    {
      forall x: Letra :: x in mapa && mapa[x] in mapa && mapa[mapa[x]] == x
    }

    /** The letter the signal comes back on; reflecting it again gives `letra`. */
    function Reflejar(letra: Letra): (r: Letra)
      requires Valid()
      ensures mapa[r] == letra
    {
      mapa[letra]
    }
  }

  /** Reflecting twice is the identity. */
  lemma ReflejarInvolucion(r: Reflector, x: Letra)
    requires r.Valid()
    ensures r.Reflejar(r.Reflejar(x)) == x
  {
  }

  /** w pairs letters: applying it twice gives back every letter (fixed points allowed). */
  predicate EsInvolucion(w: seq<Letra>)
    requires |w| == 26
  {
    forall i :: 0 <= i < 26 ==> w[w[i]] == i
  }

  /**
   * What the constructor's loop checks at position i: a letter that w sends below i
   * must be sent back to i (the earlier pairing is already in the table).
   */
  predicate SinConflictoHasta(w: seq<Letra>, k: nat)
    requires |w| == 26 && k <= 26
  {
    forall i :: 0 <= i < k && w[i] < i ==> w[w[i]] == i
  }

  /**
   * For a permutation, checking only the letters sent downwards suffices:
   * if every such letter is paired back, every letter is.
   */
  lemma {:induction false} InvolucionPorDescenso(w: seq<Letra>, i: Letra)
    requires EsPermutacion(w) && SinConflictoHasta(w, 26)
    ensures w[w[i]] == i
    decreases 26 - i
  {
    var j := w[i];
    if j < i {
    } else if j == i {
    } else if w[j] < j {
      assert w[w[j]] == j;
    } else {
      // w[j] > j > i: pairing j back would send w[j] to w[i], so w[j] == i, which is impossible.
      InvolucionPorDescenso(w, j);
      assert false;
    }
  }

  lemma ConflictoSiiNoInvolucion(w: seq<Letra>)
    requires EsPermutacion(w)
    ensures SinConflictoHasta(w, 26) <==> EsInvolucion(w)
  {
    if SinConflictoHasta(w, 26) {
      forall i | 0 <= i < 26 ensures w[w[i]] == i {
        InvolucionPorDescenso(w, i);
      }
    }
  }

  /** inv undoes w and w undoes inv. */
  predicate Inversas(w: seq<Letra>, inv: seq<Letra>)
  {
    && |w| == 26 && |inv| == 26
    && (forall x :: 0 <= x < 26 ==> inv[w[x]] == x)
    && (forall y :: 0 <= y < 26 ==> w[inv[y]] == y)
  }

  /** The table holds the first i letters and the letters that the first i letters are sent to. */
  ghost predicate Claves(inv: seq<Letra>, mapa: map<Letra, Letra>, i: nat)
    requires |inv| == 26
  {
    forall k: Letra :: k in mapa <==> k < i || inv[k] < i
  }

  /** Each of the first i letters is paired with the letter w sends it to. */
  ghost predicate Directos(w: seq<Letra>, mapa: map<Letra, Letra>, i: nat)
    requires |w| == 26 && i <= 26
  {
    forall j :: 0 <= j < i ==> j in mapa && mapa[j] == w[j]
  }

  /** Each later letter reached from one of the first i letters is paired back with it. */
  ghost predicate Inversos(inv: seq<Letra>, mapa: map<Letra, Letra>, i: nat)
    requires |inv| == 26
  {
    forall k: Letra :: i <= k && inv[k] < i ==> k in mapa && mapa[k] == inv[k]
  }

  /** Whether the pairing table keeps, for the first i positions, what the loop has recorded. */
  ghost predicate Registrado(w: seq<Letra>, inv: seq<Letra>, mapa: map<Letra, Letra>, i: nat)
    requires |w| == 26 && |inv| == 26 && i <= 26
  {
    Claves(inv, mapa, i) && Directos(w, mapa, i) && Inversos(inv, mapa, i) && SinConflictoHasta(w, i)
  }

  /** The loop's test fails exactly on a letter sent below i that is not paired back with i. */
  lemma PasoConflicto(w: seq<Letra>, inv: seq<Letra>, mapa: map<Letra, Letra>, i: Letra)
    requires Inversas(w, inv) && Claves(inv, mapa, i) && Directos(w, mapa, i) && Inversos(inv, mapa, i)
    ensures w[i] in mapa && mapa[w[i]] != i <==> w[i] < i && w[w[i]] != i
  {
    var b := w[i];
    assert inv[b] == i;
  }

  lemma PasoClaves(w: seq<Letra>, inv: seq<Letra>, mapa: map<Letra, Letra>, i: Letra)
    requires Inversas(w, inv) && Claves(inv, mapa, i)
    ensures Claves(inv, mapa[i := w[i]][w[i] := i], i + 1)
  {
    var m := mapa[i := w[i]][w[i] := i];
    forall k: Letra ensures k in m <==> k < i + 1 || inv[k] < i + 1 {
      assert inv[k] == i ==> k == w[i];
    }
  }

  lemma PasoDirectos(w: seq<Letra>, inv: seq<Letra>, mapa: map<Letra, Letra>, i: Letra)
    requires Inversas(w, inv) && Directos(w, mapa, i) && SinConflictoHasta(w, i + 1)
    ensures Directos(w, mapa[i := w[i]][w[i] := i], i + 1)
  {
    var m := mapa[i := w[i]][w[i] := i];
    forall j | 0 <= j < i + 1 ensures j in m && m[j] == w[j] {
      if j == w[i] && j < i {
        assert w[w[i]] == i;
      }
    }
  }

  lemma PasoInversos(w: seq<Letra>, inv: seq<Letra>, mapa: map<Letra, Letra>, i: Letra)
    requires Inversas(w, inv) && Inversos(inv, mapa, i)
    ensures Inversos(inv, mapa[i := w[i]][w[i] := i], i + 1)
  {
    var m := mapa[i := w[i]][w[i] := i];
    forall k: Letra | i + 1 <= k && inv[k] < i + 1 ensures k in m && m[k] == inv[k] {
      assert inv[k] == i ==> k == w[i];
    }
  }

  /** One pass of the constructor's loop keeps the record, and fails only on a real conflict. */
  lemma PasoRegistro(w: seq<Letra>, inv: seq<Letra>, mapa: map<Letra, Letra>, i: Letra)
    requires Inversas(w, inv) && Registrado(w, inv, mapa, i)
    ensures w[i] in mapa && mapa[w[i]] != i <==> w[i] < i && w[w[i]] != i
    ensures !(w[i] in mapa && mapa[w[i]] != i) ==> Registrado(w, inv, mapa[i := w[i]][w[i] := i], i + 1)
  {
    PasoConflicto(w, inv, mapa, i);
    if !(w[i] in mapa && mapa[w[i]] != i) {
      assert SinConflictoHasta(w, i + 1);
      PasoClaves(w, inv, mapa, i);
      PasoDirectos(w, inv, mapa, i);
      PasoInversos(w, inv, mapa, i);
    }
  }

  /** After all 26 letters without a conflict, the wiring pairs letters and the table holds it. */
  lemma RegistroCompleto(w: seq<Letra>, inv: seq<Letra>, mapa: map<Letra, Letra>)
    requires EsPermutacion(w) && Inversas(w, inv) && Registrado(w, inv, mapa, 26)
    ensures EsInvolucion(w)
    ensures forall x: Letra :: x in mapa && mapa[x] == w[x]
  {
    ConflictoSiiNoInvolucion(w);
    assert Directos(w, mapa, 26);
  }

  /**
   * The constructor's loop over a permutation: records each pairing in both directions and
   * stops when a letter is already paired with another one.
   */
  method Emparejar(w: seq<Letra>) returns (ok: bool, mapa: map<Letra, Letra>)
    requires EsPermutacion(w)
    ensures ok <==> EsInvolucion(w)
    ensures ok ==> forall x: Letra :: x in mapa && mapa[x] == w[x]
  {
    ghost var inv := Inversa(w);
    assert Inversas(w, inv);
    mapa := map[];
    for i := 0 to 26
      invariant Registrado(w, inv, mapa, i)
    {
      var a: Letra, b := i, w[i];
      PasoRegistro(w, inv, mapa, i);
      if b in mapa && mapa[b] != a {
        return false, mapa;
      }
      mapa := mapa[a := b][b := a];
    }
    RegistroCompleto(w, inv, mapa);
    ok := true;
  }

  /** The reflector constructor: the wiring test, then the pairing loop. */
  method NuevoReflector(cableado: string) returns (r: Result<Reflector>)
    requires SoloMayusculas(cableado)
    ensures r.Ok? <==> Rotores.CableadoCorrecto(cableado) && EsInvolucion(Indices(cableado))
    ensures r.Fallo? ==> (r.error == if Rotores.CableadoCorrecto(cableado) then ReflectorNoSimetrico
                                     else CableadoReflectorInvalido)
    ensures r.Ok? ==> r.value.Valid()
    ensures r.Ok? ==> forall i :: 0 <= i < 26 ==> r.value.Reflejar(i) == Indices(cableado)[i]
  {
    if !Rotores.CableadoCorrecto(cableado) {
      return Fallo(CableadoReflectorInvalido);
    }
    Rotores.CableadoCorrectoSiiPermutacion(cableado);
    var ok, mapa := Emparejar(Indices(cableado));
    if !ok {
      return Fallo(ReflectorNoSimetrico);
    }
    return Ok(Reflector(mapa));
  }
}

/**
 * The machine: a plugboard, a stack of rotors and a reflector. Each letter typed first steps the
 * rotors, then travels plugboard, rotors 0..n-1, reflector, rotors n-1..0, plugboard.
 */
module Maquina {
  import opened Alfabeto
  import opened Resultados
  import opened Pasos
  import opened Rotores
  import opened Reflectores
  import opened Tableros

  /** Every entry is a rotor wiring. */
  predicate Cableados(ws: seq<seq<Letra>>)
  {
    forall i :: 0 <= i < |ws| ==> EsPermutacion(ws[i])
  }

  /** The parts of a machine that never change: rotor wirings in stack order, reflector, plugboard. */
  datatype Configuracion = Configuracion(cableados: seq<seq<Letra>>, reflector: Reflector, tablero: Tablero)
  {
    ghost predicate Valid()
    {
      Cableados(cableados) && reflector.Valid() && tablero.Valid()
    }
  }

  /** Positions that fit a configuration: one per rotor, each in 0..25. */
  predicate Ajustadas(c: Configuracion, ps: seq<int>)
  {
    |ps| == |c.cableados| && EnRango(ps)
  }

  /** The signal through the rotors towards the reflector: rotor 0 first. */
  function Ida(ws: seq<seq<Letra>>, ps: seq<int>, x: Letra): Letra
    requires Cableados(ws) && |ps| == |ws| && EnRango(ps)
    decreases |ws|
  {
    if ws == [] then x
    else
      var n := |ws| - 1;
      PasoDirecto(ws[n], ps[n], Ida(ws[..n], ps[..n], x))
  }

  /** The signal back through the rotors: the last rotor first. */
  function Vuelta(ws: seq<seq<Letra>>, ps: seq<int>, y: Letra): Letra
    requires Cableados(ws) && |ps| == |ws| && EnRango(ps)
    decreases |ws|
  {
    if ws == [] then y
    else
      var n := |ws| - 1;
      Vuelta(ws[..n], ps[..n], PasoInverso(ws[n], ps[n], y))
  }

  /** At fixed positions the way back through the rotor stack undoes the way there, and conversely. */
  lemma {:induction false} IdaYVuelta(ws: seq<seq<Letra>>, ps: seq<int>, x: Letra)
    requires Cableados(ws) && |ps| == |ws| && EnRango(ps)
    ensures Vuelta(ws, ps, Ida(ws, ps, x)) == x
    ensures Ida(ws, ps, Vuelta(ws, ps, x)) == x
    decreases |ws|
  {
    if ws != [] {
      var n := |ws| - 1;
      RondaPaso(ws[n], ps[n], Ida(ws[..n], ps[..n], x));
      IdaYVuelta(ws[..n], ps[..n], x);
      RondaPaso(ws[n], ps[n], x);
      IdaYVuelta(ws[..n], ps[..n], PasoInverso(ws[n], ps[n], x));
    }
  }

  /** The letter lit for key x when the rotors stand at ps. */
  function Sustituir(c: Configuracion, ps: seq<int>, x: Letra): Letra
    requires c.Valid() && Ajustadas(c, ps)
  {
    var entrada := c.tablero.Intercambiar(x);
    var ida := Ida(c.cableados, ps, entrada);
    var vuelta := Vuelta(c.cableados, ps, c.reflector.Reflejar(ida));
    c.tablero.Intercambiar(vuelta)
  }

  /** At fixed positions the substitution is its own inverse. */
  lemma SustituirInvolucion(c: Configuracion, ps: seq<int>, x: Letra)
    requires c.Valid() && Ajustadas(c, ps)
    ensures Sustituir(c, ps, Sustituir(c, ps, x)) == x
  {
    var ws := c.cableados;
    var ida := Ida(ws, ps, c.tablero.Intercambiar(x));
    var vuelta := Vuelta(ws, ps, c.reflector.Reflejar(ida));
    IntercambiarInvolucion(c.tablero, vuelta);
    IdaYVuelta(ws, ps, c.reflector.Reflejar(ida));
    ReflejarInvolucion(c.reflector, ida);
    IdaYVuelta(ws, ps, c.tablero.Intercambiar(x));
    IntercambiarInvolucion(c.tablero, x);
  }

  /** With a reflector that pairs no letter with itself, no letter is ever enciphered as itself. */
  lemma SinPuntoFijo(c: Configuracion, ps: seq<int>, x: Letra)
    requires c.Valid() && Ajustadas(c, ps)
    requires forall y: Letra :: c.reflector.Reflejar(y) != y
    ensures Sustituir(c, ps, x) != x
  {
    var ws := c.cableados;
    var ida := Ida(ws, ps, c.tablero.Intercambiar(x));
    var vuelta := Vuelta(ws, ps, c.reflector.Reflejar(ida));
    if Sustituir(c, ps, x) == x {
      IntercambiarInvolucion(c.tablero, vuelta);
      IntercambiarInvolucion(c.tablero, x);
      IdaYVuelta(ws, ps, c.reflector.Reflejar(ida));
    }
  }

  /**
   * The letters enciphered one after another from positions ps: before each letter the rotors
   * step once, so the k-th letter (from 0) is substituted at the positions after k + 1 steps.
   */
  function CifrarLetras(c: Configuracion, ps: seq<int>, xs: seq<Letra>): (ys: seq<Letra>)
    requires c.Valid() && Ajustadas(c, ps)
    ensures |ys| == |xs|
  {
    if xs == [] then []
    else
      var n := |xs| - 1;
      CifrarLetras(c, ps, xs[..n]) + [Sustituir(c, AvanceN(ps, n + 1), xs[n])]
  }

  /** The k-th letter is substituted at the positions left by k + 1 key presses. */
  lemma {:induction false} CifrarLetrasEn(c: Configuracion, ps: seq<int>, xs: seq<Letra>, k: nat)
    requires c.Valid() && Ajustadas(c, ps) && k < |xs|
    ensures CifrarLetras(c, ps, xs)[k] == Sustituir(c, AvanceN(ps, k + 1), xs[k])
  {
    var n := |xs| - 1;
    var antes := CifrarLetras(c, ps, xs[..n]);
    var ultima := Sustituir(c, AvanceN(ps, n + 1), xs[n]);
    EnUnoMas(CifrarLetras(c, ps, xs), antes, ultima, k);
    if k < n {
      CifrarLetrasEn(c, ps, xs[..n], k);
      assert xs[..n][k] == xs[k];
    }
  }

  /** An entry of a sequence grown by one element: an earlier entry, or the new element. */
  lemma EnUnoMas<T>(s: seq<T>, antes: seq<T>, e: T, k: nat)
    requires s == antes + [e] && k < |s|
    ensures s[k] == if k < |antes| then antes[k] else e
  {
  }

  /** Enciphering the ciphertext again from the same positions gives back the letters. */
  lemma CifrarLetrasInvolucion(c: Configuracion, ps: seq<int>, xs: seq<Letra>)
    requires c.Valid() && Ajustadas(c, ps)
    ensures CifrarLetras(c, ps, CifrarLetras(c, ps, xs)) == xs
  {
    var ys := CifrarLetras(c, ps, xs);
    var zs := CifrarLetras(c, ps, ys);
    forall k | 0 <= k < |xs| ensures zs[k] == xs[k] {
      CifrarLetrasEn(c, ps, xs, k);
      CifrarLetrasEn(c, ps, ys, k);
      SustituirInvolucion(c, AvanceN(ps, k + 1), xs[k]);
    }
  }

  /**
   * The machine's output for a text: upper-case it, keep its letters, encipher them, spell the
   * result. Non-letters give nothing and do not step the rotors.
   */
  function Cifrado(c: Configuracion, ps: seq<int>, texto: string): (salida: string)
    requires c.Valid() && Ajustadas(c, ps)
    ensures |salida| == |Letras(Mayusculas(texto))| && SoloMayusculas(salida)
  {
    Texto(CifrarLetras(c, ps, Letras(Mayusculas(texto))))
  }

  /**
   * The machine is its own inverse: enciphering the ciphertext from the same starting positions
   * gives the upper-cased letters of the original text.
   */
  lemma CifradoInvolucion(c: Configuracion, ps: seq<int>, texto: string)
    requires c.Valid() && Ajustadas(c, ps)
    ensures Cifrado(c, ps, Cifrado(c, ps, texto)) == Texto(Letras(Mayusculas(texto)))
  {
    var xs := Letras(Mayusculas(texto));
    LetrasDeTexto(CifrarLetras(c, ps, xs));
    CifrarLetrasInvolucion(c, ps, xs);
  }

  /** One more rotor on the way there. */
  lemma IdaUnoMas(ws: seq<seq<Letra>>, ps: seq<int>, i: nat, x: Letra)
    requires Cableados(ws) && |ps| == |ws| && EnRango(ps) && i < |ws|
    ensures Ida(ws[..i + 1], ps[..i + 1], x) == PasoDirecto(ws[i], ps[i], Ida(ws[..i], ps[..i], x))
  {
    assert ws[..i + 1][..i] == ws[..i] && ps[..i + 1][..i] == ps[..i];
  }

  /** One more rotor on the way back. */
  lemma VueltaUnoMas(ws: seq<seq<Letra>>, ps: seq<int>, i: nat, y: Letra)
    requires Cableados(ws) && |ps| == |ws| && EnRango(ps) && i < |ws|
    ensures Vuelta(ws[..i + 1], ps[..i + 1], y) == Vuelta(ws[..i], ps[..i], PasoInverso(ws[i], ps[i], y))
  {
    assert ws[..i + 1][..i] == ws[..i] && ps[..i + 1][..i] == ps[..i];
  }

  /** A valid rotor computes the two steps of its wiring at its position. */
  lemma PasosDelRotor(rotor: Rotor, x: Letra)
    requires rotor.Valid()
    ensures rotor.Adelante(x) == PasoDirecto(rotor.mapaDirecto, rotor.posicion, x)
    ensures rotor.Atras(x) == PasoInverso(rotor.mapaDirecto, rotor.posicion, x)
  {
  }

  /** The letters of a text grown by one character: that character's letter, if it has one. */
  lemma LetrasUnoMas(s: string, k: nat)
    requires k < |s|
    ensures EsMayuscula(s[k]) ==> Letras(s[..k + 1]) == Letras(s[..k]) + [Indice(s[k])]
    ensures !EsMayuscula(s[k]) ==> Letras(s[..k + 1]) == Letras(s[..k])
  {
    assert s[..k + 1] == s[..k] + [s[k]];
    LetrasConcatenadas(s[..k], [s[k]]);
    LetrasDeUno(s[k]);
  }

  /** One more letter adds its substitution at the positions left by one more key press. */
  lemma CifrarUnaMas(c: Configuracion, ps: seq<int>, xs: seq<Letra>, x: Letra)
    requires c.Valid() && Ajustadas(c, ps)
    ensures CifrarLetras(c, ps, xs + [x]) == CifrarLetras(c, ps, xs) + [Sustituir(c, AvanceN(ps, |xs| + 1), x)]
  {
    assert (xs + [x])[..|xs|] == xs;
  }

  /** The text enciphered so far grows by the character of the next substitution. */
  lemma SalidaUnaMas(c: Configuracion, ps: seq<int>, xs: seq<Letra>, x: Letra, y: Letra)
    requires c.Valid() && Ajustadas(c, ps) && y == Sustituir(c, AvanceN(ps, |xs| + 1), x)
    ensures Texto(CifrarLetras(c, ps, xs + [x])) == Texto(CifrarLetras(c, ps, xs)) + [Caracter(y)]
  {
    CifrarUnaMas(c, ps, xs, x);
    TextoUnoMas(CifrarLetras(c, ps, xs), y);
  }

  /**
   * The state of the enciphering loop after the first k characters of s: the rotors have stepped
   * once per letter among them, and the output holds those letters enciphered.
   */
  ghost predicate Cifrando(c: Configuracion, ps: seq<int>, s: string, k: nat, qs: seq<int>, resultado: string)
  {
    && k <= |s| && c.Valid() && Ajustadas(c, ps)
    && qs == AvanceN(ps, |Letras(s[..k])|)
    && resultado == Texto(CifrarLetras(c, ps, Letras(s[..k])))
  }

  /** One character more: what a key press (or a skipped character) adds keeps the loop state. */
  lemma CifrarPaso(c: Configuracion, ps: seq<int>, s: string, k: nat, qs: seq<int>, qn: seq<int>,
                   resultado: string, eco: string)
    requires Cifrando(c, ps, s, k, qs, resultado) && k < |s|
    requires !EsMayuscula(s[k]) ==> qn == qs && eco == []
    requires EsMayuscula(s[k]) ==> qn == Avance(qs) && eco == [Caracter(Sustituir(c, qn, Indice(s[k])))]
    ensures Cifrando(c, ps, s, k + 1, qn, resultado + eco)
  {
    var xs := Letras(s[..k]);
    LetrasUnoMas(s, k);
    if EsMayuscula(s[k]) {
      assert AvanceN(ps, |xs| + 1) == qn;
      SalidaUnaMas(c, ps, xs, Indice(s[k]), Sustituir(c, qn, Indice(s[k])));
    } else {
      assert resultado + eco == resultado;
    }
  }

  /** Valid rotors, none of them twice, a valid reflector and a valid plugboard. */
  ghost predicate PiezasValidas(rotores: seq<Rotor>, reflector: Reflector, tablero: Tablero)
    reads rotores
  {
    && (forall i :: 0 <= i < |rotores| ==> rotores[i].Valid())
    && (forall i, j :: 0 <= i < j < |rotores| ==> rotores[i] != rotores[j])
    && reflector.Valid()
    && tablero.Valid()
  }

  class MaquinaEnigma {
    const rotores: seq<Rotor>
    const reflector: Reflector
    const tablero: Tablero

    /** Valid parts, at least one rotor, and no rotor twice in the stack. */
    ghost predicate Valid()
      reads rotores
    {
      && |rotores| > 0
      && (forall i :: 0 <= i < |rotores| ==> rotores[i].Valid())
      && (forall i, j :: 0 <= i < j < |rotores| ==> rotores[i] != rotores[j])
      && reflector.Valid()
      && tablero.Valid()
    }

    /** The parts of this machine that never change. */
    ghost function Config(): Configuracion
    {
      Configuracion(seq(|rotores|, i requires 0 <= i < |rotores| => rotores[i].mapaDirecto), reflector, tablero)
    }

    /** The current rotor positions, rotor 0 first. */
    ghost function Posiciones(): seq<int>
      reads rotores
    {
      seq(|rotores|, i requires 0 <= i < |rotores| reads rotores => rotores[i].posicion)
    }

    lemma ConfigValida()
      requires Valid()
      ensures Config().Valid() && Ajustadas(Config(), Posiciones())
    {
    }

    constructor (rotores: seq<Rotor>, reflector: Reflector, tablero: Tablero)
      requires |rotores| > 0
      ensures this.rotores == rotores && this.reflector == reflector && this.tablero == tablero
      ensures PiezasValidas(rotores, reflector, tablero) ==> Valid()
    {
      this.rotores := rotores;
      this.reflector := reflector;
      this.tablero := tablero;
    }

    /** Rotor i of the stack advances; every other rotor keeps its position. */
    method AvanzarEn(i: nat)
      requires Valid() && i < |rotores|
      modifies rotores[i]
      ensures Valid()
      ensures Posiciones() == old(Posiciones())[i := Siguiente(old(Posiciones())[i])]
    {
      rotores[i].Avanzar();
    }

    /** One key press: rotor 0 advances, and each advance that lands on the mark carries on. */
    method AvanzarRotores()
      requires Valid()
      modifies rotores
      ensures Valid()
      ensures Posiciones() == Avance(old(Posiciones()))
    {
      ghost var ps := Posiciones();
      ParcialCero(ps);
      ParcialUnoMas(ps, ps, 0);
      AvanzarEn(0);
      var i := 1;
      while i < |rotores|
        invariant 1 <= i <= |rotores|
        invariant Valid()
        invariant Posiciones() == Parcial(ps, i)
        invariant TodosAlFinal(ps, i - 1)
      {
        assert rotores[i - 1].posicion == Siguiente(ps[i - 1]) by {
          assert Posiciones()[i - 1] == rotores[i - 1].posicion;
        }
        if rotores[i - 1].EnMarca() {
          TodosAlFinalUnoMas(ps, i - 1);
          ParcialUnoMas(ps, Posiciones(), i);
          AvanzarEn(i);
        } else {
          break;
        }
        i := i + 1;
      }
      AvanceHasta(ps, i);
    }

    /** The signal through the rotors towards the reflector, rotor 0 first. */
    method HaciaReflector(x: Letra) returns (y: Letra)
      requires Valid()
      ensures y == Ida(Config().cableados, Posiciones(), x)
    {
      ghost var ws := Config().cableados;
      ghost var ps := Posiciones();
      ConfigValida();
      y := x;
      for i := 0 to |rotores|
        invariant y == Ida(ws[..i], ps[..i], x)
      {
        IdaUnoMas(ws, ps, i, x);
        PasosDelRotor(rotores[i], y);
        y := rotores[i].Adelante(y);
      }
      assert ws[..|rotores|] == ws && ps[..|rotores|] == ps;
    }

    /** The signal back from the reflector, the last rotor first. */
    method DesdeReflector(x: Letra) returns (y: Letra)
      requires Valid()
      ensures y == Vuelta(Config().cableados, Posiciones(), x)
    {
      ghost var ws := Config().cableados;
      ghost var ps := Posiciones();
      ConfigValida();
      y := x;
      var i := |rotores| - 1;
      assert ws[..i + 1] == ws && ps[..i + 1] == ps;
      while i >= 0
        invariant -1 <= i < |rotores|
        invariant Vuelta(ws[..i + 1], ps[..i + 1], y) == Vuelta(ws, ps, x)
      {
        VueltaUnoMas(ws, ps, i, y);
        PasosDelRotor(rotores[i], y);
        y := rotores[i].Atras(y);
        i := i - 1;
      }
    }

    /** The way of one letter through the machine, with the rotors where they stand. */
    method Recorrido(x: Letra) returns (y: Letra)
      requires Valid()
      ensures y == Sustituir(Config(), Posiciones(), x)
    {
      ConfigValida();
      var letra := tablero.Intercambiar(x);
      letra := HaciaReflector(letra);
      letra := reflector.Reflejar(letra);
      letra := DesdeReflector(letra);
      y := tablero.Intercambiar(letra);
    }

    /** One key press: the rotors step, then the letter takes its way through the machine. */
    method Pulsar(x: Letra) returns (y: Letra)
      requires Valid()
      modifies rotores
      ensures Valid()
      ensures Posiciones() == Avance(old(Posiciones()))
      ensures y == Sustituir(Config(), Posiciones(), x)
    {
      AvanzarRotores();
      y := Recorrido(x);
    }

    /**
     * One character of the upper-cased text: a letter steps the rotors and gives its substitution;
     * any other character gives nothing and leaves the rotors alone.
     */
    method Teclear(caracter: char) returns (eco: string)
      requires Valid()
      modifies rotores
      ensures Valid()
      ensures !EsMayuscula(caracter) ==> eco == [] && Posiciones() == old(Posiciones())
      ensures EsMayuscula(caracter) ==> Posiciones() == Avance(old(Posiciones()))
      ensures EsMayuscula(caracter) ==> eco == [Caracter(Sustituir(Config(), Posiciones(), Indice(caracter)))]
    {
      if !EsMayuscula(caracter) {
        return [];
      }
      var letra := Pulsar(Indice(caracter));
      eco := [Caracter(letra)];
    }

    /**
     * Enciphers a text: each letter, after upper-casing, steps the rotors once and is substituted;
     * every other character is skipped.
     */
    method Cifrar(texto: string) returns (salida: string)
      requires Valid() && TextoAscii(texto)
      modifies rotores
      ensures Valid()
      ensures salida == Cifrado(Config(), old(Posiciones()), texto)
      ensures Posiciones() == AvanceN(old(Posiciones()), |Letras(Mayusculas(texto))|)
    {
      ghost var c := Config();
      ghost var ps := Posiciones();
      ConfigValida();
      var mayusculas := Mayusculas(texto);
      var resultado: seq<char> := [];
      assert mayusculas[..0] == [];
      for k := 0 to |mayusculas|
        invariant Valid()
        invariant Cifrando(c, ps, mayusculas, k, Posiciones(), resultado)
      {
        ghost var antes := Posiciones();
        var eco := Teclear(mayusculas[k]);
        CifrarPaso(c, ps, mayusculas, k, antes, Posiciones(), resultado, eco);
        resultado := resultado + eco;
      }
      assert mayusculas[..|mayusculas|] == mayusculas;
      salida := resultado;
    }
  }

  /** The machine constructor, including its rejection of an empty rotor stack. */
  method NuevaMaquina(rotores: seq<Rotor>, reflector: Reflector, tablero: Tablero)
    returns (r: Result<MaquinaEnigma>)
    ensures r.Fallo? <==> |rotores| == 0
    ensures r.Fallo? ==> r.error == SinRotores
    ensures r.Ok? ==> fresh(r.value) && r.value.rotores == rotores
    ensures r.Ok? ==> r.value.reflector == reflector && r.value.tablero == tablero
    ensures r.Ok? && PiezasValidas(rotores, reflector, tablero) ==> r.value.Valid()
  {
    if |rotores| == 0 {
      return Fallo(SinRotores);
    }
    var maquina := new MaquinaEnigma(rotores, reflector, tablero);
    return Ok(maquina);
  }

  /**
   * Two machines with the same parts, set to the same positions: the second deciphers what the
   * first enciphers, giving back the upper-cased letters of the message.
   */
  method Intercambio(emisora: MaquinaEnigma, receptora: MaquinaEnigma, mensaje: string)
    returns (cifrado: string, descifrado: string)
    requires emisora.Valid() && receptora.Valid() && TextoAscii(mensaje)
    requires emisora.Config() == receptora.Config()
    requires emisora.Posiciones() == receptora.Posiciones()
    requires forall i, j :: 0 <= i < |emisora.rotores| && 0 <= j < |receptora.rotores| ==>
      emisora.rotores[i] != receptora.rotores[j]
    modifies emisora.rotores, receptora.rotores
    ensures descifrado == Texto(Letras(Mayusculas(mensaje)))
  {
    ghost var c := emisora.Config();
    ghost var ps := emisora.Posiciones();
    emisora.ConfigValida();
    cifrado := emisora.Cifrar(mensaje);
    assert receptora.Posiciones() == ps;
    descifrado := receptora.Cifrar(cifrado);
    CifradoInvolucion(c, ps, mensaje);
    LetrasDeTexto(CifrarLetras(c, ps, Letras(Mayusculas(mensaje))));
  }
}

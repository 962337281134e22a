/** The plugboard: a fixed set of cables, each swapping two letters. */
module Tableros {
  import opened Alfabeto
  import opened Resultados

  datatype Tablero = Tablero(conexiones: map<Letra, Letra>)
  {
    /** Each connection is a cable between two different letters, recorded in both directions. */
    ghost predicate Valid()
    {
      forall x :: x in conexiones ==>
        conexiones[x] in conexiones && conexiones[conexiones[x]] == x && conexiones[x] != x
    }

    /** The letter at the other end of the cable plugged into `letra`, or `letra` itself. */
    function Intercambiar(letra: Letra): (r: Letra)
      requires Valid()
      ensures r == letra <==> letra !in conexiones
      ensures letra in conexiones ==> r in conexiones && conexiones[r] == letra
    {
      if letra in conexiones then conexiones[letra] else letra
    }
  }

  /** Swapping twice is the identity. */
  lemma IntercambiarInvolucion(t: Tablero, x: Letra)
    requires t.Valid()
    ensures t.Intercambiar(t.Intercambiar(x)) == x
  {
  }

  /** The letter at one end of a cable, from its character in either case. */
  function Clavija(c: char): (x: Letra)
    requires EsLetraAscii(c)
    ensures Caracter(x) == Mayuscula(c)
    ensures 'A' <= c <= 'Z' ==> x == c as int - 'A' as int
    ensures 'a' <= c <= 'z' ==> x == c as int - 'a' as int
  {
    Indice(Mayuscula(c))
  }

  predicate ParesDeLetras(pares: seq<(char, char)>)
  {
    forall k :: 0 <= k < |pares| ==> EsLetraAscii(pares[k].0) && EsLetraAscii(pares[k].1)
  }

  /** The cables as pairs of letters, after upper-casing both ends. */
  function Cables(pares: seq<(char, char)>): (cs: seq<(Letra, Letra)>)
    requires ParesDeLetras(pares)
    ensures |cs| == |pares|
    ensures forall k :: 0 <= k < |pares| ==> cs[k] == (Clavija(pares[k].0), Clavija(pares[k].1))
  {
    seq(|pares|, k requires 0 <= k < |pares| => (Clavija(pares[k].0), Clavija(pares[k].1)))
  }

  /** Both ends of every cable, in order: the first cable's two letters, then the second's, ... */
  function Extremos(cs: seq<(Letra, Letra)>): (e: seq<Letra>)
    ensures |e| == 2 * |cs|
  {
    if cs == [] then [] else Extremos(cs[..|cs| - 1]) + [cs[|cs| - 1].0, cs[|cs| - 1].1]
  }

  /** The ends of the first cables are the first entries of the ends of all of them. */
  lemma {:induction false} ExtremosPrefijo(cs: seq<(Letra, Letra)>, i: nat)
    requires i <= |cs|
    ensures Extremos(cs[..i]) == Extremos(cs)[..2 * i]
    decreases |cs|
  {
    if i < |cs| {
      var n := |cs| - 1;
      assert cs[..n][..i] == cs[..i];
      ExtremosPrefijo(cs[..n], i);
    } else {
      assert cs[..i] == cs;
    }
  }

  /** The letters among the ends are exactly the letters at either end of some cable. */
  lemma {:induction false} EnExtremos(cs: seq<(Letra, Letra)>, x: Letra)
    ensures x in Extremos(cs) <==> exists k :: 0 <= k < |cs| && (cs[k].0 == x || cs[k].1 == x)
  {
    if cs != [] {
      var n := |cs| - 1;
      EnExtremos(cs[..n], x);
      assert forall k :: 0 <= k < n ==> cs[..n][k] == cs[k];
    }
  }

  lemma NoDistintosPrefijo(s: seq<Letra>, m: nat)
    requires m <= |s| && !Distintos(s[..m])
    ensures !Distintos(s)
  {
    var i, j :| 0 <= i < j < m && s[..m][i] == s[..m][j];
    assert s[i] == s[j];
  }

  lemma ExtremoRepetido(antes: seq<Letra>, a: Letra, b: Letra)
    requires a == b || a in antes || b in antes
    ensures !Distintos(antes + [a, b])
  {
    var d := antes + [a, b];
    var n := |antes|;
    if a == b {
      assert d[n] == d[n + 1];
    } else if a in antes {
      var j :| 0 <= j < n && antes[j] == a;
      assert d[j] == d[n];
    } else {
      var j :| 0 <= j < n && antes[j] == b;
      assert d[j] == d[n + 1];
    }
  }

  lemma ExtremosNuevos(antes: seq<Letra>, a: Letra, b: Letra)
    requires Distintos(antes) && a != b && a !in antes && b !in antes
    ensures Distintos(antes + [a, b])
  {
    var d := antes + [a, b];
    forall j, l | 0 <= j < l < |d| ensures d[j] != d[l] {
      if l >= |antes| && j < |antes| {
        assert antes[j] in antes;
      }
    }
  }

  /** What the constructor's table holds once the first i cables are wired. */
  ghost predicate Conectado(cs: seq<(Letra, Letra)>, conexiones: map<Letra, Letra>, i: nat)
    requires i <= |cs|
  {
    && Distintos(Extremos(cs[..i]))
    && (forall x: Letra :: x in conexiones <==> x in Extremos(cs[..i]))
    && (forall k :: 0 <= k < i ==>
          && cs[k].0 in conexiones && conexiones[cs[k].0] == cs[k].1
          && cs[k].1 in conexiones && conexiones[cs[k].1] == cs[k].0)
  }

  /** The ends of one more cable follow the ends of the cables before it. */
  lemma ExtremosUnoMas(cs: seq<(Letra, Letra)>, i: nat)
    requires i < |cs|
    ensures Extremos(cs[..i + 1]) == Extremos(cs[..i]) + [cs[i].0, cs[i].1]
  {
    assert cs[..i + 1][..i] == cs[..i];
  }

  /** A sequence that starts with a repeated end is not made of distinct letters. */
  lemma PrefijoRepetido(e: seq<Letra>, antes: seq<Letra>, a: Letra, b: Letra)
    requires |antes| + 2 <= |e| && e[..|antes| + 2] == antes + [a, b]
    requires a == b || a in antes || b in antes
    ensures !Distintos(e)
  {
    ExtremoRepetido(antes, a, b);
    NoDistintosPrefijo(e, |antes| + 2);
  }

  /** A rejected cable repeats an end, so the ends of all the cables are not distinct. */
  lemma PasoFallo(cs: seq<(Letra, Letra)>, i: nat)
    requires i < |cs|
    requires cs[i].0 == cs[i].1 || cs[i].0 in Extremos(cs[..i]) || cs[i].1 in Extremos(cs[..i])
    ensures !Distintos(Extremos(cs))
  {
    ExtremosUnoMas(cs, i);
    ExtremosPrefijo(cs, i + 1);
    PrefijoRepetido(Extremos(cs), Extremos(cs[..i]), cs[i].0, cs[i].1);
  }

  /** An accepted cable is wired both ways and keeps the record. */
  lemma PasoExito(cs: seq<(Letra, Letra)>, conexiones: map<Letra, Letra>, i: nat)
    requires i < |cs| && Conectado(cs, conexiones, i)
    requires cs[i].0 != cs[i].1 && cs[i].0 !in conexiones && cs[i].1 !in conexiones
    ensures Conectado(cs, conexiones[cs[i].0 := cs[i].1][cs[i].1 := cs[i].0], i + 1)
  {
    var a, b := cs[i].0, cs[i].1;
    ExtremosUnoMas(cs, i);
    ExtremosNuevos(Extremos(cs[..i]), a, b);
    var c := conexiones[a := b][b := a];
    forall k | 0 <= k < i + 1
      ensures cs[k].0 in c && c[cs[k].0] == cs[k].1 && cs[k].1 in c && c[cs[k].1] == cs[k].0
    {
      if k < i {
        assert cs[k].0 in conexiones && cs[k].1 in conexiones;
      }
    }
  }

  /** The k-th cable's ends sit at places 2k and 2k + 1 among the ends. */
  lemma ExtremosDe(cs: seq<(Letra, Letra)>, k: nat)
    requires k < |cs|
    ensures Extremos(cs)[2 * k] == cs[k].0 && Extremos(cs)[2 * k + 1] == cs[k].1
  {
    ExtremosUnoMas(cs, k);
    ExtremosPrefijo(cs, k + 1);
  }

  /** Once all cables are wired with distinct ends, the table is a valid plugboard. */
  lemma TableroCompleto(cs: seq<(Letra, Letra)>, conexiones: map<Letra, Letra>)
    requires Conectado(cs, conexiones, |cs|)
    ensures Tablero(conexiones).Valid()
  {
    assert cs[..|cs|] == cs;
    forall x | x in conexiones
      ensures conexiones[x] in conexiones && conexiones[conexiones[x]] == x && conexiones[x] != x
    {
      EnExtremos(cs, x);
      var k :| 0 <= k < |cs| && (cs[k].0 == x || cs[k].1 == x);
      ExtremosDe(cs, k);
      assert cs[k].0 != cs[k].1;
    }
  }

  /**
   * The plugboard constructor: one pass over the pairs that wires each cable both ways and
   * fails on a self-pair or on a letter that is already wired.
   */
  method NuevoTablero(pares: seq<(char, char)>) returns (r: Result<Tablero>)
    requires ParesDeLetras(pares)
    ensures r.Ok? <==> Distintos(Extremos(Cables(pares)))
    ensures r.Fallo? ==> r.error == ParInvalido
    ensures r.Ok? ==> r.value.Valid()
    ensures r.Ok? ==> forall x: Letra :: x in r.value.conexiones <==> x in Extremos(Cables(pares))
    ensures r.Ok? ==> forall k :: 0 <= k < |pares| ==>
      r.value.Intercambiar(Clavija(pares[k].0)) == Clavija(pares[k].1) &&
      r.value.Intercambiar(Clavija(pares[k].1)) == Clavija(pares[k].0)
  {
    ghost var cs := Cables(pares);
    var conexiones: map<Letra, Letra> := map[];
    for i := 0 to |pares|
      invariant Conectado(cs, conexiones, i)
    {
      var a := Clavija(pares[i].0);
      var b := Clavija(pares[i].1);
      if a == b || a in conexiones || b in conexiones {
        PasoFallo(cs, i);
        return Fallo(ParInvalido);
      }
      PasoExito(cs, conexiones, i);
      conexiones := conexiones[a := b][b := a];
    }
    TableroCompleto(cs, conexiones);
    assert cs[..|cs|] == cs;
    return Ok(Tablero(conexiones));
  }
}

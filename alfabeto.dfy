/** The 26-letter alphabet A–Z, the characters that stand for it, and wirings over it. */
module Alfabeto {

  /** A letter A–Z, given as its position in the alphabet. */
  type Letra = x: int | 0 <= x < 26

  predicate EsMayuscula(c: char) { 'A' <= c <= 'Z' }

  predicate EsLetraAscii(c: char) { 'A' <= c <= 'Z' || 'a' <= c <= 'z' }

  predicate EsAscii(c: char) { c as int < 128 }

  predicate SoloMayusculas(s: string) { forall i :: 0 <= i < |s| ==> EsMayuscula(s[i]) }

  predicate TextoAscii(s: string) { forall i :: 0 <= i < |s| ==> EsAscii(s[i]) }

  /** Upper-casing of one character, exact for ASCII (other characters are left alone). */
  function Mayuscula(c: char): (u: char)
    ensures EsMayuscula(u) <==> EsLetraAscii(c)
    ensures EsMayuscula(c) ==> u == c
    ensures !EsLetraAscii(c) ==> u == c
    ensures 'a' <= c <= 'z' ==> Indice(u) == c as int - 'a' as int
  {
    if 'a' <= c <= 'z' then (c as int - 32) as char else c
  }

  /** Upper-casing of a whole text, character by character. */
  function Mayusculas(s: string): (m: string)
    ensures |m| == |s|
    ensures forall i :: 0 <= i < |s| ==> m[i] == Mayuscula(s[i])
    ensures forall i :: 0 <= i < |s| ==> (EsMayuscula(m[i]) <==> EsLetraAscii(s[i]))
  {
    seq(|s|, i requires 0 <= i < |s| => Mayuscula(s[i]))
  }

  /** The character that stands for a letter. */
  function Caracter(x: Letra): (c: char)
    ensures EsMayuscula(c)
  {
    ('A' as int + x) as char
  }

  /** The letter an upper-case character stands for; `Caracter` undoes it. */
  function Indice(c: char): (x: Letra)
    requires EsMayuscula(c)
    ensures Caracter(x) == c
  {
    c as int - 'A' as int
  }

  /** The letters of a string of upper-case characters, position by position. */
  function Indices(s: string): (w: seq<Letra>)
    requires SoloMayusculas(s)
    ensures |w| == |s|
  {
    seq(|s|, i requires 0 <= i < |s| => Indice(s[i]))
  }

  /** The letters of an upper-cased text, in order; every other character is dropped. */
  function Letras(s: string): (xs: seq<Letra>)
    ensures |xs| <= |s|
  {
    if s == [] then []
    else
      var c := s[|s| - 1];
      Letras(s[..|s| - 1]) + (if EsMayuscula(c) then [Indice(c)] else [])
  }

  /** A single character gives its letter if it is a capital, and nothing otherwise. */
  lemma LetrasDeUno(c: char)
    ensures Letras([c]) == if EsMayuscula(c) then [Indice(c)] else []
  {
    assert [c][..0] == [];
  }

  /** The letters of two texts put together are the letters of the first, then those of the second. */
  lemma {:induction false} LetrasConcatenadas(s: string, t: string)
    ensures Letras(s + t) == Letras(s) + Letras(t)
    decreases |t|
  {
    if t == [] {
      assert s + t == s;
    } else {
      var n := |t| - 1;
      LetrasConcatenadas(s, t[..n]);
      assert (s + t)[..|s + t| - 1] == s + t[..n];
    }
  }

  /** A text of capitals keeps every character: its letters are its indices, in order. */
  lemma {:induction false} LetrasDeMayusculas(s: string)
    requires SoloMayusculas(s)
    ensures Letras(s) == Indices(s)
  {
    if s != [] {
      var n := |s| - 1;
      LetrasDeMayusculas(s[..n]);
      assert Indices(s) == Indices(s[..n]) + [Indice(s[n])];
    }
  }

  /** A text without capitals gives no letters. */
  lemma {:induction false} LetrasSinMayusculas(s: string)
    requires forall i :: 0 <= i < |s| ==> !EsMayuscula(s[i])
    ensures Letras(s) == []
  {
    if s != [] {
      LetrasSinMayusculas(s[..|s| - 1]);
    }
  }

  /** The text spelled by a sequence of letters. */
  function Texto(xs: seq<Letra>): (s: string)
    ensures |s| == |xs| && SoloMayusculas(s)
  {
    seq(|xs|, i requires 0 <= i < |xs| => Caracter(xs[i]))
  }

  /** Spelling one more letter appends its character. */
  lemma TextoUnoMas(xs: seq<Letra>, y: Letra)
    ensures Texto(xs + [y]) == Texto(xs) + [Caracter(y)]
  {
  }

  /** Reading back the letters of a spelled text, even after upper-casing it, gives the letters. */
  lemma {:induction false} LetrasDeTexto(xs: seq<Letra>)
    ensures Mayusculas(Texto(xs)) == Texto(xs)
    ensures Letras(Texto(xs)) == xs
  {
    if xs != [] {
      var n := |xs| - 1;
      LetrasDeTexto(xs[..n]);
      assert Texto(xs)[..n] == Texto(xs[..n]);
    }
  }

  predicate Distintos<T(==)>(s: seq<T>)
  {
    forall i, j :: 0 <= i < j < |s| ==> s[i] != s[j]
  }

  /** A wiring: 26 letters, none twice, read as the image of A, B, ..., Z. */
  predicate EsPermutacion(w: seq<Letra>)
  {
    |w| == 26 && Distintos(w)
  }

  /** The letters that occur among the first k entries of w. */
  function Imagen(w: seq<Letra>, k: nat): set<int>
    requires k <= |w|
  {
    set i | 0 <= i < k :: w[i]
  }

  /** The letters before the k-th one. */
  function Primeros(k: nat): (s: set<int>)
    ensures forall x :: x in s <==> 0 <= x < k
  {
    if k == 0 then {} else Primeros(k - 1) + {k - 1}
  }

  lemma {:induction false} CardinalPrimeros(k: nat)
    ensures |Primeros(k)| == k
  {
    if k > 0 {
      CardinalPrimeros(k - 1);
    }
  }

  /** k entries show at most k letters, and exactly k when they are pairwise distinct. */
  lemma {:induction false} CardinalImagen(w: seq<Letra>, k: nat)
    requires k <= |w|
    ensures |Imagen(w, k)| <= k
    ensures |Imagen(w, k)| == k <==> Distintos(w[..k])
  {
    if k > 0 {
      CardinalImagen(w, k - 1);
      assert Imagen(w, k) == Imagen(w, k - 1) + {w[k - 1]};
      if w[k - 1] in Imagen(w, k - 1) {
        var i :| 0 <= i < k - 1 && w[i] == w[k - 1];
        assert w[..k][i] == w[..k][k - 1];
      } else {
        if !Distintos(w[..k - 1]) {
          var i, j :| 0 <= i < j < k - 1 && w[..k - 1][i] == w[..k - 1][j];
          assert w[..k][i] == w[..k][j];
        }
      }
    }
  }

  /** A part of the first k letters that has k elements is all of them. */
  lemma {:induction false} LlenoSiCardinal(a: set<int>, k: nat)
    requires a <= Primeros(k) && |a| == k
    ensures a == Primeros(k)
  {
    CardinalPrimeros(k);
    var resto := Primeros(k) - a;
    assert |Primeros(k)| == |a| + |resto| by {
      assert Primeros(k) == a + resto;
      assert a * resto == {};
    }
    assert resto == {};
  }

  /**
   * Pigeonhole: 26 letters are pairwise distinct exactly when every letter occurs among them.
   * This is what makes the rotor's duplicate check the same as a permutation check.
   */
  lemma Palomar(w: seq<Letra>)
    requires |w| == 26
    ensures Distintos(w) <==> forall y: Letra :: y in w
  {
    CardinalImagen(w, 26);
    assert w[..26] == w;
    assert Imagen(w, 26) <= Primeros(26);
    if Distintos(w) {
      LlenoSiCardinal(Imagen(w, 26), 26);
      forall y: Letra ensures y in w {
        assert y in Imagen(w, 26);
      }
    }
    if forall y: Letra :: y in w {
      assert Imagen(w, 26) == Primeros(26) by {
        forall y | y in Primeros(26) ensures y in Imagen(w, 26) {
          var x: Letra := y;
          assert x in w;
        }
      }
      CardinalPrimeros(26);
    }
  }

  /** The first place where y occurs in w. */
  function Posicion(w: seq<Letra>, y: Letra): (i: nat)
    requires y in w
    ensures i < |w| && w[i] == y
    ensures forall j :: 0 <= j < i ==> w[j] != y
  {
    if w[0] == y then 0 else 1 + Posicion(w[1..], y)
  }

  /** The inverse wiring: the entry at y is the letter that w sends to y. */
  function Inversa(w: seq<Letra>): (inv: seq<Letra>)
    requires EsPermutacion(w)
    ensures |inv| == 26
    ensures forall x :: 0 <= x < 26 ==> inv[w[x]] == x
    ensures forall y :: 0 <= y < 26 ==> w[inv[y]] == y
  {
    Palomar(w);
    seq(26, y requires 0 <= y < 26 => Posicion(w, y))
  }
}

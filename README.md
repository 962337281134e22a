# Enigma machine (EnigmaBlindada) in Dafny

This project models the cipher machine in `maquina_enigma.cs` and proves properties of it. The machine has four parts:

- **Rotor.** A wired substitution of the 26 letters, shifted by a position that advances by one, modulo 26.
- **Reflector.** A symmetric pairing of letters.
- **Tablero.** The plugboard: cables that swap two letters and leave every other letter alone.
- **MaquinaEnigma.** A stack of rotors together with a reflector and a plugboard.

For every letter of the text, `MaquinaEnigma.Cifrar` does these steps in order:

1. It steps the rotors like an odometer.
2. It sends the letter through the plugboard.
3. It sends it through rotors 0 to n-1.
4. It sends it through the reflector.
5. It sends it back through rotors n-1 to 0.
6. It sends it through the plugboard again.

Characters that are not letters are dropped.

Letters are the integers 0 to 25 (`Alfabeto.Letra`). Characters are converted only at the edges, by `Indice` and `Caracter`.

The model follows the form of each part of the source:

- **Rotor** is a class.
  - Its wiring tables are constants.
  - `posicion` is a mutable field.
  - The constructor fills the inverse table in a loop over an array.
- **Reflector and plugboard** are immutable once built, so they are datatypes over a `map`.
  - Their constructors are methods with the source's loops.
  - Each returns a `Result` that carries the source's rejection as an `Error`.
- **MaquinaEnigma** is a class over a sequence of rotor objects.
  - `AvanzarRotores` is a loop with `break` that changes the rotors in place.
  - `Cifrar` is a loop that changes the rotors and builds the output.

Each method is proved against specification functions:

- `Pasos.Avance` gives the stepping.
- `Maquina.Sustituir` gives the substitution of one letter.
- `Maquina.CifrarLetras` and `Maquina.Cifrado` give a whole text.

The properties of the machine are lemmas about those functions.

The model follows the code in two places where a reader might expect otherwise:

- **Stepping is a plain carry.** Rotor i is tested with `EnMarca` after rotor i-1 has already advanced in the same key press. So rotor i advances only when every rotor before it has just wrapped to position 0. From positions all 0, one letter leaves rotor 0 at 1 and all other rotors at 0 (`Pasos.AvanceDesdeCero`). There is no check-before-step and no double stepping.
- **The reflector accepts fixed points.** A reflector wiring that sends a letter to itself is accepted, as long as the wiring is its own inverse. The no-fixed-point property is therefore a lemma with that extra hypothesis (`Maquina.SinPuntoFijo`).

## Model

| member | source | states |
|---|---|---|
| Alfabeto.Mayuscula | maquina_enigma.cs:120 | upper-casing gives a capital letter exactly for an ASCII letter; a lower-case letter becomes the capital of the same index ('a' to 'A'); capitals and non-letters are unchanged |
| Alfabeto.Mayusculas | maquina_enigma.cs:120 | the upper-cased text has the same length, each of its characters is the upper-casing of the original one, and it is a capital exactly where the original has an ASCII letter |
| Alfabeto.Indice | maquina_enigma.cs:31 | a capital letter's index `c - 'A'` is a letter whose character is `c` again |
| Alfabeto.Letras | maquina_enigma.cs:120-122 | the letters kept from a text are never more than its characters |
| Alfabeto.LetrasDeUno | maquina_enigma.cs:120-122 | one character gives its letter if it is a capital, and nothing otherwise |
| Alfabeto.LetrasConcatenadas | maquina_enigma.cs:120-122 | the letters of two texts put together are those of the first, then those of the second; with the single-character case this fixes the filter's result as the text's capitals, in order |
| Alfabeto.LetrasDeMayusculas | maquina_enigma.cs:120-122 | a text of capitals loses nothing: its letters are the indices of all its characters |
| Alfabeto.LetrasSinMayusculas | maquina_enigma.cs:120-122 | a text with no capital gives no letters |
| Alfabeto.LetrasDeTexto | maquina_enigma.cs:120-133 | spelling letters and reading them back, even after upper-casing, gives the same letters |
| Alfabeto.Palomar | maquina_enigma.cs:20 | 26 letters are pairwise distinct exactly when every letter of the alphabet occurs among them |
| Alfabeto.Inversa | maquina_enigma.cs:23-25 | the inverse table of a permutation undoes it on both sides |
| Rotores.CableadoCorrecto | maquina_enigma.cs:20 | the rotor's acceptance test, 26 characters and none repeated; `Rotores.CableadoCorrectoSiiPermutacion` states what it accepts |
| Rotores.CableadoCorrectoSiiPermutacion | maquina_enigma.cs:20 | for a capital-letter wiring, the length-and-duplicates test accepts exactly the permutations of the alphabet |
| Rotores.PasoDirecto | maquina_enigma.cs:29-33 | the forward step lands on the letter whose inverse entry is the shifted input |
| Rotores.PasoInverso | maquina_enigma.cs:35-39 | the backward step yields the letter whose shifted wiring entry is the input |
| Rotores.RondaPaso | maquina_enigma.cs:29-39 | at every position the forward and backward steps undo each other, in both orders |
| Rotores.Siguiente | maquina_enigma.cs:43 | an advance stays in 0..25, always moves, goes from p to p + 1 below 25, and lands on the mark 0 exactly from 25 |
| Rotores.AvancesSuman | maquina_enigma.cs:41-44 | k advances add k to the position, modulo 26 |
| Rotores.VueltaCompleta | maquina_enigma.cs:41-44 | 26 advances bring the rotor back to where it started |
| Rotores.Rotor.constructor | maquina_enigma.cs:18-27 | the built rotor is valid: its inverse table is the inverse of its wiring, and its position is `posicionInicial % 26` |
| Rotores.Rotor.Adelante | maquina_enigma.cs:29-33 | the output letter, looked up in the inverse table and shifted back, is the input |
| Rotores.Rotor.Atras | maquina_enigma.cs:35-39 | the output letter, shifted and looked up in the wiring, is the input |
| Rotores.Rotor.Ronda | maquina_enigma.cs:29-39 | `Atras(Adelante(x)) == x` and `Adelante(Atras(y)) == y` |
| Rotores.Rotor.Avanzar | maquina_enigma.cs:41-44 | the rotor stays valid and its position moves to the next one, modulo 26 |
| Rotores.Rotor.EnMarca | maquina_enigma.cs:46-49 | true exactly when the position is 0 |
| Rotores.NuevoRotor | maquina_enigma.cs:18-27 | fails, with the rotor-wiring error, exactly when the wiring is not 26 distinct characters; otherwise a fresh valid rotor at `posicionInicial % 26` |
| Reflectores.Reflector.Reflejar | maquina_enigma.cs:72-75 | the reflected letter is paired back with the input |
| Reflectores.ReflejarInvolucion | maquina_enigma.cs:56-75 | reflecting twice is the identity |
| Reflectores.InvolucionPorDescenso | maquina_enigma.cs:61-69 | for a permutation, the loop's check on letters sent downwards implies that every letter is paired back |
| Reflectores.ConflictoSiiNoInvolucion | maquina_enigma.cs:61-69 | for a permutation, no conflict anywhere holds exactly when the wiring is its own inverse |
| Reflectores.PasoRegistro | maquina_enigma.cs:61-69 | one pass of the loop fails exactly on a letter paired with another, and otherwise keeps the table's record |
| Reflectores.RegistroCompleto | maquina_enigma.cs:61-69 | a loop that passes all 26 letters without a conflict proves the wiring an involution, and leaves every letter paired with its wiring entry |
| Reflectores.Emparejar | maquina_enigma.cs:60-69 | the pairing loop succeeds exactly when the wiring is an involution (fixed points allowed), and then maps every letter to its wiring entry |
| Reflectores.NuevoReflector | maquina_enigma.cs:56-70 | `Ok` exactly for a 26-distinct-letter wiring that is its own inverse; otherwise the invalid-wiring or not-symmetric error, as the source checks them; the result is a valid reflector that reflects each letter to its wiring entry |
| Tableros.Clavija | maquina_enigma.cs:87-88 | a cable end is read case-insensitively: its character is the upper-cased one, and 'a' and 'A' give the same letter |
| Tableros.Tablero.Intercambiar | maquina_enigma.cs:96-99 | a letter comes back unchanged exactly when it has no cable; otherwise the result is wired back to it |
| Tableros.IntercambiarInvolucion | maquina_enigma.cs:89-99 | swapping twice is the identity |
| Tableros.PasoFallo | maquina_enigma.cs:89-90 | a rejected pair repeats a letter, so the ends of all the pairs are not distinct |
| Tableros.PasoExito | maquina_enigma.cs:91-92 | an accepted pair is wired in both directions, and the earlier pairs stay wired |
| Tableros.TableroCompleto | maquina_enigma.cs:84-93 | once every pair is wired, the table is symmetric with no self-pairs |
| Tableros.NuevoTablero | maquina_enigma.cs:82-94 | `Ok` exactly when no letter occurs twice among all pair ends, self-pairs included; the keys are exactly those ends and each pair swaps both ways, whatever the order of the pairs |
| Pasos.AvanceN | maquina_enigma.cs:136-145 | k key presses keep the number of rotors and the range; `Pasos.ValorAvanceN` fixes their value |
| Pasos.Avance | maquina_enigma.cs:136-145 | stepping keeps the number of rotors and every position in 0..25 |
| Pasos.AvanceEn | maquina_enigma.cs:136-145 | rotor j advances exactly when every rotor before it sat at 25 and so wrapped to 0; otherwise it keeps its position; rotor 0 always advances |
| Pasos.Parcial | maquina_enigma.cs:138-144 | the positions while the loop runs, the first i rotors advanced and the rest not yet, keep the number of rotors and the range |
| Pasos.AvanceHasta | maquina_enigma.cs:138-144 | where the loop stops, at the end or after a rotor that did not wrap, the positions with the first i rotors advanced are exactly one step of the odometer |
| Pasos.PrefijoQueAvanza | maquina_enigma.cs:138-144 | the rotors that advance form a prefix: after one rotor keeps its position, so do all later ones |
| Pasos.AvanceDesdeCero | maquina_enigma.cs:136-145 | from positions all 0, one key press leaves rotor 0 at 1 and the others at 0 |
| Pasos.Valor | maquina_enigma.cs:136-145 | positions read in base 26 lie below 26^n |
| Pasos.ValorAvance | maquina_enigma.cs:136-145 | a key press adds exactly 1 to the base-26 reading, wrapping to 0 after 26^n - 1 |
| Pasos.ValorAvanceN | maquina_enigma.cs:136-145 | k key presses add k to the base-26 reading, modulo 26^n |
| Maquina.Ida | maquina_enigma.cs:125-126 | the signal through rotors 0 to n-1, each at its position; no contract of its own, `Maquina.IdaYVuelta` states its inverse |
| Maquina.Vuelta | maquina_enigma.cs:128-129 | the signal back through rotors n-1 to 0; no contract of its own, `Maquina.IdaYVuelta` states that it undoes `Ida` |
| Maquina.Sustituir | maquina_enigma.cs:124-130 | plugboard, rotors, reflector, rotors back, plugboard at fixed positions; no contract of its own, `Maquina.SustituirInvolucion` and `Maquina.SinPuntoFijo` state its properties |
| Maquina.IdaYVuelta | maquina_enigma.cs:126-130 | the way back through the rotor stack undoes the way there, and the other way round |
| Maquina.SustituirInvolucion | maquina_enigma.cs:124-131 | at fixed positions the plugboard-rotors-reflector-rotors-plugboard substitution is its own inverse |
| Maquina.SinPuntoFijo | maquina_enigma.cs:124-131 | with a reflector that pairs no letter with itself, no letter is enciphered as itself |
| Maquina.CifrarLetras | maquina_enigma.cs:119-133 | one output letter per input letter |
| Maquina.CifrarLetrasEn | maquina_enigma.cs:119-133 | the k-th letter is substituted at the positions left by k + 1 key presses: the rotors step before each letter |
| Maquina.CifrarLetrasInvolucion | maquina_enigma.cs:119-133 | enciphering the ciphertext from the same positions returns the letters |
| Maquina.Cifrado | maquina_enigma.cs:117-134 | the output has exactly one capital letter per letter of the upper-cased input |
| Maquina.CifradoInvolucion | maquina_enigma.cs:117-134 | enciphering the ciphertext from the same starting positions gives the upper-cased letters of the original text |
| Maquina.MaquinaEnigma.constructor | maquina_enigma.cs:108-115 | the machine keeps the given rotors, reflector and plugboard, and is valid when they are valid and no rotor occurs twice |
| Maquina.NuevaMaquina | maquina_enigma.cs:108-115 | fails, with the no-rotor error, exactly when the rotor stack is empty; otherwise a fresh machine with the given parts, valid when they are valid and no rotor occurs twice |
| Maquina.MaquinaEnigma.AvanzarEn | maquina_enigma.cs:138-142 | advancing rotor i of the stack changes only entry i of the positions, to the next position, and keeps the machine valid |
| Maquina.MaquinaEnigma.AvanzarRotores | maquina_enigma.cs:136-145 | the new positions are one odometer step of the old ones, and the machine stays valid |
| Maquina.MaquinaEnigma.HaciaReflector | maquina_enigma.cs:126-127 | the loop over the rotors in order computes the way there through the stack |
| Maquina.MaquinaEnigma.DesdeReflector | maquina_enigma.cs:129-130 | the loop over the rotors in reverse order computes the way back through the stack |
| Maquina.MaquinaEnigma.Recorrido | maquina_enigma.cs:124-131 | the letter's path through the machine is the substitution at the current positions |
| Maquina.MaquinaEnigma.Pulsar | maquina_enigma.cs:123-131 | a key press steps the rotors once, then substitutes at the new positions |
| Maquina.CifrarPaso | maquina_enigma.cs:119-133 | one more character keeps the loop's state: the rotors have stepped once per letter so far, and the output is those letters enciphered |
| Maquina.MaquinaEnigma.Teclear | maquina_enigma.cs:122-131 | a character that is not a letter gives nothing and leaves the rotors alone; a letter steps the rotors once and gives its substitution at the new positions |
| Maquina.MaquinaEnigma.Cifrar | maquina_enigma.cs:117-134 | the output is the enciphering of the text from the starting positions, and the rotors have stepped once per letter |
| Maquina.Intercambio | maquina_enigma.cs:117-134 | a second machine with the same parts and starting positions deciphers what the first enciphers |

## Left out

- **Culture- and Unicode-dependent casing.** `texto.ToUpper()` at line 120 and `IsLetter` at line 122 are modelled for ASCII text only, and `Maquina.MaquinaEnigma.Cifrar` requires ASCII input. The upper-casing also depends on the current culture: the model assumes an invariant or non-Turkic culture. Under a Turkish or Azerbaijani culture, ASCII 'i' becomes 'İ' (U+0130). Line 31 then reads it as index (304 - 65) mod 26 = 5, the index of 'F'. So the ASCII precondition alone does not make the model match the source there. The source does not reject a letter outside A–Z: `IsLetter` accepts it and line 31 reduces its code modulo 26. For example 'ñ' becomes 'Ñ', which the first rotor treats as index 14, the index of 'O'. Deciphering the output then gives an A–Z letter, not the original. The model does not capture this.
- **Wiring characters.** A rotor or reflector wiring must be capital letters A–Z; this is a precondition of `Rotores.NuevoRotor` and `Reflectores.NuevoReflector`. The source tests duplicates before upper-casing and never checks the range, and the model does not capture what follows from a wiring outside A–Z.
- **Null or blank wiring.** Both are rejected in the source. A capital-letter wiring of length 26 is never blank, and null has no counterpart in the model.
- **Rotores.NuevoRotor: a negative `posicionInicial` is excluded** (the parameter is a `nat`). The source's truncating `%` would give a negative position there.
- **Plugboard pair characters.** Pair characters must be ASCII letters (`Tableros.ParesDeLetras`).
- **The plugboard's `Dictionary`.** It is a sequence of pairs, in its enumeration order. Its keys are therefore not required to be distinct. The result of `Tableros.NuevoTablero` is described independently of the order.
- **Reflector and plugboard tables** are `map` values, not mutable dictionaries. They are never changed after construction.
- **The rotor's readonly arrays** are constant sequences. The inverse table is built in an array and then frozen.
- **The same rotor object twice in a machine's stack.** A second `Avanzar` in the same key press happens only when the carry reaches its second place. That needs every rotor between the two places to land on 0, and first of all this rotor itself. So when the two places are adjacent, the rotor moves once, except that from 25 it goes to 1. `Maquina.MaquinaEnigma.Valid` requires distinct rotors.
- **Exception types and messages.** They are modelled as `Resultados.Error` values. The machine's constructor requires a non-empty stack, and `Maquina.NuevaMaquina` models the rejection.
- **The rotor array is shared with the caller.** Line 112 keeps a reference to the caller's array, so the caller can later replace a rotor in a machine that is already built. The model's `rotores` is a constant sequence and cannot change.
- **Null rotor array, reflector or plugboard.** Null has no counterpart in the model.
- **`Programa.Main`.** It does console input and output and is not part of this model.
- **The `ICifrador` interface** has a single method and carries no behaviour.

/** Construction failures of the machine's parts, and the result of a construction. */
module Resultados {

  /** One kind per validation that a constructor performs before it builds anything. */
  datatype Error =
    | CableadoRotorInvalido      // rotor wiring empty, not 26 long, or with a repeated letter
    | CableadoReflectorInvalido  // the same check on a reflector wiring
    | ReflectorNoSimetrico       // a reflector letter already paired with another letter
    | ParInvalido                // a plugboard pair of equal letters, or a letter already wired
    | SinRotores                 // a machine with no rotor

  datatype Result<T> = Ok(value: T) | Fallo(error: Error)
}

/** bcrypt as an abstract pair: `hash` turns a password into the stored hash,
    `compare` checks a password against a stored hash. The model assumes
    nothing of the pair beyond `Sound`. */
module Bcrypt {

  datatype Hasher = Hasher(hash: string -> string, compare: (string, string) -> bool)

  /** A password always matches its own hash. */
  ghost predicate Sound(h: Hasher) {
    forall p :: h.compare(p, h.hash(p))
  }
}

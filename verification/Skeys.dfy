/** Node keys. A key stands for a 128-bit identifier; the generator is a supply
    of names not used before (see KeyGenerator). */
module Skeys {

  type Skey = nat

  /** The fixed key of a table's root node, and of a packed blob's root. */
  const ROOT: Skey := 0
}

/** Addresses, by their rank in the order of the storage keys. The empty address comes first. */
module Addresses {

  type Addr = nat

  const EMPTY: Addr := 0
}

/** Addresses of accounts and contracts. */
module Accounts {
  type address = nat

  const NULL: address := 0
}

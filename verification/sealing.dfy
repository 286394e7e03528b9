/**
Authenticated encryption, symbolically: a sealed term opens only under the key,
the nonce and the associated data it was made with.
*/
module Sealing {
  import opened Common

  type Secret = string

  datatype Sealed<+P> = Sealed(key: Secret, nonce: nat, aad: string, plain: P)

  function Open<P>(key: Secret, nonce: nat, aad: string, c: Sealed<P>): Option<P> {
    if c.key == key && c.nonce == nonce && c.aad == aad then Some(c.plain) else None
  }
}

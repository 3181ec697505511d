/** Symbolic encryption at rest: one storage key, a derived key per purpose. */
module Crypto {

  import opened Prelude

  type Key = nat

  datatype Purpose = AcmeAtRest | DnsKeysAtRest | PfxPasswordAtRest | CertTransport

  /** A sealed message, or bytes no key opens. */
  datatype Cipher<T> = Sealed(key: Key, purpose: Purpose, nonce: nat, plain: T) | Garbled

  function Encrypt<T>(k: Key, p: Purpose, nonce: nat, plain: T): (c: Cipher<T>)
    ensures Decrypt(k, p, c) == Some(plain)
  {
    Sealed(k, p, nonce, plain)
  }

  /** Opens exactly what was sealed under the same key for the same purpose. */
  function Decrypt<T>(k: Key, p: Purpose, c: Cipher<T>): (m: Option<T>)
    ensures m.Some? <==> c.Sealed? && c.key == k && c.purpose == p
  {
    if c.Sealed? && c.key == k && c.purpose == p then Some(c.plain) else None
  }
}

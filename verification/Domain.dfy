// The values every component exchanges: public keys and pools.
module Domain {

  datatype Option<+T> = None | Some(value: T)

  type Byte = x: nat | x < 256

  /** Words of 64 bits are the numbers below. */
  const U64: nat := 0x1_0000_0000_0000_0000

  /** A 32-byte account key. */
  datatype PublicKey = PublicKey(bytes: seq<Byte>)

  /** The zero key returned for an unknown token id. */
  const ZERO_KEY := PublicKey(seq(32, _ => 0))

  /** The part of a liquidity pool that routing reads. Reserves are the uint64 shadow fields. */
  datatype Pool = Pool(address: PublicKey, mintA: PublicKey, mintB: PublicKey,
                       reserveA: nat, reserveB: nat, ready: bool)

  /** The reserve paid out when `input` is swapped in. */
  function OutputReserve(pool: Pool, input: PublicKey): nat {
    if pool.mintA == input then pool.reserveB else pool.reserveA
  }
}

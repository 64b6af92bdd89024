/** Basic types shared by the model of the encrypted message socket:
    bytes, the NaCl secretbox sizes, size_t, errno values and the
    outcomes of the collaborators the socket calls but does not own. */
module Types {

  newtype byte = x: int | 0 <= x < 256

  /** crypto_secretbox sizes of the NaCl API. */
  const KEYBYTES: nat := 32
  const NONCEBYTES: nat := 24
  const ZEROBYTES: nat := 32
  const BOXZEROBYTES: nat := 16

  /** NACL_EXTRABYTES: the scratch space reserved beyond the plaintext length. */
  const EXTRABYTES: nat := ZEROBYTES + NONCEBYTES

  /** Bytes a wire message carries beyond the plaintext: the nonce and the tag. */
  const OVERHEAD: nat := NONCEBYTES + (ZEROBYTES - BOXZEROBYTES)

  /** size_t is 64 bits wide. */
  const SIZE_MAX: nat := 0xFFFF_FFFF_FFFF_FFFF

  /** Conversion of a C integer value to size_t: reduction modulo 2^64. */
  function ToSize(x: int): (r: nat)
    ensures r <= SIZE_MAX
    ensures 0 <= x <= SIZE_MAX ==> r == x
  {
    x % (SIZE_MAX + 1)
  }

  function Zeros(n: nat): (z: seq<byte>)
    ensures |z| == n
    ensures forall i | 0 <= i < n :: z[i] == 0
  {
    seq(n, _ => 0)
  }

  function Min(a: nat, b: nat): (r: nat)
  {
    if a < b then a else b
  }

  datatype Option<T> = None | Some(value: T)

  /** The errno values the socket sets itself; Other carries any value a
      collaborator (transport, random source, handle table) reports. */
  datatype Errno = EINVAL | ENOMEM | EMSGSIZE | EACCES | ENOTSUP | Other(code: nat)

  /** What a C entry point returns: a non-negative value, or -1 with errno set. */
  datatype Status = Ok(n: int) | Failed(err: Errno)

  /** Result of a collaborator that returns 0 or -1 with errno. */
  datatype Outcome = Pass | Fail(err: Errno)

  /** Result of dill_random when asked for a nonce. */
  datatype Draw = Drawn(nonce: seq<byte>) | DrawFailed(err: Errno)

  /** Result of mrecv on the underlying socket: the message that arrived
      (of whatever size the peer sent), or an error such as a deadline. */
  datatype Incoming = Got(msg: seq<byte>) | RecvFailed(err: Errno)

  /** Result of hmake or hdup: a handle or an error. */
  datatype Handle = Handle(h: nat) | HandleFailed(err: Errno)
}

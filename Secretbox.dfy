/** The crypto_secretbox primitive (XSalsa20-Poly1305 in tweetnacl) is a
    foreign call. It is represented by a pair of functions and by the
    contract NaCl documents for them; every property of the socket is
    proved for any pair that keeps that contract. */
module Secretbox {
  import opened Types

  /** seal(m, n, k) is crypto_secretbox over the padded message m,
      open(c, n, k) is crypto_secretbox_open over the padded box c. */
  datatype Secretbox = Secretbox(
    seal: (seq<byte>, seq<byte>, seq<byte>) -> seq<byte>,
    open: (seq<byte>, seq<byte>, seq<byte>) -> Option<seq<byte>>)

  /** The message convention of crypto_secretbox: ZEROBYTES zero bytes in front. */
  predicate Padded(m: seq<byte>)
  {
    |m| >= ZEROBYTES && m[..ZEROBYTES] == Zeros(ZEROBYTES)
  }

  /** The NaCl contract: sealing a padded message keeps its length and
      yields BOXZEROBYTES leading zeros; opening what was sealed under the
      same nonce and key gives the message back; a successful open yields
      a padded message as long as the box, and needs at least ZEROBYTES. */
  ghost predicate Lawful(b: Secretbox)
  {
    && (forall m, n, k | Padded(m) && |n| == NONCEBYTES && |k| == KEYBYTES ::
          && |b.seal(m, n, k)| == |m|
          && b.seal(m, n, k)[..BOXZEROBYTES] == Zeros(BOXZEROBYTES)
          && b.open(b.seal(m, n, k), n, k) == Some(m))
    && (forall c, n, k | b.open(c, n, k).Some? ::
          && |c| >= ZEROBYTES
          && |b.open(c, n, k).value| == |c|
          && Padded(b.open(c, n, k).value))
  }

  // A toy instance, far weaker than XSalsa20-Poly1305 but with the same
  // calling convention, shows that the contract can be met.

  function KeyStream(n: seq<byte>, k: seq<byte>, i: nat): (r: int)
    ensures 0 <= r < 256
  {
    ((if |k| > 0 then k[i % |k|] as int else 0) + (if |n| > 0 then n[i % |n|] as int else 0) + i) % 256
  }

  function AddByte(a: byte, p: int): (c: byte)
    requires 0 <= p < 256
  {
    ((a as int + p) % 256) as byte
  }

  function SubByte(a: byte, p: int): (c: byte)
    requires 0 <= p < 256
  {
    ((a as int - p + 256) % 256) as byte
  }

  function Encrypt(n: seq<byte>, k: seq<byte>, x: seq<byte>): (y: seq<byte>)
    ensures |y| == |x|
  {
    seq(|x|, i requires 0 <= i < |x| => AddByte(x[i], KeyStream(n, k, i)))
  }

  function Decrypt(n: seq<byte>, k: seq<byte>, y: seq<byte>): (x: seq<byte>)
    ensures |x| == |y|
  {
    seq(|y|, i requires 0 <= i < |y| => SubByte(y[i], KeyStream(n, k, i)))
  }

  function Checksum(x: seq<byte>): (r: int)
    ensures 0 <= r < 256
  {
    if x == [] then 0 else (x[0] as int + 31 * Checksum(x[1..])) % 256
  }

  function Tag(n: seq<byte>, k: seq<byte>, body: seq<byte>): (t: seq<byte>)
    ensures |t| == ZEROBYTES - BOXZEROBYTES
  {
    seq(ZEROBYTES - BOXZEROBYTES, j requires 0 <= j => ((Checksum(body) + KeyStream(n, k, j)) % 256) as byte)
  }

  function ToySeal(m: seq<byte>, n: seq<byte>, k: seq<byte>): (c: seq<byte>)
  {
    if |m| < ZEROBYTES then m
    else
      var body := Encrypt(n, k, m[ZEROBYTES..]);
      Zeros(BOXZEROBYTES) + Tag(n, k, body) + body
  }

  function ToyOpen(c: seq<byte>, n: seq<byte>, k: seq<byte>): (m: Option<seq<byte>>)
  {
    if |c| < ZEROBYTES then None
    else if c[BOXZEROBYTES..ZEROBYTES] != Tag(n, k, c[ZEROBYTES..]) then None
    else Some(Zeros(ZEROBYTES) + Decrypt(n, k, c[ZEROBYTES..]))
  }

  function Toy(): (b: Secretbox)
  {
    Secretbox((m, n, k) => ToySeal(m, n, k), (c, n, k) => ToyOpen(c, n, k))
  }

  /** Subtracting the key stream byte undoes adding it, modulo 256. */
  lemma ByteInverse(a: byte, p: int)
    requires 0 <= p < 256
    ensures SubByte(AddByte(a, p), p) == a
  {
    if a as int + p >= 256 {
      assert AddByte(a, p) as int == a as int + p - 256;
    }
  }

  lemma DecryptEncrypt(n: seq<byte>, k: seq<byte>, x: seq<byte>)
    ensures Decrypt(n, k, Encrypt(n, k, x)) == x
  {
    var y := Encrypt(n, k, x);
    forall i | 0 <= i < |x|
      ensures Decrypt(n, k, y)[i] == x[i]
    {
      var p := KeyStream(n, k, i);
      assert y[i] == AddByte(x[i], p);
      ByteInverse(x[i], p);
    }
  }

  /** The toy instance keeps the secretbox contract, so Lawful is not vacuous. */
  lemma ToyIsLawful()
    ensures Lawful(Toy())
  {
    var b := Toy();
    forall m, n, k | Padded(m) && |n| == NONCEBYTES && |k| == KEYBYTES
      ensures |b.seal(m, n, k)| == |m|
      ensures b.seal(m, n, k)[..BOXZEROBYTES] == Zeros(BOXZEROBYTES)
      ensures b.open(b.seal(m, n, k), n, k) == Some(m)
    {
      var body := Encrypt(n, k, m[ZEROBYTES..]);
      var c := Zeros(BOXZEROBYTES) + Tag(n, k, body) + body;
      assert b.seal(m, n, k) == c;
      assert c[BOXZEROBYTES..ZEROBYTES] == Tag(n, k, body);
      assert c[ZEROBYTES..] == body;
      DecryptEncrypt(n, k, m[ZEROBYTES..]);
      assert m == m[..ZEROBYTES] + m[ZEROBYTES..];
      assert ToyOpen(c, n, k) == Some(m);
    }
    forall c, n, k | b.open(c, n, k).Some?
      ensures |c| >= ZEROBYTES
      ensures |b.open(c, n, k).value| == |c|
      ensures Padded(b.open(c, n, k).value)
    {
      var p := Zeros(ZEROBYTES) + Decrypt(n, k, c[ZEROBYTES..]);
      assert b.open(c, n, k) == Some(p);
      assert p[..ZEROBYTES] == Zeros(ZEROBYTES);
    }
  }
}

/**
 * The pseudorandom walk of the rho search: a digest becomes the message
 * "hello <lowercase hex of the digest>", which is hashed with SHA-256 and
 * truncated to the configured width. Also the distinguished-point test and
 * the iterated walk that trails are made of.
 */
module Walk {
  import opened Common
  import Hex

  const SHA256_BYTES: nat := 32

  /** src/main.rs works on 64-bit truncations. */
  const RUST_HASH_LENGTH_BITS: nat := 64
  const RUST_HASH_LENGTH_BYTES: nat := RUST_HASH_LENGTH_BITS / 8

  /** parallel_pollard.py works on 32-bit truncations. */
  const PYTHON_HASH_LENGTH_BITS: nat := 32
  const PYTHON_HASH_LENGTH_BYTES: nat := PYTHON_HASH_LENGTH_BITS / 8

  const MESSAGE_PREFIX: string := "hello "

  /** A full SHA-256 digest. */
  type Digest256 = d: seq<Byte> | |d| == SHA256_BYTES witness seq(32, _ => 0)

  /**
   * SHA-256 as seen by the search: any total function from messages to
   * 32-byte digests. Its internals are not modelled.
   */
  type Sha256 = seq<Byte> -> Digest256

  /** How many leading bytes of the digest are kept. */
  type Width = w: nat | w <= SHA256_BYTES

  datatype Params = Params(sha: Sha256, width: Width)

  function RustParams(sha: Sha256): Params { Params(sha, RUST_HASH_LENGTH_BYTES) }

  function PythonParams(sha: Sha256): Params { Params(sha, PYTHON_HASH_LENGTH_BYTES) }

  /** The walk messages are 22 characters long in the Rust program and 14 in the Python one. */
  lemma ProgramMessageLengths(sha: Sha256, h: Digest)
    ensures |h| == RustParams(sha).width ==> |HashToMsg(h)| == 22
    ensures |h| == PythonParams(sha).width ==> |HashToMsg(h)| == 14
  {
  }

  /** The first `width` bytes of the SHA-256 digest of `msg`. */
  function Sha256Trunc(p: Params, msg: seq<Byte>): (d: Digest)
    ensures |d| == p.width && d <= p.sha(msg)
  {
    p.sha(msg)[..p.width]
  }

  /** "hello " followed by the lowercase hex of the digest. */
  function HashToMsg(h: Digest): (m: string)
    ensures MESSAGE_PREFIX <= m && |m| == |MESSAGE_PREFIX| + 2 * |h|
  {
    MESSAGE_PREFIX + Hex.Encode(h)
  }

  /**
   * The message is "hello " and then two lowercase hex digits per digest
   * byte, high nibble first; it is plain ASCII.
   */
  lemma HashToMsgLayout(h: Digest)
    ensures |HashToMsg(h)| == |MESSAGE_PREFIX| + 2 * |h|
    ensures MESSAGE_PREFIX <= HashToMsg(h)
    ensures forall i :: 0 <= i < |h| ==>
              HashToMsg(h)[6 + 2 * i] == Hex.Digit(h[i] / 16) && HashToMsg(h)[6 + 2 * i + 1] == Hex.Digit(h[i] % 16)
    ensures IsAscii(HashToMsg(h))
  {
    Hex.EncodeLayout(h);
  }

  /** Recovers the digest from a message, or None if the message is not of that shape. */
  function MsgToHash(m: string): Option<Digest>
  {
    if MESSAGE_PREFIX <= m then Hex.Decode(m[|MESSAGE_PREFIX|..]) else None
  }

  lemma MsgToHashInverts(h: Digest)
    ensures MsgToHash(HashToMsg(h)) == Some(h)
  {
    HashToMsgLayout(h);
    assert HashToMsg(h)[|MESSAGE_PREFIX|..] == Hex.Encode(h);
    Hex.DecodeEncode(h);
  }

  /** Distinct digests give distinct messages. */
  lemma HashToMsgInjective(g: Digest, h: Digest)
    ensures HashToMsg(g) == HashToMsg(h) <==> g == h
  {
    MsgToHashInverts(g);
    MsgToHashInverts(h);
  }

  predicate IsAscii(s: string)
  {
    forall i :: 0 <= i < |s| ==> s[i] as int < 128
  }

  /** The bytes of an ASCII string: what `as_bytes()` in Rust and `.encode()` in Python give for it. */
  function AsciiBytes(s: string): seq<Byte>
    requires IsAscii(s)
  {
    if s == [] then [] else [s[0] as int] + AsciiBytes(s[1..])
  }

  /** The bytes that are hashed for digest `h`. */
  function MessageBytes(h: Digest): seq<Byte>
  {
    HashToMsgLayout(h);
    AsciiBytes(HashToMsg(h))
  }

  /** One step of the walk (`pollard_next`): the truncated hash of the digest's message. */
  function Next(p: Params, h: Digest): (r: Digest)
    ensures |r| == p.width
  {
    Sha256Trunc(p, MessageBytes(h))
  }

  /**
   * The Rust test, first two bytes zero, written as it is there; the
   * Python test `h.startswith(b"\x00\x00")` is the prefix form in the
   * contract.
   */
  function IsDistinguished(h: Digest): (r: bool)
    ensures r <==> [0, 0] <= h
  {
    if |h| >= 2 && h[0] == 0 && h[1] == 0 then
      assert h[..2] == [0, 0];
      true
    else
      false
  }

  /** The walk function of a configuration, as a value. */
  function Step(p: Params): Digest -> Digest
  {
    h => Next(p, h)
  }

  /** One more step of the walk is one more application of `Next`. */
  lemma IterateNext(p: Params, x: Digest, n: nat)
    ensures Iterate(Step(p), x, n + 1) == Next(p, Iterate(Step(p), x, n))
  {
  }

  /** A step function applied n times. */
  function Iterate(f: Digest -> Digest, x: Digest, n: nat): Digest
    decreases n
  {
    if n == 0 then x else f(Iterate(f, x, n - 1))
  }

  /** Walking m steps and then n steps is walking m + n steps. */
  lemma {:induction false} IterateAdd(f: Digest -> Digest, x: Digest, m: nat, n: nat)
    ensures Iterate(f, Iterate(f, x, m), n) == Iterate(f, x, m + n)
    decreases n
  {
    if n > 0 {
      IterateAdd(f, x, m, n - 1);
    }
  }

  /**
   * `end` is the first distinguished point of the walk from `start`,
   * reached after exactly k steps.
   */
  ghost predicate IsTrailOf(f: Digest -> Digest, start: Digest, end: Digest, k: nat)
  {
    && Iterate(f, start, k) == end
    && IsDistinguished(end)
    && forall i :: 0 <= i < k ==> !IsDistinguished(Iterate(f, start, i))
  }

  /** A start determines its trail: the endpoint and the number of steps. */
  lemma TrailDeterministic(f: Digest -> Digest, start: Digest, e1: Digest, k1: nat, e2: Digest, k2: nat)
    requires IsTrailOf(f, start, e1, k1) && IsTrailOf(f, start, e2, k2)
    ensures k1 == k2 && e1 == e2
  {
  }

  /** A trail never visits a digest twice. */
  lemma TrailNoRepeat(f: Digest -> Digest, start: Digest, end: Digest, k: nat, i: nat, j: nat)
    requires IsTrailOf(f, start, end, k)
    requires i < j <= k
    ensures Iterate(f, start, i) != Iterate(f, start, j)
  {
    var t := k - j;
    IterateAdd(f, start, i, t);
    IterateAdd(f, start, j, t);
    assert i + t < k;
  }
}

# Pollard-rho collision search over truncated SHA-256

The program looks for two different messages whose SHA-256 digests agree
on their first few bytes (64 bits in the Rust program, 32 bits in the
Python reference it was ported from). It walks the map
`pollard_next(h) = sha256_trunc("hello " + hex(h))` from random starts
until each walk reaches a *distinguished point* (a digest whose first two
bytes are zero). A coordinator keeps a table from endpoint to start. When
a second trail reaches a known endpoint, the two trails have merged
somewhere. The refinement step then replays the first trail, recording
each point's predecessor, and walks the second trail until it lands on a
recorded point. The two predecessors of that meeting point are the
reported collision.

The model has these modules:

- `Common`: bytes, digests, `Option` and the `Result`/`Error` pair that
  makes every failure of the source an explicit value.
- `Hex`: lowercase Base16 encoding (RFC 4648, section 8, with the
  lowercase alphabet), with a decoder as its inverse.
- `Walk`: the pure core. It holds the widths, truncation, the message
  format, the walk step `Next`, the distinguished-point predicate, and the
  iteration theory (`Iterate`, `IsTrailOf`) that the rest is proved against.
- `Trails`: the trail generator as a loop, in the Rust and Python forms.
- `Rendezvous`: the coordinator as a loop over the stream of trails.
- `Refinement`: the two refinement loops. `RefineRust` and `RefinePython`
  model the programs as written. `Refine` adds the checks both lack.
- `Search`: coordinator followed by `Refine`. Its result is proved to be a
  genuine collision of two distinct messages.

SHA-256 is a parameter of the model: any function from byte strings to
32-byte digests (`Walk.Sha256`). Nothing is assumed about it, so every
property holds for any such function. The truncation width is a second
parameter: `Walk.RustParams` uses 8 bytes and `Walk.PythonParams` uses 4.

## Model

| member | source | states |
|---|---|---|
| `Hex.DigitIsLowercaseAlphabet` | src/main.rs:22 | each nibble becomes the character at that position of `0123456789abcdef`, so the encoding is lowercase hex |
| `Hex.Encode` | src/main.rs:22 | `hex::encode`: two characters per byte, so the text is twice as long as the bytes |
| `Hex.EncodeLayout` | src/main.rs:22 | the hex text of n bytes has 2n ASCII characters: the high nibble of byte i at position 2i and the low nibble at 2i+1 |
| `Hex.DecodeEncode` | src/main.rs:22 | decoding the hex text of any byte string gives back that byte string |
| `Hex.EncodeDecode` | src/main.rs:22 | any text the decoder accepts is the hex text of what it decodes to, so hex text is canonical |
| `Hex.EncodeInjective` | src/main.rs:22 | distinct byte strings have distinct hex texts |
| `Hex.Decode` | src/main.rs:22 | a decoded text has exactly two characters per decoded byte |
| `Walk.Sha256Trunc` | src/main.rs:13-18 | the result has exactly `width` bytes and is a prefix of the full SHA-256 digest (also parallel_pollard.py:14-16 with width 4) |
| `Walk.HashToMsg` | src/main.rs:20-23 | `hash_to_msg`: the message starts with `hello ` and is 6 + 2 * width characters long (also parallel_pollard.py:19-20) |
| `Walk.HashToMsgLayout` | src/main.rs:20-23 | the message is `hello ` followed by two lowercase hex digits per byte, high nibble first; its length is 6 + 2 * width and it is ASCII (also parallel_pollard.py:19-20) |
| `Walk.MsgToHashInverts` | src/main.rs:20-23 | stripping `hello ` and decoding the hex recovers the digest from its message |
| `Walk.HashToMsgInjective` | src/main.rs:20-23 | two digests have the same message exactly when they are equal |
| `Walk.Next` | src/main.rs:30-32 | one walk step keeps the digest width fixed; it is the truncated hash of the message bytes of its argument (also parallel_pollard.py:23-24) |
| `Walk.IsDistinguished` | src/main.rs:25-28 | `is_distinguished`, written as `x[0] == 0 && x[1] == 0`, holds exactly when the digest starts with the bytes 00 00, which is the Python `startswith` form at parallel_pollard.py:27-28 |
| `Walk.ProgramMessageLengths` | src/main.rs:8-9 | with 8-byte digests the Rust messages are 22 characters long; with the 4-byte digests of parallel_pollard.py:10-11 they are 14 |
| `Walk.IterateAdd` | src/main.rs:42-44 | walking m steps and then n steps is walking m + n steps |
| `Walk.TrailDeterministic` | src/main.rs:42-44 | a start has at most one trail: its endpoint and length are determined by the start |
| `Walk.TrailNoRepeat` | src/main.rs:42-44 | no point repeats on a trail, because only the endpoint is distinguished |
| `Trails.WalkToDistinguished` | src/main.rs:34-47 | returns the start and the first distinguished point of the walk from it; a distinguished start is its own endpoint; within `fuel` steps or fails with `TrailTooLong` when none of the first fuel + 1 points is distinguished |
| `Trails.BuildTrail` | parallel_pollard.py:31-36 | the start is the truncated hash of the seed, so it has the full width, and the endpoint is the first distinguished point from it; it fails with `TrailTooLong` only when none of the first fuel + 1 points from that start is distinguished |
| `Rendezvous.Orchestrate` | src/main.rs:58-73 | returns `(lookup[end], start)` for the first trail whose endpoint is already in the table: the start of the earlier trail with that endpoint and the new start; no endpoint repeats before it; the table then has one entry per trail seen; fails with `ChannelClosed` only when no endpoint repeats in the whole stream |
| `Rendezvous.OrchestrateSound` | src/main.rs:62-66 | when every trail in the stream is genuine, the two returned starts walk to the same distinguished point (same for parallel_pollard.py:51-56) |
| `Refinement.HistoryImage` | src/main.rs:94-98 | every key of the predecessor table is the walk image of the value stored under it |
| `Refinement.HistoryKeys` | src/main.rs:94-98 | every point reached after one or more steps of the replay is a key of the table |
| `Refinement.HistoryKeyIndex` | src/main.rs:94-98 | every key of the table is a point reached after one or more steps of the replay |
| `Refinement.HistoryAt` | src/main.rs:94-98 | on a completed trail each point after the start is stored with its own predecessor |
| `Refinement.HistoryStartNotKey` | src/main.rs:94-98 | the start of trail A is never a key of the table |
| `Refinement.ReplayTrail` | src/main.rs:92-98 | the first loop stops at A's endpoint, the first distinguished point; the table maps each point after the start to its predecessor; `prev` is the last point before the endpoint, or unset when A's start is distinguished; with an empty table in that case (also parallel_pollard.py:63-67) |
| `Refinement.WalkToKnown` | src/main.rs:100-105 | the second loop stops at the first point of B's walk that is a key of the table, and `prev` is the point before it, or its initial value when the loop body never ran; fails with `NoMeeting` when none of the first fuel + 1 points is a key |
| `Refinement.MeetPair` | src/main.rs:102-108 | when B steps from an unrecorded `x` onto a recorded point, `x` and the stored predecessor have the same walk image, and they are the same digest exactly when `x` is A's start |
| `Refinement.StalePairNotCollision` | parallel_pollard.py:69-76 | with a zero-step second loop, the stale `prev` and the stored predecessor of B's start have the same image only when they are the same digest |
| `Refinement.ZeroStepPair` | src/main.rs:100-108 | when B's start `b` is already a key, the pair `(b, lookup[b])` is two distinct digests and `b` is the image of `lookup[b]`; the pair collides exactly when `b` is A's endpoint and the walk maps it to itself |
| `Refinement.SharedEndIsKnown` | src/main.rs:102 | when A and B reach the same endpoint and A took a step, B's endpoint is a key of A's table, so the second loop ends |
| `Refinement.RefineRust` | src/main.rs:92-108 | the Rust refinement as written: the pair is `(prev, lookup[trail_b])`; after one or more second-loop steps both have the same image and they are equal exactly when B passed through A's start; after zero steps `prev` is B's start, distinct from the other digest and its image, and the pair collides only when B's start is A's endpoint and the walk maps it to itself; when A's start is distinguished the second loop never ends; it fails only when the fuel runs out, with `TrailTooLong` when trail A has no distinguished point within it and `NoMeeting` when B's walk reaches no key of A's table within it |
| `Refinement.RefinePython` | parallel_pollard.py:63-76 | the Python refinement as written: as in Rust after one or more steps; after zero steps `prev` is stale and the pair is never two distinct digests with the same image; the stale `prev` is always bound; when A's start is distinguished the second loop never ends; it fails only when the fuel runs out, as `RefineRust` does |
| `Refinement.Refine` | src/main.rs:92-108 | the corrected refinement: every pair it returns is two distinct digests with the same walk image, it is the pair the Rust program computes at the first meeting point of B's walk with A's trail; a zero-step pair is reported only when B's start is A's endpoint and the walk maps it to itself; it fails with `StartDistinguished` exactly when A's start is distinguished, and with `Overlap` only when B passes through A's start or starts on A's trail at any other point |
| `Search.FindCollision` | src/main.rs:85-121 | when every trail in the stream is genuine, a reported pair is two distinct digests whose messages differ and have the same truncated SHA-256; it fails with `ChannelClosed` exactly when no endpoint repeats in the stream; otherwise it refines the first repeated pair the coordinator finds, failing with `StartDistinguished` exactly when the earlier trail's start is distinguished and with `Overlap` only in the overlap cases of `Refine` on those two starts |

## Left out

- Threads, channels, worker shutdown and process kill
  (src/main.rs:49-56, 75-88; parallel_pollard.py:39-59) are concurrency
  plumbing. The coordinator consumes a sequence of trails in arrival
  order, and the end of the sequence stands for the channel closing.
- Randomness (`fill_bytes`, `os.urandom`) is replaced by parameters: the
  start digest in Rust, the seed in Python.
- The SHA-256 compression function is not modelled. SHA-256 is a
  parameter that returns 32 bytes for every input.
- Printing is left out: the two `println!`/`print` lines and the table-size
  message. `Rendezvous.Orchestrate` returns the table size as `entries`.
  `Search.FindCollision` states the property the printed lines show: the
  two messages have the same truncated hash.
- The walk loops have no step bound in the source and end only with high
  probability. Each loop here takes a `fuel` bound and fails with
  `TrailTooLong` or `NoMeeting` when the bound runs out.
- Rust's `panic!` when the channel closes and Python's endless blocking
  `q.get()` are both modelled as `Err(ChannelClosed)`.
- Fixed-size arrays (`[u8; 8]`) and Python `bytes` are sequences of bytes
  whose width is fixed by `Walk.Params`. The UTF-8 encoding of the message
  is modelled only for ASCII text, which is all `hash_to_msg` produces.
- Continuing the search past a refined pair that is not a collision
  (for instance `x == y`) is not modelled; the programs never check the
  pair at all. B's first meeting point with trail A is fixed, so these two
  trails offer no other pair to try, and `Refinement.Refine` fails with
  `Overlap` instead; the pair the Rust program reports is kept whenever it is a
  collision, including B starting at A's endpoint when the walk maps that
  endpoint to itself.
- `Refinement.RefineRust` and `Refinement.RefinePython` return
  `Err(NoMeeting)` when A's start is distinguished, where the programs
  loop forever; that is the fuel bound running out, not a check the
  programs make.

## Findings

| source | as written | input that shows it | evidently intended | confidence | as-written member | corrected member |
|---|---|---|---|---|---|---|
| src/main.rs:100-108 | `prev` starts as B's start, so when B's start is already a key of A's table the pair is `(b, lookup[b])`, and `b` is the image of `lookup[b]`; it is a collision only when `b` is A's endpoint and the walk maps it to itself | B's start lies on trail A after its first step and before its endpoint, e.g. B's start is A's second point on a trail of three or more steps | report the pair only when it is a collision | not executed | `Refinement.RefineRust` | `Refinement.Refine` |
| src/main.rs:102-108 | nothing checks `prev != lookup[trail_b]`; when B's walk passes through A's start the two printed messages are the same message | B's start is a point whose walk reaches A's start `a` before any key of A's table | fail or pick other trails when the two digests are equal | not executed | `Refinement.MeetPair` | `Refinement.Refine` |
| parallel_pollard.py:69-76 | `prev` is not reset between the loops, so a zero-step second loop reports A's last point before its end against the predecessor of B's start, which is never a collision of two distinct digests | B's start lies on trail A after its first step | report the pair only when it is a collision | not executed | `Refinement.StalePairNotCollision` | `Refinement.Refine` |
| src/main.rs:94-105 | when A's start is distinguished the table stays empty and the second loop never ends; the same holds for parallel_pollard.py:63-71 | a start digest whose first two bytes are zero | stop with an error, or skip that trail | not executed | `Refinement.RefinePython` | `Refinement.Refine` |

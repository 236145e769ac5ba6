# Honest guessing game: a verified model of its VRF commit and verify

The game (`cpu-honest-guessing-game/src/main.rs`) lets a CPU commit to a secret
number before the player guesses. For each round it draws a 32-byte seed and
signs a transcript of that seed with a schnorrkel VRF. It derives the
secret from the VRF output and hands out a 96-byte signature. After the player
has found the number, anyone with the public key can run `verify` on the
signature and the seed and get the same secret back. So the CPU cannot change
the number after seeing the guesses.

This project models the part of that program the repository owns:

- the derivation of the secret (`u64::from_le_bytes` of 8 VRF bytes, modulo
  `MAX_SECRET_NUMBER` = 10). `vrf` and `verify` both call one function,
  `SecretNumber.DeriveSecret`;
- the 96-byte signature layout. `vrf` packs it in place into a zeroed array
  (`SignatureLayout.Pack` over `CopyFromSlice`), and `verify` slices it
  (`SignatureLayout.Split`);
- `vrf` (`HonestVrf.CommitSecret`, specified by the function `HonestVrf.Commit`)
  and `verify` (`HonestVrf.Verify`, a chain of three steps that can each fail);
- one round of the guessing loop (`GuessRound.PlayRound`).

The libraries are not modelled. `schnorrkel` and `merlin` are a record of
uninterpreted functions over opaque types (`Schnorrkel.Vrf`), passed in as a
parameter. Two things are assumed about them, each as a predicate stated as a
precondition only where it is used. The first, `Schnorrkel.SignAndVerifyAgree`,
says that decoding the encodings of a signed output and proof gives them back,
and that `vrf_verify` accepts them under the signer's public key and the same
transcript, returning the signer's `VRFInOut`. From that assumption,
`HonestVrf.VerifyCommitRoundTrip` proves the program's promise: "Verification
done, i am an honest cpu".

`vrf_sign` draws a proof nonce from system randomness, so the sign function
takes an explicit `Randomness` argument. The model therefore does not claim that
the proof bytes are a function of the key and seed. The claim that the *secret*
is such a function rests on the second assumption,
`Schnorrkel.OutputIsDeterministic`: the VRF output does not depend on that
randomness. Only `HonestVrf.CommitSecretIsDeterministic` uses it.

Three facts about the code shape the model:

- `verify` returns `Option<u8>`: a malformed signature and a rejected one both
  give `None`;
- `verify` takes its arguments in the order public key, signature, seed;
- `vrf` accepts a seed of any length, while `verify` takes exactly 32 bytes.

## Model

| member | source | states |
|---|---|---|
| Bytes.FromLe | cpu-honest-guessing-game/src/main.rs:94 | the little-endian value of n bytes is below 256^n |
| Bytes.FromLeIsWeightedSum | cpu-honest-guessing-game/src/main.rs:94 | the value read is the positional sum of b[i] * 256^i |
| Bytes.FromLeToLe | cpu-honest-guessing-game/src/main.rs:94 | encoding a number that fits in n bytes and decoding it gives the number back |
| Bytes.ToLeFromLe | cpu-honest-guessing-game/src/main.rs:94 | decoding bytes and encoding the number at the same width gives the bytes back |
| Bytes.U64FromLeBytes | cpu-honest-guessing-game/src/main.rs:94 | `u64::from_le_bytes` (also used at line 111) is the positional sum of the 8 bytes and fits in a u64; the bytes are recovered from its result, so it is injective |
| SecretNumber.DeriveSecret | cpu-honest-guessing-game/src/main.rs:94 | the secret (derived identically at line 111) is below MAX_SECRET_NUMBER and is congruent modulo 10 to the little-endian value of the 8 bytes; the cast to u8 never truncates |
| SecretNumber.CountResidueClosedForm | cpu-honest-guessing-game/src/main.rs:94 | among the numbers below n, residue r modulo m occurs n / m times, plus one when r < n % m |
| SecretNumber.SecretBias | cpu-honest-guessing-game/src/main.rs:94 | over all 2^64 u64 values, secrets 0 to 5 each have 1844674407370955162 preimages and secrets 6 to 9 each have one fewer: the reduction is slightly biased |
| SignatureLayout.CopyFromSlice | cpu-honest-guessing-game/src/main.rs:97-99 | `copy_from_slice` into `dst[lo..lo+len]` overwrites exactly that range with the source and leaves the rest of the array unchanged |
| SignatureLayout.Pack | cpu-honest-guessing-game/src/main.rs:95-99 | after both copies, bytes [0,32) of the signature are the pre-output's bytes and bytes [32,96) the proof's; no initial zero byte remains |
| SignatureLayout.SplitJoin | cpu-honest-guessing-game/src/main.rs:107-108 | slicing a packed signature at 32 and 96 returns the pre-output bytes and the proof bytes that were packed |
| SignatureLayout.JoinSplit | cpu-honest-guessing-game/src/main.rs:107-108 | the two slices of any 96-byte signature rejoin to it, so the layout is a bijection |
| HonestVrf.BuildTranscriptBindsSeed | cpu-honest-guessing-game/src/main.rs:105-106 | the transcript value both halves hand to the library (also built at lines 90-91) carries the label "Secret Number Transcript" and exactly one message, the seed under "seed"; two such values are equal exactly when the seeds are (a fact about the value, not about merlin's hashing) |
| HonestVrf.Commit | cpu-honest-guessing-game/src/main.rs:89-101 | `vrf`'s result: the secret is `DeriveSecret` of the 8 "secret" bytes of the output signed over the seed's transcript (so below MAX_SECRET_NUMBER), and a signature whose two slices are the encodings of the signed pre-output and of the proof |
| HonestVrf.CommitSecret | cpu-honest-guessing-game/src/main.rs:89-101 | the imperative `vrf`: sign the seed's transcript, derive the secret and pack the signature in place; it returns exactly `Commit` |
| HonestVrf.Verify | cpu-honest-guessing-game/src/main.rs:104-113 | `verify` returns None when the pre-output bytes do not decode, when the proof bytes do not decode, or when VRF verification rejects; when all three steps succeed it returns Some of `DeriveSecret` of the verified output's "secret" bytes, and any Some it returns arises that way and is below MAX_SECRET_NUMBER |
| HonestVrf.VerifyCommitRoundTrip | cpu-honest-guessing-game/src/main.rs:105-112 | if the library's sign and verify agree, verifying `vrf`'s signature with the signer's public key and the same seed returns Some of `vrf`'s secret, so the comparison at line 70 succeeds |
| HonestVrf.CommitSecretIsDeterministic | cpu-honest-guessing-game/src/main.rs:92-97 | if the VRF output does not depend on the signer's randomness, two commits to the same key and seed give the same secret and the same pre-output half of the signature |
| GuessRound.Respond | cpu-honest-guessing-game/src/main.rs:55-64 | a line that does not parse gets an error reply; a guess gets exactly one of "too big" (guess > secret), "too small" (guess < secret) or "found in count tries" (equality) |
| GuessRound.AnswersAt | cpu-honest-guessing-game/src/main.rs:45-65 | in a round that runs on through n lines, reply k answers line k with the number of parsed guesses up to and including it |
| GuessRound.PlayRound | cpu-honest-guessing-game/src/main.rs:35-66 | the loop's replies are the answers to the lines it read, in order, and count is the number of parsed guesses among them (unparseable lines do not add to it); the round ends exactly after the first guess equal to the secret, whose reply is "found in count tries"; without such a guess every line is answered |

## Left out

- The cryptography of `schnorrkel` (`vrf_sign`, `vrf_verify`, `to_preout`, the `to_bytes`/`from_bytes` encodings, `make_bytes`) and `merlin`'s transcript hashing. They are uninterpreted functions. Tamper rejection, cross-key rejection, wrong-seed rejection and the binding of the secret to the proof are properties of that library, and the model does not claim them.
- The batchable-proof results of `vrf_sign` and `vrf_verify`, which the game ignores.
- Randomness: the `OsRng` key generation (lines 17-18) and `get_random_seed` (lines 81-87). The key pair and seed are inputs, and so is the proof nonce `vrf_sign` draws.
- I/O and process control: printing, ANSI colouring, the debug print of the secret (lines 32-33), `read_line` and its error exit (lines 40-43), and the `trim().parse::<u8>()` of each line. Each line is given as the already-parsed `Option<u8>`.
- The `.unwrap()` at line 69, which panics when `verify` returns None. `Verify` returns the `Option` itself. The comparison printed at lines 70-77 is covered by `HonestVrf.VerifyCommitRoundTrip`.
- The outer infinite `loop` of `main` (lines 20-78). It only repeats rounds.
- `merlin::Transcript` is updated in place in Rust. Here it is a value that `AppendMessage` returns, because it is library state and nothing in the game aliases it.
- GuessRound.PlayRound: `count` is an inferred `i32` in the source. The model uses an unbounded `nat`, so overflow after 2^31 - 1 parsed guesses is not modelled.
- GuessRound.PlayRound: the lines are a finite sequence. At end of input the program would keep reading empty lines that never parse. In the model, an input without the secret is answered line by line and the round is left without a `Found` reply.

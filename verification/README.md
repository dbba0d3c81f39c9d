# Verified models of the MySocial TypeScript SDKs

This Dafny 4.11 project models the parts of the repository where the logic is hardest and proves
what they are for.

- **Threshold encryption** (`packages/mydata`). `GF256.dfy`, `Polynomial.dfy`, `Interpolation.dfy`
  and `Shamir.dfy` build the field from the program's tables, the polynomial ring, interpolation and
  secret sharing. `Dem.dfy` and `Envelope.dfy` wrap them into the hybrid scheme of `encrypt` and
  `decrypt`, and `Opening.dfy` says what opens its masks. `FetchKeys.dfy` is the weighted key-fetch
  protocol with the client's key cache, `FetchAnswers.dfy` says which answers it counts and
  `FetchEnough.dfy` when it leaves enough shares to decrypt; `EndToEnd.dfy` puts encryption, fetching
  and decryption together.
- **Confidential transfers** (`packages/contra`). `Modular.dfy` is arithmetic modulo the group
  order, `Ristretto.dfy` the discrete-log table with its cache, `ElGamal.dfy` and `Amounts.dfy` the
  ciphertexts, `Nizk.dfy` the sigma protocols, `Transcripts.dfy` what they bind and reveal, `Auditor.dfy` the recovery of keys, `Transfer.dfy` and
  `Rotation.dfy` the balance statements, and `Batching.dfy` the partition into range proofs.
- **BCS** (`packages/bcs`). `Uleb.dfy`, `BcsWriter.dfy` and `BcsReader.dfy` are the primitives,
  `Bcs.dfy` defines what is written and read for every schema, `BcsFormat.dfy` spells the bytes out,
  `BcsOrder.dfy` says which values come back and `BcsBytes.dfy` which byte strings are written back,
  `BcsMaps.dfy` treats sorted maps and sizes, and `BcsIo.dfy` proves the write, read, serialize
  and parse paths against it.
- **Structure** (`packages/codegen`, `packages/move-bytecode-template`). `Codegen.dfy` is the
  inclusion of a type with its dependencies, `Reindex.dfy` the renaming of identifiers in a module.

## How the models read

Code that computes by expressions is a function; a loop is a method with its invariants, proved
equal to a function whose properties are lemmas; an object with changing fields is a class. Errors
are values of `Result`, `Option` or `Outcome`. Random draws, challenges, hashes and calls into
cryptographic libraries are arbitrary parameters with the algebraic facts that are needed: pairings
and both elliptic groups are written by exponents modulo a prime order, so bilinearity is
multiplication, and a ristretto point also carries which of its four Edwards representatives it is.

Several obvious claims do not hold, and the project states exactly when they do:

- The balance proof of a transfer or rotation is accepted if and only if what remains is below 2^64
  (`Transfer.UpdateVerifies`, `Rotation.RestatementVerifies`), because the limbs drop higher bits;
  commitments add up if and only if all amounts are below 2^64 (`Transfer.CommitmentsConserved`).
- The old balance of a rotation is the one its own merge produces if and only if deposits were
  counted or the pending ciphertext is trivial; otherwise the rotation's balance proof is accepted
  only if its mask is zero and two challenges agree (`Rotation.OldIsMergedIff`,
  `Rotation.MergedProofAccepted`, `Rotation.ZeroPendingNotMerged`).
- A BCS value is read back with its maps sorted, and otherwise unchanged, if and only if it is
  canonical but for the order of map entries: no null enum payload, exactly the declared fields, no
  null in a small integer field, no primitive map key twice. It is read back as it is if and only if
  its maps are in key-byte order too (`BcsIo.ParseSerialized`, `BcsIo.NullPayloadLost`).
- A BCS byte string that is read is written back unchanged if and only if it pads no number, spells
  Booleans 0 or 1, holds no null payload and lists map keys in order (`BcsBytes.WrittenBackIff`).
- A server that does not occur in the object still adds weight to a fetch. Every fetch that returns
  leaves enough shares if and only if no choice of configured servers weighs the threshold with
  fewer shares in the object; for accepted services, if and only if the absent servers cannot lift a
  choice of the others from below the threshold to it (`FetchEnough.SufficesIff`,
  `FetchEnough.AcceptedSufficesIff`, `FetchEnough.AbsentServerCounts`).
- `getDerivedKeys` documents exactly threshold many keys, but it counts weights. It returns that many
  if and only if that many cached servers, and not fewer, weigh the threshold
  (`FetchKeys.DerivedCount`, `FetchKeys.FewerKeysThanThreshold`).
- Enum variant and field names and friend declarations are not re-indexed; such an index still names
  the right identifier if and only if it lies in the range that name takes in the sorted pool
  (`Reindex.StaleIndexIff`, `Reindex.StaleIndexLost`).

## Model

| member | source | states |
|---|---|---|
| Galois.ExpIsPower | packages/mydata/src/shamir.ts:71-89 | Entry i of the EXP table is the i-th power of the generator 3 in the field of section 4.2 of FIPS 197. |
| Galois.LogIsLog | packages/mydata/src/shamir.ts:22-27 | For every non-zero element the logarithm read from the LOG table is the exponent of 3 that gives it. |
| Galois.TableMulIsMul | packages/mydata/src/shamir.ts:47-52 | The logarithm-table product is the field product defined independently by shifting and adding, zero included. |
| Galois.TableDivIsDiv | packages/mydata/src/shamir.ts:54-56 | Division throws exactly for a zero divisor and otherwise is the field quotient. |
| Galois.MulAssoc | packages/mydata/src/shamir.ts:9-11 | The product is associative; with MulComm, MulAdd and MulInverse this is the field the class claims to be. |
| Galois.MulAdd | packages/mydata/src/shamir.ts:9-11 | The product distributes over the sum on both sides. |
| Galois.MulInverse | packages/mydata/src/shamir.ts:9-11 | Every non-zero element has an inverse. |
| Polynomials.NewPolynomial | packages/mydata/src/shamir.ts:121-135 | The trimming loop leaves a non-zero leading coefficient and changes no coefficient. |
| Polynomials.MulCoefficient | packages/mydata/src/shamir.ts:167-181 | The inner loop of mul computes coefficient i of the product, as the full convolution. |
| Polynomials.EvaluatePlus | packages/mydata/src/shamir.ts:157-165 | Evaluating a sum is adding the evaluations. |
| Polynomials.EvaluateTimes | packages/mydata/src/shamir.ts:167-181 | Evaluating a product is multiplying the evaluations. |
| Polynomials.EvaluateScale | packages/mydata/src/shamir.ts:183-186 | Evaluating a scaled polynomial scales the evaluation. |
| Polynomials.RootBound | packages/mydata/src/shamir.ts:114-135 | A polynomial with as many distinct roots as coefficients is zero. |
| Polynomials.AgreeingPolynomialsEqual | packages/mydata/src/shamir.ts:257-265 | Polynomials that agree on as many points as they have coefficients are equal. |
| Interpolation.InterpolateUnique | packages/mydata/src/shamir.ts:208-226 | For distinct x, a normalized polynomial with at most as many coefficients as points passes through all of them if and only if it is the interpolated one. |
| Interpolation.CombineIsInterpolateAtZero | packages/mydata/src/shamir.ts:234-254 | For distinct x the direct formula throws exactly when some x is zero and otherwise is the interpolated polynomial at zero. |
| Shamir.SplitIs | packages/mydata/src/shamir.ts:297-326 | split fails exactly for a threshold below one or above the total, or a total above 255; otherwise share i has index i + 1 and the secret's length. |
| Shamir.CombineAfterSplit | packages/mydata/src/shamir.ts:297-369 | For every secret, threshold, total and coefficients, any at least threshold distinct shares in any order combine to the secret. |
| Shamir.InterpolateAfterSplit | packages/mydata/src/shamir.ts:371-387 | The function interpolate returns reproduces every share of the split. |
| Shamir.CombineSucceedsIff | packages/mydata/src/shamir.ts:328-369 | combine returns exactly for non-empty lists of equally long shares with distinct, valid, non-zero indices (zero is allowed for empty shares). |
| Shamir.CombineAtZero | packages/mydata/src/shamir.ts:354-387 | Whenever combine returns, so does interpolate, and the secret is its function at zero. |
| Shamir.BelowThresholdRevealsNothing | packages/mydata/src/shamir.ts:297-326 | For any threshold minus one shares and any candidate secret of their length, exactly one choice of coefficients produces both. |
| Shamir.ConsistentCombine | packages/mydata/src/shamir.ts:354-387 | Two collections from one list whose interpolants both pass through the whole list combine to the same secret. |
| Dem.EncryptInCtrMode | packages/mydata/src/dem.ts:183-197 | The block loop masks byte k with byte k mod 32 of the keyed hash of the counter k div 32. |
| Dem.CtrModeTwice | packages/mydata/src/dem.ts:158-175 | Applying the counter mode twice restores the message. |
| Dem.DecryptIff | packages/mydata/src/dem.ts:146-181 | A ciphertext decrypts to a message exactly when encrypting that message with the same key and associated data gives that ciphertext. |
| Dem.AcceptedIff | packages/mydata/src/dem.ts:146-181 | A ciphertext is accepted exactly when the key has 32 bytes and the MAC is the keyed hash of the length of the associated data, the associated data and the masked message. |
| Dem.TamperedIsCollision | packages/mydata/src/dem.ts:177-181 | Two different accepted ciphertexts with one MAC are a collision of the keyed hash. |
| Dem.MacInputInjective | packages/mydata/src/dem.ts:177-181 | Different associated data or ciphertexts are authenticated by different hash inputs. |
| Dem.InputsSeparated | packages/mydata/src/dem.ts:177-204 | No counter block is hashed as a MAC input, and different counters are hashed differently. |
| Ibe.DecapEncap | packages/mydata/src/ibe.ts:173-192 | A key that passes verification decapsulates the nonce to the value that was encapsulated for its server. |
| Ibe.ScalarRoundTrip | packages/mydata/src/ibe.ts:216-229 | A non-zero scalar is decoded from its big-endian bytes. |
| Ibe.TwoRandomnessValues | packages/mydata/src/ibe.ts:203-258 | With the other encoding allowed exactly two byte strings open a nonce, the scalar in either byte order; without it, exactly one. |
| Ibe.TwoEncodingsDiffer | packages/mydata/src/ibe.ts:216-229 | They really are two: the byte orders of the scalar one differ. |
| Opening.VerifyIff | packages/mydata/src/ibe.ts:99-103 | A user key passes verification exactly when it is the hashed ID times the secret of the server's public key. |
| Opening.DecapIff | packages/mydata/src/ibe.ts:173-192 | Pairing a key with the nonce gives the encapsulated value exactly when the key passes verification. |
| Opening.OpensIff | packages/mydata/src/kdf.ts:40-62 | A share masked for one pairing value, nonce, ID, server and index opens with others exactly when the hash is the same at both. |
| Opening.OnlyVerifiedKeysOpen | packages/mydata/src/ibe.ts:73-75 | If the hash tells pairing values apart, the share of a server opens with exactly the user keys that pass verification for it. |
| Opening.OtherServiceOpensIff | packages/mydata/src/kdf.ts:48-61 | A share opens under another index or server exactly when the hash does not tell the two apart. |
| Opening.EncryptOutput | packages/mydata/src/encrypt.ts:46-105 | What encrypt puts into the object, down to the inputs of every hash. |
| Opening.DeriveIs | packages/mydata/src/kdf.ts:90-126 | When a key can be derived, and that it depends on purpose, base key, threshold, masked shares and servers. |
| Opening.RandomnessOpensIff | packages/mydata/src/ibe.ts:76-83 | The masked randomness opens with exactly the derivations at which the hash is the one used, so not with the message key when the hash tells the two purposes apart. |
| Opening.DecryptOutput | packages/mydata/src/decrypt.ts:76-137 | For any object, a decryption that succeeds has found a base key under which the masked randomness encodes the scalar of the nonce and the message opens. |
| Opening.RandomnessRefused | packages/mydata/src/ibe.ts:216-258 | Randomness of the wrong length, zero or not below the order is refused, and nothing else is. |
| Envelope.EncryptSeals | packages/mydata/src/encrypt.ts:46-105 | encrypt fails exactly on an invalid threshold, server count or identifier; otherwise the object seals the shares of the base key to its servers. |
| Envelope.DecryptAfterEncrypt | packages/mydata/src/decrypt.ts:41-137 | For every message, server list with repeats, threshold and randomness, decrypt of an encrypted object returns the message with every keystore of verified keys that covers threshold shares, with or without the consistency check and in both nonce encodings. |
| Envelope.CheckedDecryptionsAgree | packages/mydata/src/decrypt.ts:101-121 | For any object, even one built to mislead, two checked decryptions with verified keys that succeed return the same message. |
| Envelope.OtherEncodingOnlyAdds | packages/mydata/src/decrypt.ts:99-104 | Where a decryption succeeds with the big-endian nonce check, it returns the same message when the other encoding is allowed too. |
| FetchKeys.StartInv | packages/mydata/src/client.ts:333-350 | The state after the counting loop satisfies the protocol invariant. |
| FetchKeys.SettleInv | packages/mydata/src/client.ts:361-412 | Settling any pending server with any response keeps the invariant: weights match the counted and unsettled servers, every cached key is verified, counted servers have all keys, and the signal has fired exactly when the threshold is reached or out of reach. |
| FetchKeys.EnvironmentInv | packages/mydata/src/client.ts:376-389 | Verified keys cached by other calls in between keep the invariant. |
| FetchKeys.RunInv | packages/mydata/src/client.ts:324-419 | Every run, in every settlement order and with other calls interleaved, keeps the invariant, and what can still be reached never grows. |
| FetchKeys.FailureAbortIsFinal | packages/mydata/src/client.ts:406-412 | After the failure abort no continuation of the call reaches the threshold. |
| FetchAnswers.AddKeysExact | packages/mydata/src/client.ts:376-389 | The loop over received keys throws exactly if one cannot be decoded; of those before it, the cache gets for every ID the last one that passes verification for the server, and nothing else. |
| FetchAnswers.CountedIff | packages/mydata/src/client.ts:361-412 | A settlement counts the server exactly when it answers, all its keys decode, and every ID was cached or has a received key that passes verification for it; otherwise the server fails. Weights, errors and the cache are stated too. |
| FetchAnswers.CompleteRun | packages/mydata/src/client.ts:359-412 | In a run in which every settling server answers for every ID, none fails, and counted and unsettled weight together stay the same. |
| FetchAnswers.EveryoneAnswers | packages/mydata/src/client.ts:324-419 | When every pending server has answered so, the call returns exactly when the weight of all servers reaches the threshold, and has counted all of it. |
| FetchEnough.CountedEnough | packages/mydata/src/client.ts:395-403 | Once the threshold is counted, at whatever moment and with whatever other calls cache, decryption has enough shares unless some configured servers weigh the threshold with fewer shares in the object. |
| FetchEnough.SufficesIff | packages/mydata/src/client.ts:324-419 | For every configuration and object: every fetch that returns, from every cache, for all IDs that include the object's and in every run, leaves decryption enough shares if and only if no choice of configured servers weighs the threshold with fewer shares in the object. |
| FetchEnough.AcceptedSufficesIff | packages/mydata/src/client.ts:201-219 | For accepted services the condition is: no choice of the servers in the object weighs less than the threshold while the absent servers lift it to the threshold. |
| FetchEnough.FetchedEnough | packages/mydata/src/decrypt.ts:53-60 | If every configured server with weight occurs in an accepted object, every fetch that returns leaves decryption enough shares. |
| FetchEnough.AbsentReach | packages/mydata/src/client.ts:201-219 | If the servers absent from an accepted object weigh the threshold, some fetch returns and decryption lacks shares. |
| FetchKeys.NotEnoughIff | packages/mydata/src/decrypt.ts:51-60 | decrypt reports missing shares exactly when the package ID is valid and the keystore covers fewer services than the threshold. |
| FetchEnough.AbsentServerCounts | packages/mydata/src/client.ts:197-219 | A configured server absent from the object still adds weight: the services are accepted and fetching returns, yet decryption lacks shares. |
| EndToEnd.GetWeightedKeyServers | packages/mydata/src/client.ts:272-282 | The nested loop lists every configured server as often as it weighs. |
| EndToEnd.WeightedCount | packages/mydata/src/client.ts:272-282 | In that list every server occurs as often as it weighs, and nothing else occurs. |
| EndToEnd.WeightedAccepted | packages/mydata/src/client.ts:201-219 | The client accepts the services it encrypts to for exactly the thresholds up to its total weight. |
| EndToEnd.EncryptFetchDecrypt | packages/mydata/src/client.ts:105-129 | For all weights, thresholds, messages and random draws: what the client encrypts to its key servers it decrypts after every fetch for the ID and threshold that returns, in whatever order servers answered and whichever failed, with or without the share check. |
| FetchKeys.Begin | packages/mydata/src/client.ts:324-352 | A call throws exactly for a threshold below one or above the total weight, returns at once exactly when the cache has enough, and otherwise starts with the invariant. |
| FetchKeys.FetchKeysCall.constructor | packages/mydata/src/client.ts:333-347 | The counting loop splits the servers by whether the cache has all their keys, with both weights. |
| FetchKeys.FetchKeysCall.CacheKeys | packages/mydata/src/client.ts:375-389 | The key loop changes the cache as AddKeys says, which `FetchAnswers.AddKeysExact` states outright, and ends at a key that cannot be decoded. |
| FetchKeys.FetchKeysCall.Settled | packages/mydata/src/client.ts:361-413 | One handler changes cache and counters as the atomic step whose outcome `FetchAnswers.CountedIff` states. |
| FetchKeys.FetchKeysCall.Finish | packages/mydata/src/client.ts:415-419 | The call returns exactly when the completed weight reaches the threshold; otherwise it throws a most frequent error, or nothing defined when there were none. |
| FetchKeys.ToMajorityError | packages/mydata/src/error.ts:188-204 | The counting loop returns an error whose kind no other kind outnumbers, among equals the one that reached its count first. |
| FetchEnough.ReturnedWeight | packages/mydata/src/client.ts:447-455 | After a fetch that returns for one ID, the servers with a cached key weigh the threshold. |
| FetchKeys.MyDataClient.GetDerivedKeys | packages/mydata/src/client.ts:457-471 | The derived keys are those of the fewest first cached servers that weigh the threshold; their number is the threshold exactly when that many servers, and not fewer, weigh it. |
| FetchKeys.DerivedCount | packages/mydata/src/client.ts:428-471 | After a fetch, exactly threshold keys, fewer, or more are returned according to the weights of the first threshold and threshold minus one cached servers. |
| FetchKeys.UnitWeightsExact | packages/mydata/src/client.ts:428 | The documented count holds when all weights are one. |
| FetchKeys.ZeroWeightGivesMore | packages/mydata/src/client.ts:464-468 | A server of weight zero among the first ones gives more keys than the threshold when no weight exceeds one. |
| FetchKeys.HeavyServerGivesOne | packages/mydata/src/client.ts:464-468 | A first server that weighs a threshold of two or more gives a single key. |
| FetchKeys.FewerKeysThanThreshold | packages/mydata/src/client.ts:428-471 | The documented count is not what the code returns: one server of weight two answers a threshold of two with a single key. |
| DiscreteLog.ComputeTableEntries | packages/contra/src/twisted_elgamal.ts:83-116 | The chunked walk stores the truncated x-coordinate of i times H at entry i. |
| DiscreteLog.DiscreteLogTable.FromEntries | packages/contra/src/twisted_elgamal.ts:219-238 | Sorting the entries by key gives a table that lists every baby step under its key. |
| DiscreteLog.DiscreteLogTable.LowerBound | packages/contra/src/twisted_elgamal.ts:241-255 | The binary search returns the first position whose key is not below the target. |
| DiscreteLog.DiscreteLogTable.ScanRun | packages/contra/src/twisted_elgamal.ts:266-285 | Scanning the run of equal keys finds a baby step of the point if one is listed under the key, despite collisions. |
| DiscreteLog.DiscreteLogTable.Remember | packages/contra/src/twisted_elgamal.ts:274-281 | A full cache loses exactly its oldest entry; the new one is stored, all others are kept in order, and the cache never exceeds its maximal size. |
| DiscreteLog.DiscreteLogTable.Lookup | packages/contra/src/twisted_elgamal.ts:257-286 | In every cache state lookup returns the one baby step of the point, whichever representative it is, and nothing when there is none; a hit leaves the cache alone. |
| DiscreteLog.DecryptWithInverse | packages/contra/src/twisted_elgamal.ts:416-441 | The giant-step loop returns m exactly when the unmasked element is m times H with m below the square of the table size, and fails when there is no such m. |
| ElGamal.LimbsRoundTrip | packages/contra/src/client.ts:1620-1627 | The four 16-bit limbs keep exactly the value modulo 2^64. |
| ElGamal.EncryptEncrypts | packages/contra/src/twisted_elgamal.ts:306-313 | A fresh encryption encrypts its value under the key pair. |
| ElGamal.TrivialEncrypts | packages/contra/src/twisted_elgamal.ts:374-377 | A trivial ciphertext encrypts its value under every key. |
| ElGamal.PlusEncrypts | packages/contra/src/twisted_elgamal.ts:379-385 | A sum of ciphertexts encrypts the sum. |
| ElGamal.MinusEncrypts | packages/contra/src/twisted_elgamal.ts:387-393 | A difference of ciphertexts encrypts the difference. |
| ElGamal.ShiftEncrypts | packages/contra/src/twisted_elgamal.ts:395-399 | A shifted ciphertext encrypts the shifted value. |
| ElGamal.CollapseEncrypts | packages/contra/src/twisted_elgamal.ts:493-500 | The collapsed ciphertext encrypts the limbs put together. |
| ElGamal.EncryptsUnique | packages/contra/src/twisted_elgamal.ts:297-304 | The values one ciphertext encrypts under a non-zero key are congruent modulo the group order. |
| ElGamal.DecryptsIff | packages/contra/src/twisted_elgamal.ts:416-425 | Unmasking with the inverse key leaves value times H exactly when the ciphertext encrypts the value. |
| Nizk.DdhCompleteness | packages/contra/src/nizk.ts:57-93 | An honest proof is accepted exactly when the statement holds or the challenge vanishes. |
| Nizk.DdhSoundness | packages/contra/src/nizk.ts:75-93 | Two accepting transcripts with the same commitments and different challenges yield the common discrete logarithm. |
| Nizk.TransplantedProof | packages/contra/src/nizk.ts:57-93 | A proof made for one statement is accepted for another true one with the same key exactly when both challenges agree and the second bases agree or the mask vanishes. |
| Nizk.ElGamalCompleteness | packages/contra/src/nizk.ts:152-177 | The consistency proof of every encryption satisfies the verification equations. |
| Nizk.ElGamalSoundness | packages/contra/src/nizk.ts:126-132 | Two accepting transcripts with different challenges yield one blinding for handle and commitment and a value for the commitment. |
| Nizk.LimbsRoundTrip | packages/contra/src/nizk.ts:182-197 | Splitting a scalar into eight 32-bit limbs and or-ing them together gives its low 256 bits, which are also their weighted sum. |
| Nizk.VerifyKey | packages/contra/src/nizk.ts:324-372 | The three loops, with their running sum and power of 2^32, accept exactly when every list element they read is present and the three families of equations hold; the verifier throws only when a list is too short. |
| Nizk.KeyCompleteness | packages/contra/src/nizk.ts:269-318 | Every honest key-consistency proof is accepted, for all keys, recipients, masks and challenges. |
| Nizk.KeySoundness | packages/contra/src/nizk.ts:231-243 | Two accepting transcripts with different challenges yield witnesses of all three relations. |
| Transcripts.DdhBinds | packages/contra/src/nizk.ts:19-36 | Different statements or commitments give different hash inputs. |
| Transcripts.ElGamalBinds | packages/contra/src/nizk.ts:103-124 | The same for the proof of a ciphertext. |
| Transcripts.CommitHides | packages/contra/src/twisted_elgamal.ts:306-313 | For every value and every element exactly one blinding below the order makes the element a commitment to the value. |
| Transcripts.DdhTranscript | packages/contra/src/nizk.ts:38-93 | For a fixed challenge and a true statement every accepted transcript is the honest one of exactly one mask, so it tells nothing about the witness. |
| Transcripts.ElGamalTranscript | packages/contra/src/nizk.ts:126-177 | The same for the proof of a ciphertext and its two masks. |
| Transcripts.KeyTranscript | packages/contra/src/nizk.ts:231-318 | The same for the key-consistency proof and its two lists of masks. |
| Auditor.DecryptWithInverse | packages/contra/src/twisted_elgamal.ts:416-441 | Decryption returns the value below the bound that the ciphertext encrypts under the key, or fails. |
| Auditor.DecryptedIs | packages/contra/src/twisted_elgamal.ts:402-409 | A ciphertext that encrypts m decrypts to m exactly when m is below the bound. |
| Auditor.Prove | packages/contra/src/key_encryption.ts:45-69 | The key's limbs are encrypted to every auditor, each with its own blinding, and proved with the same limbs and blindings. |
| Auditor.HonestProofAccepted | packages/contra/src/key_encryption.ts:45-69 | The proof of every private key of at most 256 bits is accepted for the key's public key. |
| Auditor.RecoverPrivateKey | packages/contra/src/auditor.ts:70-95 | Recovery checks for auditors, version and key in that order, then reports the first failing limb, and otherwise joins the decrypted limbs. |
| Auditor.AuditorRecoversKey | packages/contra/src/auditor.ts:70-95 | Recovery from a key's encrypted limbs returns the key's low 256 bits, and fails exactly when some limb is not below the square of the table size. |
| Auditor.CanonicalKeyRecovered | packages/contra/src/auditor.ts:70-95 | With numBits of at least 16 every canonical private key is recovered, for every auditor list, index and blindings. |
| Amounts.PlusEncrypt | packages/contra/src/twisted_elgamal.ts:379-385 | The sum of two encryptions is the encryption of the sum under the summed blinding. |
| Amounts.ShiftEncrypt | packages/contra/src/twisted_elgamal.ts:395-399 | A shifted encryption is the encryption of the shifted value under the shifted blinding. |
| Amounts.CollapseLimbs | packages/contra/src/twisted_elgamal.ts:493-500 | Collapsed fresh limbs are one encryption of the value modulo 2^64 under the collapsed blinding. |
| Amounts.CollapseBlindingsIs | packages/contra/src/twisted_elgamal.ts:525-533 | The fold over the blindings is the blinding of the collapsed ciphertext. |
| Amounts.DecryptAmount | packages/contra/src/twisted_elgamal.ts:511-522 | The limbs are decrypted in order; the first that fails is the error. |
| Amounts.DecryptedCollapses | packages/contra/src/twisted_elgamal.ts:493-522 | Whoever made the limbs, the collapsed ciphertext encrypts the decrypted amount. |
| Amounts.LimbsDecrypt | packages/contra/src/twisted_elgamal.ts:511-522 | The owner decrypts fresh limbs to the value modulo 2^64. |
| Transfer.GetBalance | packages/contra/src/client.ts:240-275 | Reading a balance succeeds exactly when both amounts decrypt, and pairs each ciphertext with its decryption. |
| Transfer.OldEncrypts | packages/contra/src/client.ts:543-548 | The old balance ciphertext, merged or not, encrypts what the client can spend. |
| Transfer.DecryptionProof | packages/contra/src/twisted_elgamal.ts:344-361 | An honest decryption proof is accepted exactly when the ciphertext encrypts the claimed value or the challenge vanishes. |
| Transfer.UpdateVerifies | packages/contra/src/client.ts:518-570 | The balance proof is accepted exactly when the remainder is below 2^64 or the challenge vanishes, whatever the table; with a table for all limbs the owner decrypts the new balance to the remainder modulo 2^64. |
| Transfer.TransferSucceedsIff | packages/contra/src/client.ts:1042-1070 | With a balance that was read, a transfer is refused exactly for no or more than seven recipients, a recipient who is the sender, does not accept deposits or is frozen, or a total above the spendable balance, and each error is stated. |
| Transfer.RejectionIff | packages/contra/src/client.ts:1042-1069 | The checks of a batch pass exactly for one to seven recipients who are not the sender, accept deposits and are not frozen; the first failing check is reported, the last with exactly the refusing addresses. |
| Transfer.TransferDelivers | packages/contra/src/client.ts:1081-1111 | The batch holds one amount a recipient, which the recipient's key decrypts to the amount modulo 2^64, as the sender's key does its copy; the total is the sum of both sides' ciphertexts exactly when every amount is below 2^64. |
| Transfer.CommitmentsConserved | packages/contra/src/client.ts:1096-1111 | The sender total's commitment is the sum of the collapsed receiver commitments, and the total is the sum of the sender's copies, exactly when every amount is below 2^64. |
| Transfer.ReceiverDecrypts | packages/contra/src/client.ts:1081-1094 | A receiver decrypts its amount modulo 2^64. |
| Transfer.ValueConserved | packages/contra/src/client.ts:1035-1118 | What receivers decrypt from the batch plus what the sender decrypts afterwards is the spendable balance exactly when every amount and the remainder are below 2^64. |
| Transfer.TransferProofs | packages/contra/src/client.ts:1096-1118 | The total never exceeds the spendable balance, its consistency proof is accepted, and the balance proof is accepted exactly when the remainder is below 2^64 or the challenge vanishes. |
| Rotation.RekeyPreservesBalance | packages/contra/src/client.ts:856-883 | Restated and re-keyed limbs share their commitments and decrypt under the old and the new key to the same value modulo 2^64. |
| Rotation.WitnessHolds | packages/contra/src/client.ts:885-893 | The quotient of the keys takes the old key and handle to the new ones. |
| Rotation.HandleProofAccepted | packages/contra/src/client.ts:885-893 | The handle proof is accepted for the collapsed handles of the restated and the re-keyed balance, for every pair of keys. |
| Rotation.RestatementVerifies | packages/contra/src/client.ts:864-873 | The restatement's balance proof is accepted exactly when the value is below 2^64 or the challenge vanishes. |
| Rotation.RotationPreservesBalance | packages/contra/src/client.ts:811-893 | A rotation is refused exactly without pause and merge on an account that accepts or holds deposits, each with its error; otherwise the restated balance under the old key and the re-keyed one under the new key decrypt to the whole balance modulo 2^64, and the handle proof is accepted. |
| Rotation.OldIsMergedIff | packages/contra/src/client.ts:836-851 | The client's old balance is the merged one exactly when there are counted deposits or the pending ciphertext collapses to the trivial one. |
| Rotation.MergedProofAccepted | packages/contra/src/client.ts:836-913 | The balance proof of a merging rotation is accepted against the balance its own merge produces exactly when deposits were counted, or the pending ciphertext is trivial, or the mask is zero and both challenges agree. |
| Rotation.ZeroPendingNotMerged | packages/contra/src/client.ts:837-851 | A pending balance of amount zero can be non-trivial, and then the old balance is not the one the emitted merge produces. |
| Rotation.RotateAndTransferSucceedsIff | packages/contra/src/client.ts:1253-1318 | A rotation with a transfer is refused exactly as a transfer of the whole merged balance is, with the same errors. |
| Rotation.RotatedDelivers | packages/contra/src/client.ts:1302-1329 | Its batch delivers every amount as a transfer does: one encrypted amount a recipient, decrypted by the recipient and, from the copy, by the sender. |
| Rotation.RotatedValueConserved | packages/contra/src/client.ts:1290-1367 | With rotation and transfer together, what receivers decrypt from the batch plus the balance under the new key is the merged balance exactly when all are below 2^64. |
| Rotation.RotatedProofs | packages/contra/src/client.ts:1331-1372 | The total's consistency proof is accepted; the transfer proof is accepted exactly when the remainder is below 2^64 or the challenge vanishes; the restatement and handle proofs are always accepted. |
| Batching.LowestBit | packages/contra/src/bp.ts:91-94 | The bit test n & (n - 1) accepts exactly the powers of two. |
| Batching.BatchRangeProver | packages/contra/src/bp.ts:84-114 | The prover is reached exactly for equally many values and canonical blindings, as many as a power of two. |
| Batching.BatchSizesCanonical | packages/contra/src/helpers.ts:247-256 | n div 8 eights and the binary digits of n mod 8 are non-increasing powers of two of at most eight, none but eight repeated. |
| Batching.CanonicalSum | packages/contra/src/helpers.ts:247-256 | The partition depends on the number of amounts only: such sizes are determined by their sum. |
| Batching.SizesCover | packages/contra/src/helpers.ts:264-286 | n div 8 eights and the binary digits of n mod 8 add up to n. |
| Batching.PartitionFlattens | packages/contra/src/helpers.ts:270-283 | The chunks are contiguous, gap-free and of the given sizes. |
| Batching.FlatLengths | packages/contra/src/helpers.ts:272-277 | A chunk of c amounts gives four c values and as many canonical blindings. |
| Batching.FlatAt | packages/contra/src/helpers.ts:272-277 | Limb j of amount i is element 4 i + j of the flattened values, and its blinding that of the blindings. |
| Batching.BuildWellFormedProof | packages/contra/src/helpers.ts:257-289 | The nested loop ends for every batch and proves each chunk of the canonical partition once, never failing the prover's checks. |
| Uleb.UlebEncode | packages/bcs/src/uleb.ts:7-26 | The loop writes seven bits a byte, low bits first, with the top bit on all but the last; a negative number gives no bytes. |
| Uleb.UlebDecode | packages/bcs/src/uleb.ts:30-61 | The loop returns the number and its length, and throws exactly when the bytes run out or the number exceeds the safe integers. |
| Uleb.UlebRoundTrip | packages/bcs/src/uleb.ts:7-61 | A written number is read back with its length, whatever follows. |
| Uleb.EncodingDigits | packages/bcs/src/uleb.ts:7-26 | Byte i of a written number is its i-th group of seven bits, with the top bit set unless it is the last, which is not padding. |
| Uleb.MinimalIff | packages/bcs/src/uleb.ts:30-61 | The decoder also accepts padded encodings: what it read is the encoding of its value exactly when the last of several bytes is not zero. |
| Writing.ToLittleEndian | packages/bcs/src/writer.ts:214-223 | The loop gives the low bytes, lowest first; excess bytes are dropped and a negative number gives zeros. |
| Writing.LittleAt | packages/bcs/src/writer.ts:214-223 | Byte i of the result is byte i of the number, lowest first. |
| Writing.BcsWriter.EnsureSizeOrGrow | packages/bcs/src/writer.ts:53-73 | Growing keeps every written byte and throws exactly when position plus bytes exceeds the larger of size and maximal size, a limit that never changes. |
| Writing.BcsWriter.Write8 | packages/bcs/src/writer.ts:89-93 | One byte is appended, or nothing for lack of room. |
| Writing.BcsWriter.WriteBytes | packages/bcs/src/writer.ts:100-108 | The bytes are appended, or nothing for lack of room. |
| Writing.BcsWriter.Write16 | packages/bcs/src/writer.ts:114-118 | The low two bytes are appended, lowest first. |
| Writing.BcsWriter.Write32 | packages/bcs/src/writer.ts:124-128 | The low four bytes are appended, lowest first. |
| Writing.BcsWriter.WriteEach | packages/bcs/src/writer.ts:134-170 | Byte-by-byte writing appends all bytes exactly when there is room for all of them, and otherwise keeps what was written. |
| Writing.BcsWriter.WriteBig | packages/bcs/src/writer.ts:134-161 | Eight, sixteen or thirty-two low bytes are appended, lowest first. |
| Writing.BcsWriter.WriteULEB | packages/bcs/src/writer.ts:167-170 | The ULEB encoding is appended. |
| Writing.BcsWriter.ToBytes | packages/bcs/src/writer.ts:201-203 | The written bytes and none of the spare buffer. |
| Reading.JoinHalves | packages/bcs/src/reader.ts:88-95 | Concatenating the hexadecimal digits of two halves, the low one padded, is adding them at their places. |
| Reading.LittleRoundTrip | packages/bcs/src/writer.ts:214-223 | Little-endian bytes of a number that fits read back as the number. |
| Reading.BcsReader.Read64 | packages/bcs/src/reader.ts:88-95 | Two 32-bit reads joined as hexadecimal strings give the little-endian number of all eight bytes. |
| Reading.BcsReader.Read128 | packages/bcs/src/reader.ts:99-105 | The same for sixteen bytes. |
| Reading.BcsReader.Read256 | packages/bcs/src/reader.ts:110-116 | The same for thirty-two bytes. |
| Reading.BcsReader.ReadBytes | packages/bcs/src/reader.ts:121-128 | The bytes come from the underlying buffer, so the read succeeds exactly within the buffer even past the end of the view. |
| Reading.BcsReader.ReadULEB | packages/bcs/src/reader.ts:134-142 | The length is decoded from the underlying buffer and the cursor moves by its bytes. |
| Bcs.CompareBcsBytes | packages/bcs/src/bcs.ts:160-168 | The result is negative exactly when the first byte string ends or has the smaller byte where the two first differ, positive in the converse case, and zero for equal byte strings. |
| Bcs.LexPointwise | packages/bcs/src/bcs.ts:160-168 | The order the maps are sorted by is this comparison at the first difference. |
| Bcs.LexTotal | packages/bcs/src/bcs.ts:155-168 | The order is total and strict. |
| Bcs.LexTransitive | packages/bcs/src/bcs.ts:155-168 | The order is transitive. |
| Bcs.HeadRoundTrip | packages/bcs/src/bcs-type.ts:404-432 | The length, index or leaf a type writes first is read back. |
| Bcs.RoundTrip | packages/bcs/src/bcs.ts:27-213 | For every schema, accepted value within the readable lengths and suffix, reading what was written returns the canonical value and leaves exactly the suffix. |
| Bcs.EncodeInjective | packages/bcs/src/bcs.ts:27-213 | No encoding is a prefix of another: equal bytes have equal canonical values and suffixes. |
| BcsFormat.LeafAccepted | packages/bcs/src/bcs-type.ts:147-278 | A leaf is accepted exactly for an integer in range, or null for at most four bytes, a Boolean, a byte string, of the fixed length if there is one, or text. |
| BcsFormat.PartsAcceptedIff | packages/bcs/src/bcs.ts:27-213 | A composite is accepted exactly for as many elements as the type fixes, every declared field, null for an option, and all elements, keys and values accepted. |
| BcsFormat.VariantAccepted | packages/bcs/src/bcs-type.ts:416-445 | An enum value is accepted exactly for a variant of the type with an accepted payload. |
| BcsFormat.LeafFormat | packages/bcs/src/bcs.ts:27-148 | Integers are little-endian and null as zeros, Booleans 0 and 1, byte strings and text follow their length, fixed byte strings stand alone. |
| BcsFormat.ChoiceFormat | packages/bcs/src/bcs-type.ts:389-432 | An absent option is 0, a present one 1 and its value; a variant is its index and its payload. |
| BcsFormat.SequenceFormat | packages/bcs/src/bcs-type.ts:316-388 | Elements and fields follow one another in order; a vector starts with their number. |
| BcsFormat.MapFormat | packages/bcs/src/bcs.ts:200-211 | A map is its number of entries and every key and value, in the order of the keys' bytes. |
| BcsBytes.WrittenBackIff | packages/bcs/src/bcs-type.ts:41-68 | A byte string is read as an accepted value and written back unchanged if and only if no number in it is padded, Booleans are 0 or 1, no payload is null, and map keys are in byte order with no primitive one twice, at every depth. |
| Bcs.CanonicalRestored | packages/bcs/src/bcs-type.ts:328-530 | A canonical value is its own canonical value, so it is read back unchanged. |
| BcsOrder.RestoredIff | packages/bcs/src/bcs-type.ts:328-530 | For every schema, maps at every depth included: a value is read back with the entries of its maps in key-byte order and otherwise unchanged if and only if it is canonical but for that order. |
| BcsOrder.RestoredCanonical | packages/bcs/src/bcs-type.ts:328-530 | For every schema a value is read back unchanged only if it is canonical. |
| BcsOrder.SortedSame | packages/bcs/src/bcs.ts:200-211 | Sorting the maps of a value, at every depth, changes none of its bytes. |
| BcsOrder.MapReadBack | packages/bcs/src/bcs.ts:190-212 | A map is read back with the entries that were inserted, their own maps sorted, in key-byte order, and it writes the same bytes again. |
| BcsOrder.SameMapping | packages/bcs/src/bcs.ts:190-212 | With canonical keys and values and no primitive key twice, a map is read back as the same mapping whatever the insertion order. |
| BcsOrder.LastValueWins | packages/bcs/src/bcs.ts:192-199 | A primitive key that is read more than once has the last value read for it. |
| BcsOrder.KeyKept | packages/bcs/src/bcs.ts:192-199 | Every key that is read is in the map. |
| BcsMaps.SortIsStrict | packages/bcs/src/bcs.ts:200-206 | Entries with different key bytes are written in strictly increasing order of those bytes, decided at the first difference. |
| BcsMaps.KeysDistinct | packages/bcs/src/bcs.ts:200-203 | Keys that are canonical but for their own maps and differ in more than map order have different bytes. |
| BcsMaps.CanonicalKeysDiffer | packages/bcs/src/bcs.ts:200-203 | Canonical keys that differ at all differ in this sense. |
| BcsMaps.MapOrderIrrelevant | packages/bcs/src/bcs.ts:200-211 | Two insertion orders of entries with different key bytes are written as the same bytes. |
| BcsMaps.InsertionOrderIrrelevant | packages/bcs/src/bcs.ts:190-212 | Two insertion orders of a map with different keys are written as the same bytes. |
| BcsMaps.SizeIsLength | packages/bcs/src/bcs-type.ts:333-345 | A serialized size that is not null is the length of the output. |
| BcsIo.SizeOf | packages/bcs/src/bcs-type.ts:495-507 | The size loops return the sum of the parts, or nothing if one is unknown. |
| BcsIo.Write | packages/bcs/src/bcs-type.ts:55-58 | Writing succeeds exactly for accepted values with room, and appends exactly the encoding, for every type and every buffer configuration. |
| BcsIo.WriteMap | packages/bcs/src/bcs.ts:200-211 | Maps write their length and the entries sorted by serialized key. |
| BcsIo.Serialize | packages/bcs/src/bcs-type.ts:41-63 | Serialization gives the same bytes as writing whatever the sizes, and fails exactly for a refused value or, except for text and ULEB types, when the output exceeds both the initial and the maximal size. |
| BcsIo.Read | packages/bcs/src/bcs-type.ts:346-353 | Reading returns the decoded value and moves the cursor to its end, or throws the specified error, for every type. |
| BcsIo.ReadEntries | packages/bcs/src/bcs.ts:192-199 | Map entries are set one after another; a primitive key that repeats keeps its place. |
| BcsIo.Parse | packages/bcs/src/bcs-type.ts:65-68 | Parsing returns the decoded value and ignores bytes after it. |
| BcsIo.ParseSerialized | packages/bcs/src/bcs-type.ts:60-68 | For every schema, parsing what was serialized gives the value with its maps sorted exactly when it is canonical but for map order, and the value itself exactly when it is canonical. |
| BcsIo.NullPayloadLost | packages/bcs/src/bcs-type.ts:415 | A null payload of an enum variant is read back as true. |
| Codegen.FilteredIndex | packages/codegen/src/render-types.ts:31-46 | The loop counts the non-phantom parameters before an index; an index past the parameters counts. |
| Codegen.FilteredPlace | packages/codegen/src/render-types.ts:31-46 | The filtered index of a kept parameter is its place among the kept ones. |
| Codegen.WalkExact | packages/codegen/src/render-types.ts:48-183 | Rendering a type throws exactly when a path of rendered parts ends in signer, a placeholder, an unknown parameter or an Option without argument; otherwise it reports exactly the datatypes, not built in, that such paths end in. Parts are reference targets, vector elements, the first argument of Option and the non-phantom arguments of other datatypes. |
| Codegen.BodyExact | packages/codegen/src/move-module-builder.ts:176-221 | The walk over the fields of a struct, an enum or both reports exactly the types that some field names, and throws exactly when some field does. |
| Codegen.VisitGood | packages/codegen/src/move-module-builder.ts:158-225 | One inclusion, from any state of the call stack, adds only types reached from it, each once and after its dependencies, or throws because it reaches a bad type. |
| Codegen.IncludeExact | packages/codegen/src/move-module-builder.ts:158-237 | On every graph, cyclic ones included, inclusion throws exactly when a requested type reaches one that is unknown or cannot be rendered, and for such a cause; otherwise it includes exactly the types reached by the references that fields name, each once, with every dependency that does not lead back to its user before it. |
| Codegen.AcyclicOrder | packages/codegen/src/move-module-builder.ts:158-237 | On acyclic references every dependency of an included type is added before it. |
| Codegen.ModuleBuilders.IncludeType | packages/codegen/src/move-module-builder.ts:158-225 | The recursive method ends and changes the builders' sets and lists as the visit whose outcome `VisitGood` states. |
| Codegen.ModuleBuilders.IncludeAll | packages/codegen/src/move-module-builder.ts:227-237 | The requested types are included one after another up to the first error. |
| Codegen.ProjectOrder | packages/codegen/src/move-module-builder.ts:239-254 | The list of one builder keeps the common order of its types. |
| Codegen.BuilderLists | packages/codegen/src/move-module-builder.ts:158-254 | After includeTypes each builder lists exactly the types of its module that the requested ones reach, each once, and on acyclic references every dependency in the module before its user. |
| Reindex.RenameEach | packages/move-bytecode-template/src/lib.rs:57-75 | The first occurrence of every identifier is renamed by its own update and nothing else is changed. |
| Reindex.FirstInvalidIs | packages/move-bytecode-template/src/lib.rs:57-75 | Renaming fails exactly when some identifier of the pool has an invalid update, and names the first such update. |
| Reindex.SortNamesSorted | packages/move-bytecode-template/src/lib.rs:78-81 | The new pool is sorted byte by byte. |
| Reindex.IndexPreserved | packages/move-bytecode-template/src/lib.rs:78-84 | The new position of an index names the renamed form of what it named, even when renaming makes identifiers equal. |
| Reindex.CompiledModule.RenameIdentifiers | packages/move-bytecode-template/src/lib.rs:57-75 | The loop renames in place, using each update once, and fails exactly at the first invalid new name. |
| Reindex.CompiledModule.UpdateHandles | packages/move-bytecode-template/src/lib.rs:86-106 | Every index of a handle table is replaced by its new position. |
| Reindex.CompiledModule.UpdateStructs | packages/move-bytecode-template/src/lib.rs:108-114 | Every declared struct field's name index is replaced by its new position. |
| Reindex.CompiledModule.UpdateIdentifiers | packages/move-bytecode-template/src/lib.rs:53-125 | The update fails exactly when some identifier's update is invalid, naming the first; otherwise the pool is renamed and sorted, module, datatype, function and struct field indices are replaced, and each enum variant, enum field and friend index is left and resolves correctly exactly in its name's range of the sorted pool. |
| Reindex.NamesPreserved | packages/move-bytecode-template/src/lib.rs:78-106 | Every updated table entry resolves to the renamed form of what it named, in a sorted permutation of the renamed pool. |
| Reindex.FieldNamesPreserved | packages/move-bytecode-template/src/lib.rs:108-114 | The same for every declared struct field. |
| Reindex.StaleIndexIff | packages/move-bytecode-template/src/lib.rs:87-114 | An index that is not updated, as those of enum variants and their fields, still names the renamed form exactly when it lies in the range of positions that name takes in the sorted pool. |
| Reindex.StaleIndexLost | packages/codegen/src/summary.ts:121-142 | Renaming the first of two names past the second leaves such an index at the other name. |

## Left out

- AES-GCM, hash functions, pairings, elliptic-curve arithmetic and Bulletproofs: parameters with the
  algebraic facts the proofs use; hash strength and probabilities are not stated.
- The byte layout of encrypted objects: the envelope works on the decoded object. UTF-8 and
  hexadecimal conversions are left out; text is its bytes.
- Network, storage, sessions, certificates and transaction building: requests settle with an arbitrary
  response, and a client method ends with the material it would put into a transaction.
- On-chain Move code: only the statements the client proves to it; the verification equations of the
  ElGamal proof follow the statement in `packages/contra/src/nizk.ts:126-132`.
- Range proofs: which chunks are proved and with what inputs, not what the proof shows.
- Envelope.CheckedDecryptionsAgree: for the big-endian nonce encoding, the one the client uses with the
  share check; the other encoding admits a second randomness value (`Ibe.TwoRandomnessValues`), which the
  share check does not open.
- FetchKeys.SettleInv: the loaded servers are exactly the configured ones, as `retrieveKeyServers`
  returns them; loading and checking the servers is not modelled.
- Bcs.RoundTrip: values are those the TypeScript types allow, plus null and missing fields; fractions,
  numeric strings and other coercions are not modelled. Vectors have at most 2^32 - 1 elements and byte
  strings and maps at most 2^53 - 1, the lengths the reader can take back.
- `lazy` types: a schema is a finite tree, so recursive types are not modelled; `transform` only as the
  option type uses it; custom validators are left out.
- DiscreteLog.ComputeTableEntries: the x-coordinate of each step is taken from the curve; projective
  coordinates and the batch inversion of a chunk are not modelled. Library sorts are stable insertion
  sorts.
- Transfer.ValueConserved: amounts are natural numbers; a negative amount is not modelled.
- Transfer.TransferDelivers: the consistency proof that every receiver limb carries is left out of the batch;
  it is the proof of `Nizk.ElGamalCompleteness`, for the limb and its blinding.
- Codegen.ModuleBuilders.IncludeType: the builders' fields are kept in one object by module, and the
  text that rendering produces is left out.
- Codegen.WalkExact: which types are reported, not in which order; the order among types that do not
  refer to each other is the one the walk and the visit compute, and no theorem is stated about it.
- Reindex.CompiledModule.UpdateIdentifiers: decoding and encoding of the binary are left out, so a module
  that the encoder rejects for repeated identifiers is not told apart.
- Decoding of malformed group elements and scalars in proofs: transcripts are lists of decoded values.
- `packages/file-storage`, `packages/mysocial-auth`, dapp kits and the generated contract bindings: not
  modelled.

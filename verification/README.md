# Timestamp brute-force decryption, modelled in Dafny

The tool recovers a plaintext that was encrypted with AES-GCM under a 16-byte
key. The key came from a pseudo-random generator seeded with a UNIX
timestamp. The tool walks every second of a window of whole days. For each
second it re-derives the key that second would have seeded and tries
authenticated decryption of the file. It stops at the first second that
verifies.

The model has three modules:

- `Layout` (`layout.dfy`) covers the file layout. The file is a 16-byte nonce, then a 16-byte tag, then the
  ciphertext body. `Split` models the three successive reads.
- `Attempt` (`attempt.dfy`) covers one decryption attempt (`try_decrypt`). The two foreign
  pieces are function-valued fields of a `Primitives` value:
  - `keyOf: int -> Key` stands for seeding the generator and drawing 16 bytes. `Key` is the type of 16-byte sequences.
  - `cipher` stands for AES-GCM decrypt-and-verify (NIST SP 800-38D). It ends in `Verified(plaintext)`, `TagMismatch` or `CipherError`.

  Every result of the model is stated relative to these two functions.
- `KeySpaceSearch` (`search.dfy`) covers the search (`brute_force_decrypt`). It has:
  - a pure reference definition (`SearchFrom`/`Search`: the first second of the window whose attempt succeeds);
  - the progress log as a sequence of `(attempts, timestamp)` events;
  - `BruteForceDecrypt`, the two nested loops, proved equal to the reference.

  The method also returns the sequence of seconds it passed to the attempt, in call order.

`decrypt.py` has no separate error for a file shorter than 32 bytes. The
reads come back short, the cipher layer fails, and the failure is caught at
decrypt.py:26-30, so that second yields None. The model follows the code.
`Split` never fails. `GcmLengthRules` states the two GCM length rules the cipher
layer enforces: an empty nonce is refused, and a tag shorter than 16 bytes never
verifies. Under those rules, every attempt on a short file yields None and the
search over any window ends in NotFound.

## Model

| member | source | states |
|---|---|---|
| Layout.Split | 03_secure_impl_weak_entropy_and_authentication_mechanisms/decrypt.py:12-15 | nonce, tag and body concatenate back to the file; nonce and tag are at most 16 bytes; a short field is followed only by empty fields (a read is short only at end of file) |
| Layout.SplitUnique | 03_secure_impl_weak_entropy_and_authentication_mechanisms/decrypt.py:13-15 | any container with the read shape whose bytes are the file is exactly the split of that file |
| Layout.SplitBytes | 03_secure_impl_weak_entropy_and_authentication_mechanisms/decrypt.py:13-15 | a container with a 16-byte nonce and a 16-byte tag is recovered by splitting its own bytes (the layout round trip) |
| Layout.SplitWellFormedIff | 03_secure_impl_weak_entropy_and_authentication_mechanisms/decrypt.py:13-15 | the split has a full 16-byte nonce and tag exactly when the file has at least 32 bytes; a shorter file gets an empty body and no error |
| Attempt.TryDecrypt | 03_secure_impl_weak_entropy_and_authentication_mechanisms/decrypt.py:9-30 | the attempt yields None exactly when the cipher reports a tag mismatch or any other error, and otherwise the plaintext the cipher verified under the key seeded by the timestamp |
| Attempt.ShortFileNeverDecrypts | 03_secure_impl_weak_entropy_and_authentication_mechanisms/decrypt.py:12-30 | under GCM's length rules (no empty nonce, 16-byte tag), a file shorter than 32 bytes yields None for every timestamp |
| Attempt.TryDecryptOnContainer | 03_secure_impl_weak_entropy_and_authentication_mechanisms/decrypt.py:12-23 | on a file with a full header, the cipher receives exactly the container's nonce, tag and body |
| KeySpaceSearch.NestedOrderIsWindow | 03_secure_impl_weak_entropy_and_authentication_mechanisms/decrypt.py:43-45 | the (day, second-in-day) enumeration lists exactly `start + i` for `i` in `[0, numDays*86400)`, each once, in increasing order; an empty list for `numDays <= 0` |
| KeySpaceSearch.SearchFrom | 03_secure_impl_weak_entropy_and_authentication_mechanisms/decrypt.py:43-55 | from offset `i`: a Found result is a second at or after `start+i` that decrypts, with attempts equal to its offset plus one and no earlier second from `start+i` on decrypting; NotFound means no second from `start+i` to the end of the window decrypts |
| KeySpaceSearch.Search | 03_secure_impl_weak_entropy_and_authentication_mechanisms/decrypt.py:42-62 | Found is the earliest decrypting second of the window, with the counter at `t - start + 1`; NotFound means nothing in the window decrypts and the counter is the window size |
| KeySpaceSearch.SearchFindsIff | 03_secure_impl_weak_entropy_and_authentication_mechanisms/decrypt.py:47-55 | the search finds something iff some second of the window decrypts, and the found second is no later than any decrypting second |
| KeySpaceSearch.RecoversTrueSecond | 03_secure_impl_weak_entropy_and_authentication_mechanisms/decrypt.py:45-55 | a window holding the key-generating second, with no earlier second verifying, returns that second and its message after `t - start + 1` attempts |
| KeySpaceSearch.ExhaustsWindow | 03_secure_impl_weak_entropy_and_authentication_mechanisms/decrypt.py:43-62 | when no second of the window decrypts, the result is NotFound after `numDays*86400` attempts, and after zero attempts when `numDays <= 0` |
| KeySpaceSearch.ShortFileNotFound | 03_secure_impl_weak_entropy_and_authentication_mechanisms/decrypt.py:43-62 | under GCM's length rules, a file shorter than 32 bytes is searched to the end of the window and gives NotFound after `numDays*86400` attempts |
| KeySpaceSearch.ProgressLogExact | 03_secure_impl_weak_entropy_and_authentication_mechanisms/decrypt.py:57-59 | after `m` misses the log holds `m / 10000` events, the k-th for attempt `(k+1)*10000` and the second tried at that attempt |
| KeySpaceSearch.NoProgressAfterSuccess | 03_secure_impl_weak_entropy_and_authentication_mechanisms/decrypt.py:50-59 | for a found search every progress event is for an earlier attempt and an earlier second than the success, because the success check comes first |
| KeySpaceSearch.BruteForceDecrypt | 03_secure_impl_weak_entropy_and_authentication_mechanisms/decrypt.py:33-62 | the nested loops return the reference search result; the seconds passed to the attempt are exactly `start, start+1, …` up to the last attempt, a prefix of the nested enumeration; the progress log is the one for the misses, with none for the succeeding attempt |
| KeySpaceSearch.SearchTwice | 03_secure_impl_weak_entropy_and_authentication_mechanisms/decrypt.py:33-62 | two runs over the same file and window give the same result, the same progress log and the same sequence of tried seconds, and the plaintext returned is the reference search's |

## Left out

- Seeding Python's Mersenne Twister and `randbytes(16)` are foreign library code. They are the `keyOf` parameter, and only their 16-byte length is modelled. The generator's use of the absolute value of a negative seed is not modelled either.
- AES-GCM (`AES.new`, `decrypt_and_verify`) is foreign cryptography. It is the `cipher` parameter; AES and GHASH are not modelled.
- File I/O is not modelled. The source re-opens and re-reads the file on every attempt. The model takes the file as one fixed byte sequence. An I/O exception, which the source would also turn into None, has no counterpart.
- KeySpaceSearch.BruteForceDecrypt: results describe windows inside the range of Python's `datetime`. The uncaught exceptions of the date calls are not modelled. At decrypt.py:39, `start_date + timedelta(days=num_days)` raises `OverflowError` before any attempt when the window end passes year 9999. At decrypt.py:52 and :58, `utcfromtimestamp` raises for an out-of-range second, which ends the run instead of returning the plaintext or continuing. The method instead returns a result for every integer `start` and `numDays`.
- The `num_days=7` default of `brute_force_decrypt` (decrypt.py:33) has no counterpart: `numDays` is always passed.
- `random.seed` at decrypt.py:18 leaves the process-wide generator seeded with the last second tried. That side effect is not modelled; `keyOf` is a pure function.
- Date handling is not modelled: `datetime`, `timedelta`, `strptime`, `utcfromtimestamp` and the `start_date.timestamp()` float conversion. The window start is a given integer.
- Printed messages are not modelled. Progress is the abstract `(attempts, timestamp)` event log, and the success and failure lines are the fields of `SearchResult`.
- Command-line argument handling (the `__main__` block) is glue and is not modelled.

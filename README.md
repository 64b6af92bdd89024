# nacl socket model

A Dafny model of libdill's encrypted message socket (`nacl.c`). The socket
wraps an underlying message socket; every message is sealed with NaCl's
`crypto_secretbox` under a 32-byte key and a fresh 24-byte nonce.

The model covers these parts:

- **Scratch buffers.** `nacl_resizebufs` grows two scratch buffers.
  `NaclSock.ResizeBufs` models it on `array?<byte>` fields that are
  reallocated in place.
- **Send framing.** `nacl_msendl` works as follows:
  - it puts `ZEROBYTES` zeros in front of the gathered chunks;
  - it seals the result;
  - it builds the wire message `nonce || box[BOXZEROBYTES..]`, of 24 + len + 16 bytes.

  The message is assembled in `buf1` and appended to a ghost log of sent
  messages.
- **Receive framing.** `nacl_mrecvl` works as follows:
  - it checks the received size;
  - it rebuilds the zero-padded box in `buf2`;
  - it opens the box;
  - it scatters the plaintext over the caller's chunks.
- **Lifecycle.** `nacl_hquery`, `nacl_hclose` and `nacl_detach` are
  modelled in full. `nacl_attach_mem` and `nacl_attach` are modelled on
  their checks and their success path. The storage flag `mem` decides
  whether close and detach free the object itself.

The modules are:

- `Types`: bytes, the secretbox sizes, size_t conversion and errno values.
  It also holds the outcome types of the collaborators the socket calls.
- `Secretbox`: the primitive, as a pair of functions. `Lawful` states the
  contract NaCl documents for them, and a toy instance shows that the
  contract can be met.
- `IoList`: an iolist is a sequence of chunks `(base, len)` addressing one
  caller memory array, so chunks may overlap. `Gather` and `Scatter`
  specify the two copy loops. `GatherInto` and `ScatterInto` implement
  those loops.
- `Framing`: the wire layout. It has the receive decision `Receive` and
  the send decision `Send`, and `ReceiveAsWritten`, the receive path as
  the code stands (see "## Left out" for what it takes as given). It also holds the round-trip and finding
  lemmas.
- `NaclSocket`: the object as a class, and the entry points.

Collaborators are parameters of the operations, not modelled code:

| collaborator | parameter |
|---|---|
| `iol_check`'s verdict | `iolOk` |
| `realloc` and `malloc` success | `ok1`, `ok2`, `mallocOk` |
| `dill_random` | `random` |
| `msend`'s result | `delivery` |
| `mrecv`'s message or error | `incoming` |
| `hquery(s, msock_type)` | `isMsock` |
| `hmake` | `made` |
| `hdup` | `dup` |
| the handle-table lookup in `nacl_detach` | `found` / `lookupErr` |

`Runtime` records the handles passed to `hclose` and the blocks passed to `free`.

The socket methods follow the code with six repairs, each stated as a
finding below:

- the resize also reallocates a missing `buf2`;
- the receive stops with ENOMEM when the resize fails;
- the receive rejects a message shorter than a nonce with EACCES, as it
  rejects one that does not authenticate;
- the receive stops with EMSGSIZE before scattering a plaintext longer
  than the chunks;
- the scatter loop tests for remaining bytes before it reads a chunk, so
  an empty iolist is never dereferenced;
- the attach error paths free only the block `nacl_attach` allocated,
  once, and never caller storage or an uninitialised pointer.

For the first two and the last, the source text is evidently at fault. The
other three are cases the code leaves unchecked. The code has no error of its own for
them, so the model picks EACCES and EMSGSIZE for the short message and
the long plaintext. For an empty plaintext it returns 0 without touching
the list. The unrepaired behaviour is modelled
beside each repair:

- `ResizeBufsAsWritten` for the resize;
- `ReceiveAsWritten` for the receive, which returns `Undefined` where the C
  code leaves defined behaviour;
- `AttachMemFreesAsWritten` and `AttachFreesAsWritten` for the attach
  error paths.

## Model

| member | source | states |
|---|---|---|
| Secretbox.ToyIsLawful | nacl.c:169-202 | the secretbox contract assumed for `crypto_secretbox` and `crypto_secretbox_open` is satisfiable: seal keeps the length and yields BOXZEROBYTES leading zeros, open inverts seal, and a successful open yields a padded message as long as the box |
| IoList.CopyInto | nacl.c:171-174 | memcpy into an array: the target range holds the source bytes and every other byte is unchanged |
| IoList.GatherInto | nacl.c:162-168 | the gather loop leaves the chunks' bytes, concatenated in list order, at the given offset of the buffer, and nothing else changes |
| IoList.ScatterInto | nacl.c:205-215 | the scatter loop, stopping when no bytes remain, leaves memory equal to Scatter: each chunk in order takes min(remaining, iol_len) bytes, and a null-base chunk is skipped but consumes its length |
| IoList.WalksOffIff | nacl.c:207-215 | `WalksOff`, the scatter loop as written, reaches a null `iol_next` exactly when the list is empty or the plaintext is longer than the chunks' total length |
| IoList.ScatterUntouched | nacl.c:208-215 | a byte that no chunk with a base addresses is never written by the scatter |
| IoList.GatherScatterPrefix | nacl.c:165-215 | over disjoint chunks with room for the plaintext, gathering after a scatter gives bytes that start with the scattered plaintext, whatever spare room the chunks have |
| IoList.GatherScatter | nacl.c:165-215 | over disjoint chunks, gathering after a scatter of exactly the chunks' total length gives the scattered bytes back |
| Framing.Workspace | nacl.c:161-168 | the send workspace is ZEROBYTES zeros followed by the plaintext, mlen = len + ZEROBYTES bytes, padded as the primitive requires |
| Framing.Frame | nacl.c:169-177 | the wire message starts with the nonce and is NONCEBYTES + mlen - BOXZEROBYTES = len + 40 bytes long, which fits the NACL_EXTRABYTES + len buffer |
| Framing.Box | nacl.c:196-201 | the box rebuilt from a message of sz bytes is BOXZEROBYTES + (sz - NONCEBYTES) bytes long |
| Framing.Send | nacl.c:151-177 | a send is refused with EINVAL, ENOMEM or the random source's error before msend is reached exactly when the iolist check, the resize or the nonce draw fails; otherwise the message handed on starts with the drawn nonce and is len + 40 bytes long |
| Framing.Receive | nacl.c:184-217 | the corrected receive is never undefined, returns at most the chunks' total length, and returns exactly sz - NONCEBYTES - (ZEROBYTES - BOXZEROBYTES) bytes when it succeeds |
| Framing.FrameOpens | nacl.c:169-202 | the box the receive rebuilds from a framed message is exactly the box the send sealed, and it opens, under the nonce at the head of the message, to the send workspace |
| Framing.RoundTrip | nacl.c:169-215 | receiving a framed message returns the sent plaintext whenever the chunks can hold it |
| Framing.SendReceive | nacl.c:147-217 | whatever a send hands to msend, a receiver with the same key and enough room recovers the sent plaintext from it |
| Framing.ReceiveAsWritten | nacl.c:180-218 | the receive as written, its checks in source order: EINVAL when the iolist check fails, mrecv's own error, EMSGSIZE when sz exceeds NACL_EXTRABYTES + len (:191), `Undefined(NullScratch)` after a failed resize, `Undefined(CopyLengthWraps)` when sz < NONCEBYTES, EACCES when the open fails, `Undefined(WalksOffList)` when the scatter walks off the list (`WalksOff`), else the plaintext; it is undefined only for a received message within the bound, and a returned plaintext is sz - 40 bytes long |
| Framing.AsWrittenAgreesWhenDefined | nacl.c:180-218 | after a successful resize, wherever the receive as written is defined it returns what the corrected receive returns |
| Framing.ResizeFailureIgnored | nacl.c:187-198 | as written, a failed resize is not seen: a message within the bound reaches a NULL scratch buffer, and a longer one fails with EMSGSIZE; the corrected receive fails with ENOMEM |
| Framing.ShortMessageWraps | nacl.c:196-201 | as written, a message shorter than a nonce makes the buf2 memcpy length `CopyLengthAsWritten` wrap to at least 2^64 - 24 bytes; the corrected receive fails with EACCES |
| Framing.CopyLengthOfLongMessage | nacl.c:196-201 | from NONCEBYTES bytes on, the buf2 memcpy length `CopyLengthAsWritten` is the ciphertext length sz - NONCEBYTES |
| Framing.OversizedPlaintextWalksOff | nacl.c:191-215 | the size bound admits framed plaintexts up to BOXZEROBYTES bytes longer than the chunks; the scatter as written then walks off the list, and the corrected receive fails with EMSGSIZE |
| Framing.EmptyListWalksOff | nacl.c:207-215 | as written, an empty iolist is dereferenced even for an empty plaintext; the corrected receive returns it |
| Framing.ChunksRoundTrip | nacl.c:161-215 | end to end: when the receiver's disjoint chunks have room for the sender's bytes, the receive returns those bytes, and the receiver's chunks, gathered afterwards, start with exactly them |
| Framing.PingScenario | nacl.c:147-218 | with the toy primitive and a zero key, "ping" travels as a 44-byte message and is received as "ping" |
| NaclSocket.HQuery | nacl.c:62-68 | the object answers msock_type with its message-socket table, nacl_type with itself, and every other type with NULL and ENOTSUP |
| NaclSocket.NaclSock.Owned | nacl.c:226-228 | close and detach free each allocated buffer, and the object exactly when it does not live in caller storage |
| NaclSocket.NaclSock.ResizeBufs | nacl.c:136-145 | success exactly when both buffers end up allocated with buflen >= len; nothing changes when they already were; a growth sets buflen to exactly len; buflen never shrinks while both buffers exist |
| NaclSocket.NaclSock.ResizeBufsAsWritten | nacl.c:136-145 | as written, success when buf1 exists with buflen >= len or both reallocs succeed, whether or not buf2 exists |
| NaclSocket.NaclSock.MSendL | nacl.c:147-178 | the send leaves the wire message of Send at the front of buf1 and appends it to the sent log, and returns msend's result; refused sends log nothing; the buffers change as the resize dictates |
| NaclSocket.NaclSock.Seal | nacl.c:160-173 | the chunks' bytes are gathered behind ZEROBYTES zeros and sealed, and the wire message Frame of those bytes (the nonce, then the box without its leading zeros) is left at the front of buf1 |
| NaclSocket.NaclSock.Unseal | nacl.c:192-203 | the nonce and the rebuilt box are taken from the received message, and the opened plaintext, when there is one, is left at the front of buf1 |
| NaclSocket.NaclSock.MRecvL | nacl.c:180-218 | the receive returns what Receive decides: on success the plaintext length and the caller's memory equal to the scatter of the plaintext, on failure the errno and the caller's memory unchanged |
| NaclSocket.NaclSock.Deliver | nacl.c:190-217 | once a message has arrived and both buffers are ready, the result is Receive's verdict: the plaintext length with the caller's memory equal to the scatter of the plaintext, or the errno with the caller's memory unchanged |
| NaclSocket.NaclSock.HClose | nacl.c:220-229 | close passes the underlying socket to hclose only when it is not negative, then frees the owned blocks |
| NaclSocket.NaclSock.Detach | nacl.c:129-133 | detach frees the owned blocks and returns the underlying socket without closing it |
| NaclSocket.DetachHandle | nacl.c:126-134 | detaching a handle that is not a nacl socket fails with the lookup's errno and frees nothing |
| NaclSocket.AttachMem | nacl.c:72-99 | a NULL key or storage gives EINVAL, a socket that is not message-based gives the query's errno; on those two paths the storage is left untouched and nothing is closed or freed; otherwise the storage gets no buffers, the key and mem set, and on success the handle is returned, the object holds the duplicate and the original handle is closed, while a failed hdup closes only the new handle |
| NaclSocket.Attach | nacl.c:111-124 | an allocation failure gives ENOMEM; success exactly when attach_mem succeeds, with mem cleared; on failure the allocated block is freed exactly once, and the only handle closed is the new one when hdup fails, never the caller's `s` |
| NaclSocket.AttachUnwindingAsWritten | nacl.c:100-120 | as written (`AttachMemFreesAsWritten`, `AttachFreesAsWritten`), a failed hmake or hdup inside nacl_attach frees the object twice, inside nacl_attach_mem frees caller storage, and a NULL key frees an uninitialised pointer |
| NaclSocket.ResizeAsWrittenSkipsMissingBuffer | nacl.c:137-142 | a failed second realloc followed by a request of the same size: as written the second call reports success with buf2 NULL |
| NaclSocket.ResizeRetriesMissingBuffer | nacl.c:136-145 | the same two requests against the corrected resize: the retry reallocates buf2 and the buffers are ready |

## Left out

- The XSalsa20-Poly1305 primitive is not modelled. The model proves every
  property for any sealing and opening pair that keeps the NaCl contract
  (`Secretbox.Lawful`).
- The model does not state that a tampered message or a wrong key is
  rejected. That property belongs to the primitive, not to this code.
- `dill_random`, `msend` and `mrecv` are outcome parameters. So are
  `hmake`, `hdup`, `hquery` and `hclose` on the handle table. Deadlines
  are not modelled.
- `iol_check` is represented only by its verdict `iolOk`, with the length
  taken as the chunks' total; iol.c is not part of this model.
- A realloc is modelled as a fresh block of the new length. The model does
  not track that realloc keeps the old contents, or that the old block
  leaks when realloc fails.
- `free(NULL)` is a no-op, and only non-NULL buffers are recorded as freed.
- `NaclSocket.NaclSock.MSendL`: requires the chunks' total to fit in
  size_t together with NACL_EXTRABYTES. The wrap-around of
  `NACL_EXTRABYTES + len` in size_t is not modelled.
- `NaclSocket.NaclSock.MRecvL`: the same size_t requirement as MSendL.
  The method also implements the corrected receive; the code as written is
  modelled only as the function `Framing.ReceiveAsWritten`.
- `NaclSocket.AttachMem`: the error unwinding at nacl.c:100-108 is modelled
  only as the list of frees it performs (`AttachMemFreesAsWritten`). On
  failure the method itself frees nothing. The `errno = ENOMEM` branch at
  nacl.c:80 is unreachable, because NULL storage is rejected at nacl.c:75.
- `NaclSocket.Attach`: implements the repaired unwinding, which frees its
  block once. The double free as written is modelled in
  `AttachFreesAsWritten`.
- The `dill_assert` checks on `hclose`'s result are not modelled; closing
  the handle is assumed to succeed.
- The `DILL_CT_ASSERT` storage-size checks are not modelled, nor is the
  installation of the virtual-function pointers. The class methods stand
  for those pointers.
- `Framing.ReceiveAsWritten`: assumes that `mrecv` into a NULL `buf1`
  discards the message, as a NULL base does in an iolist; msock.c is not
  part of this model. After a failed resize, the first NULL access is
  therefore the nonce memcpy at nacl.c:194 or the memset at nacl.c:198.
- `Framing.ReceiveAsWritten`: its resize argument is what the corrected
  resize reports, so it cannot express the as-written resize reporting
  success with a NULL `buf2`. That state, and the NULL `buf2` it leaves
  for nacl.c:198 and nacl.c:169, is shown only by
  `NaclSocket.ResizeAsWrittenSkipsMissingBuffer`.
- `mrecv`'s own bound on the message size is not modelled. A message of
  any length may arrive, and it is checked against the bound at nacl.c:191.
- `doc/ipaddr_remotes.function.py` is documentation metadata with no executable logic.

## Findings

| source | as written | input that shows it | evidently intended | confidence | as-written member | corrected member |
|---|---|---|---|---|---|---|
| nacl.c:137-142 | the resize condition tests `buf1` and `buflen` but not `buf2` | a failed second realloc, then a request of no more bytes: success is reported with `buf2` NULL, and the next send seals into NULL | reallocate whenever either buffer is missing | not executed | NaclSocket.ResizeAsWrittenSkipsMissingBuffer | NaclSocket.ResizeRetriesMissingBuffer |
| nacl.c:187-189 | the receive ignores the result of `nacl_resizebufs` | a failed first realloc, then a message within the bound: the nonce memcpy at nacl.c:194 reads through a NULL `buf1` | fail with ENOMEM before receiving | not executed | Framing.ResizeFailureIgnored | Framing.Receive |
| nacl.c:196-201 | `sz - NONCEBYTES` is not checked; the memcpy length wraps in size_t | a message of 0 to 23 bytes: the memcpy length is 2^64 - 24 + sz | reject a message shorter than a nonce like one that does not authenticate | not executed | Framing.ShortMessageWraps | Framing.Receive |
| nacl.c:191-215 | the bound admits plaintext 16 bytes longer than the chunks, and the scatter loop has no end-of-list test | chunks with 4 bytes in total, receiving a framed 5-byte plaintext (a 45-byte message, within the bound of 60) | fail with EMSGSIZE before scattering | not executed | Framing.OversizedPlaintextWalksOff | NaclSocket.NaclSock.MRecvL |
| nacl.c:207-215 | the scatter loop reads `it->iol_len` before testing `it` | an empty iolist and an empty plaintext | return 0 without touching the list | not executed | Framing.EmptyListWalksOff | IoList.ScatterInto |
| nacl.c:100-108 | error paths free `obj`, which is uninitialised after the NULL check, is caller storage under `nacl_attach_mem`, and is freed again by `nacl_attach` | `nacl_attach` with `hmake` failing: the object is freed twice | free only what was allocated, once | not executed | NaclSocket.AttachUnwindingAsWritten | NaclSocket.Attach |

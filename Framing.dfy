/** The byte layout of one encrypted message and the decisions of the
    receive path, as functions of its inputs. Receive is the path with the
    evident repairs; ReceiveAsWritten follows nacl_mrecvl as written
    (taking an mrecv into a NULL buffer to discard the message), with
    Undefined for each way it leaves defined C behaviour. */
module Framing {
  import opened Types
  import opened Secretbox
  import opened IoList

  /** The send path's plaintext workspace: ZEROBYTES zeros, then the
      gathered chunks (mlen = len + ZEROBYTES bytes). */
  function Workspace(pt: seq<byte>): (w: seq<byte>)
    ensures Padded(w) && |w| == |pt| + ZEROBYTES && w[ZEROBYTES..] == pt
  {
    Zeros(ZEROBYTES) + pt
  }

  /** The wire message: the nonce, then the sealed workspace without its
      BOXZEROBYTES leading zeros. */
  function Frame(b: Secretbox, key: seq<byte>, nonce: seq<byte>, pt: seq<byte>): (w: seq<byte>)
    requires Lawful(b) && |key| == KEYBYTES && |nonce| == NONCEBYTES
    ensures |w| == NONCEBYTES + |Workspace(pt)| - BOXZEROBYTES
    ensures |w| == |pt| + OVERHEAD && |w| <= EXTRABYTES + |pt|
    ensures w[..NONCEBYTES] == nonce
  {
    nonce + b.seal(Workspace(pt), nonce, key)[BOXZEROBYTES..]
  }

  /** The box the receive path rebuilds in buf2: BOXZEROBYTES zeros in
      place of the nonce, then the rest of the message. */
  function Box(msg: seq<byte>): (c: seq<byte>)
    requires |msg| >= NONCEBYTES
    ensures |c| == |msg| - NONCEBYTES + BOXZEROBYTES
  {
    Zeros(BOXZEROBYTES) + msg[NONCEBYTES..]
  }

  /** What nacl_resizebufs did: both reallocs succeeded (or none was
      needed), or the first or the second one failed. */
  datatype Resize = Resized | FirstReallocFailed | SecondReallocFailed

  /** Ways the receive path as written leaves defined C behaviour. */
  datatype Hazard =
    | NullScratch      // a scratch buffer is NULL after a failed resize
    | CopyLengthWraps  // clen - BOXZEROBYTES wraps round as size_t
    | WalksOffList     // the scatter loop dereferences a null iol_next

  /** The outcome of one receive: the plaintext handed to the caller's
      chunks (its length is the return value), -1 with errno, or
      undefined behaviour. */
  datatype Verdict = Returns(pt: seq<byte>) | Fails(err: Errno) | Undefined(hazard: Hazard)

  /** The length of the memcpy into buf2 as C computes it:
      clen = BOXZEROBYTES + (sz - NONCEBYTES) in ssize_t, stored as
      size_t, then clen - BOXZEROBYTES in size_t. */
  function CopyLengthAsWritten(sz: nat): (n: nat)
  {
    ToSize(ToSize(BOXZEROBYTES + (sz - NONCEBYTES)) - BOXZEROBYTES)
  }

  /** The receive path with the hazards closed: a failed resize fails with
      ENOMEM before anything is received, a message shorter than a nonce
      fails like one that does not authenticate, and plaintext longer
      than the caller's chunks fails with EMSGSIZE instead of being
      scattered past them. */
  function Receive(b: Secretbox, key: seq<byte>, iol: seq<IoVec>, iolOk: bool,
                   resize: Resize, incoming: Incoming): (v: Verdict)
    requires Lawful(b) && |key| == KEYBYTES
    ensures !v.Undefined?
    ensures v.Returns? ==> |v.pt| <= Total(iol)
    ensures v.Returns? ==> incoming.Got? && |incoming.msg| == |v.pt| + OVERHEAD
  {
    if !iolOk then Fails(EINVAL)
    else if resize != Resized then Fails(ENOMEM)
    else match incoming
      case RecvFailed(e) => Fails(e)
      case Got(msg) =>
        if |msg| > EXTRABYTES + Total(iol) then Fails(EMSGSIZE)
        else if |msg| < NONCEBYTES then Fails(EACCES)
        else match b.open(Box(msg), msg[..NONCEBYTES], key)
          case None => Fails(EACCES)
          case Some(p) =>
            if |p| - ZEROBYTES > Total(iol) then Fails(EMSGSIZE)
            else Returns(p[ZEROBYTES..])
  }

  /** nacl_mrecvl as written: the resize result is not looked at, the
      message length is not checked against the nonce length, and the
      plaintext is scattered without looking at the chunks' total. An
      mrecv into a NULL buf1 is taken to discard the message, as a NULL
      base does in an iolist, so after a failed resize the bound check
      still applies and the first NULL access is the nonce memcpy (a NULL
      buf1) or the memset of buf2 (a NULL buf2). */
  function ReceiveAsWritten(b: Secretbox, key: seq<byte>, iol: seq<IoVec>, iolOk: bool,
                            resize: Resize, incoming: Incoming): (v: Verdict)
    requires Lawful(b) && |key| == KEYBYTES
    ensures v.Undefined? ==> iolOk && incoming.Got? && |incoming.msg| <= EXTRABYTES + Total(iol)
    ensures v.Returns? ==> incoming.Got? && |incoming.msg| == |v.pt| + OVERHEAD
  {
    if !iolOk then Fails(EINVAL)
    else match incoming
      case RecvFailed(e) => Fails(e)
      case Got(msg) =>
        if |msg| > EXTRABYTES + Total(iol) then Fails(EMSGSIZE)
        else if resize != Resized then Undefined(NullScratch)
        else if |msg| < NONCEBYTES then Undefined(CopyLengthWraps)
        else match b.open(Box(msg), msg[..NONCEBYTES], key)
          case None => Fails(EACCES)
          case Some(p) =>
            if WalksOff(iol, |p| - ZEROBYTES) then Undefined(WalksOffList)
            else Returns(p[ZEROBYTES..])
  }

  /** The outcome of one send up to the call of msend: the wire message
      handed to the transport, or -1 with errno before anything is sent. */
  datatype Sending = Sends(wire: seq<byte>) | Refused(err: Errno)

  /** nacl_msendl's decisions: an invalid iolist, a failed resize and a
      failed nonce draw stop the send; otherwise the plaintext is framed
      under the drawn nonce. */
  function Send(b: Secretbox, key: seq<byte>, pt: seq<byte>, iolOk: bool,
                resize: Resize, random: Draw): (v: Sending)
    requires Lawful(b) && |key| == KEYBYTES
    requires random.Drawn? ==> |random.nonce| == NONCEBYTES
    ensures v.Sends? <==> iolOk && resize == Resized && random.Drawn?
    ensures !iolOk ==> v == Refused(EINVAL)
    ensures iolOk && resize != Resized ==> v == Refused(ENOMEM)
    ensures iolOk && resize == Resized && random.DrawFailed? ==> v == Refused(random.err)
    ensures v.Sends? ==> |v.wire| == |pt| + OVERHEAD && v.wire[..NONCEBYTES] == random.nonce
  {
    if !iolOk then Refused(EINVAL)
    else if resize != Resized then Refused(ENOMEM)
    else match random
      case DrawFailed(e) => Refused(e)
      case Drawn(nonce) => Sends(Frame(b, key, nonce, pt))
  }

  /** The box receive rebuilds from a message send framed is the box send
      sealed, so it opens, under the nonce at the head of the message, to
      the workspace send sealed. */
  lemma FrameOpens(b: Secretbox, key: seq<byte>, nonce: seq<byte>, pt: seq<byte>)
    requires Lawful(b) && |key| == KEYBYTES && |nonce| == NONCEBYTES
    ensures var msg := Frame(b, key, nonce, pt);
            && msg[..NONCEBYTES] == nonce
            && Box(msg) == b.seal(Workspace(pt), nonce, key)
            && b.open(Box(msg), msg[..NONCEBYTES], key) == Some(Workspace(pt))
  {
    var sealed := b.seal(Workspace(pt), nonce, key);
    var msg := Frame(b, key, nonce, pt);
    assert msg[NONCEBYTES..] == sealed[BOXZEROBYTES..];
    assert Box(msg) == sealed by {
      assert sealed == sealed[..BOXZEROBYTES] + sealed[BOXZEROBYTES..];
    }
  }

  /** Round trip: the receiver recovers the plaintext of a framed message
      whenever its chunks can hold it. */
  lemma RoundTrip(b: Secretbox, key: seq<byte>, nonce: seq<byte>, pt: seq<byte>, iol: seq<IoVec>)
    requires Lawful(b) && |key| == KEYBYTES && |nonce| == NONCEBYTES
    requires |pt| <= Total(iol)
    ensures Receive(b, key, iol, true, Resized, Got(Frame(b, key, nonce, pt))) == Returns(pt)
  {
    FrameOpens(b, key, nonce, pt);
  }

  /** What one socket sends, a peer holding the same key receives: the
      plaintext comes back whenever the receiver's chunks can hold it. */
  lemma {:induction false} SendReceive(b: Secretbox, key: seq<byte>, pt: seq<byte>, iolOk: bool,
                                       resize: Resize, random: Draw, into: seq<IoVec>)
    requires Lawful(b) && |key| == KEYBYTES
    requires random.Drawn? ==> |random.nonce| == NONCEBYTES
    requires Send(b, key, pt, iolOk, resize, random).Sends?
    requires |pt| <= Total(into)
    ensures Receive(b, key, into, true, Resized, Got(Send(b, key, pt, iolOk, resize, random).wire))
         == Returns(pt)
  {
    RoundTrip(b, key, random.nonce, pt, into);
  }

  /** Where the code as written is defined and the resize succeeded, it
      does what Receive does: the repairs change only outcomes that were
      undefined. */
  lemma AsWrittenAgreesWhenDefined(b: Secretbox, key: seq<byte>, iol: seq<IoVec>, iolOk: bool,
                                   incoming: Incoming)
    requires Lawful(b) && |key| == KEYBYTES
    requires !ReceiveAsWritten(b, key, iol, iolOk, Resized, incoming).Undefined?
    ensures ReceiveAsWritten(b, key, iol, iolOk, Resized, incoming)
         == Receive(b, key, iol, iolOk, Resized, incoming)
  {
    match incoming
    case RecvFailed(_) =>
    case Got(msg) =>
      if iolOk && NONCEBYTES <= |msg| <= EXTRABYTES + Total(iol) {
        AgreesOnMessage(b, key, iol, msg);
      }
  }

  /** The case of AsWrittenAgreesWhenDefined that opens the box: a message
      within both bounds. */
  lemma AgreesOnMessage(b: Secretbox, key: seq<byte>, iol: seq<IoVec>, msg: seq<byte>)
    requires Lawful(b) && |key| == KEYBYTES && NONCEBYTES <= |msg| <= EXTRABYTES + Total(iol)
    requires !ReceiveAsWritten(b, key, iol, true, Resized, Got(msg)).Undefined?
    ensures ReceiveAsWritten(b, key, iol, true, Resized, Got(msg))
         == Receive(b, key, iol, true, Resized, Got(msg))
  {
    match b.open(Box(msg), msg[..NONCEBYTES], key)
    case None =>
    case Some(p) =>
      assert |p| == |Box(msg)| >= ZEROBYTES;
      WalksOffIff(iol, |p| - ZEROBYTES);
  }

  /** A failed resize is not looked at: the code as written goes on to a
      NULL scratch buffer with any message within the bound, and fails
      with EMSGSIZE only for a longer one. */
  lemma ResizeFailureIgnored(b: Secretbox, key: seq<byte>, iol: seq<IoVec>, msg: seq<byte>, resize: Resize)
    requires Lawful(b) && |key| == KEYBYTES && resize != Resized
    ensures |msg| <= EXTRABYTES + Total(iol) ==>
              ReceiveAsWritten(b, key, iol, true, resize, Got(msg)) == Undefined(NullScratch)
    ensures |msg| > EXTRABYTES + Total(iol) ==>
              ReceiveAsWritten(b, key, iol, true, resize, Got(msg)) == Fails(EMSGSIZE)
    ensures Receive(b, key, iol, true, resize, Got(msg)) == Fails(ENOMEM)
  {
  }

  /** A message shorter than a nonce makes the memcpy length wrap round to
      at least 2^64 - NONCEBYTES bytes; from NONCEBYTES bytes on it is the
      ciphertext length. */
  lemma {:induction false} ShortMessageWraps(b: Secretbox, key: seq<byte>, iol: seq<IoVec>, msg: seq<byte>)
    requires Lawful(b) && |key| == KEYBYTES && |msg| < NONCEBYTES
    ensures CopyLengthAsWritten(|msg|) >= SIZE_MAX + 1 - NONCEBYTES
    ensures ReceiveAsWritten(b, key, iol, true, Resized, Got(msg)) == Undefined(CopyLengthWraps)
    ensures Receive(b, key, iol, true, Resized, Got(msg)) == Fails(EACCES)
  {
    var sz := |msg|;
    if sz < 8 {
      assert ToSize(BOXZEROBYTES + (sz - NONCEBYTES)) == SIZE_MAX + 1 + sz - 8;
    } else {
      assert ToSize(BOXZEROBYTES + (sz - NONCEBYTES)) == sz - 8;
    }
    assert CopyLengthAsWritten(sz) == SIZE_MAX + 1 + sz - NONCEBYTES;
  }

  lemma CopyLengthOfLongMessage(sz: nat)
    requires NONCEBYTES <= sz <= SIZE_MAX
    ensures CopyLengthAsWritten(sz) == sz - NONCEBYTES
  {
  }

  /** The bound nacl_mrecvl checks (NACL_EXTRABYTES + len) admits a framed
      plaintext up to BOXZEROBYTES bytes longer than the caller's chunks;
      the scatter loop as written then walks off the list, where Receive
      fails with EMSGSIZE. */
  lemma {:induction false} OversizedPlaintextWalksOff(b: Secretbox, key: seq<byte>, nonce: seq<byte>,
                                                      pt: seq<byte>, iol: seq<IoVec>)
    requires Lawful(b) && |key| == KEYBYTES && |nonce| == NONCEBYTES
    requires Total(iol) < |pt| <= Total(iol) + BOXZEROBYTES
    ensures |Frame(b, key, nonce, pt)| <= EXTRABYTES + Total(iol)
    ensures ReceiveAsWritten(b, key, iol, true, Resized, Got(Frame(b, key, nonce, pt))) == Undefined(WalksOffList)
    ensures Receive(b, key, iol, true, Resized, Got(Frame(b, key, nonce, pt))) == Fails(EMSGSIZE)
  {
    FrameOpens(b, key, nonce, pt);
    WalksOffIff(iol, |pt|);
  }

  /** An empty iolist: the loop as written reads the first element before
      testing anything, so even an empty plaintext walks off the list. */
  lemma {:induction false} EmptyListWalksOff(b: Secretbox, key: seq<byte>, nonce: seq<byte>)
    requires Lawful(b) && |key| == KEYBYTES && |nonce| == NONCEBYTES
    ensures ReceiveAsWritten(b, key, [], true, Resized, Got(Frame(b, key, nonce, []))) == Undefined(WalksOffList)
    ensures Receive(b, key, [], true, Resized, Got(Frame(b, key, nonce, []))) == Returns([])
  {
    FrameOpens(b, key, nonce, []);
  }

  /** End to end: when the receiver's chunks are disjoint and have room
      for what the sender's chunks hold, gathering them after the receive
      gives back, at their front, the bytes the sender gathered. */
  lemma {:induction false} ChunksRoundTrip(b: Secretbox, key: seq<byte>, nonce: seq<byte>,
                                           sender: seq<byte>, out: seq<IoVec>,
                                           receiver: seq<byte>, into: seq<IoVec>)
    requires Lawful(b) && |key| == KEYBYTES && |nonce| == NONCEBYTES
    requires AllReadable(|sender|, out)
    requires AllReadable(|receiver|, into) && AllWritable(|receiver|, into) && PairwiseDisjoint(into)
    requires Total(out) <= Total(into)
    ensures Receive(b, key, into, true, Resized, Got(Frame(b, key, nonce, Gather(sender, out))))
         == Returns(Gather(sender, out))
    ensures Gather(Scatter(receiver, into, Gather(sender, out)), into)[..Total(out)] == Gather(sender, out)
  {
    RoundTrip(b, key, nonce, Gather(sender, out), into);
    GatherScatterPrefix(receiver, into, Gather(sender, out));
  }

  /** The concrete case: a zero key, the 4-byte plaintext "ping", a 44-byte
      wire message, and "ping" again at the receiver. */
  lemma PingScenario()
    ensures Lawful(Toy())
    ensures |Frame(Toy(), Zeros(KEYBYTES), Zeros(NONCEBYTES), [112, 105, 110, 103])| == 44
    ensures Receive(Toy(), Zeros(KEYBYTES), [IoVec(Some(0), 4)], true, Resized,
                    Got(Frame(Toy(), Zeros(KEYBYTES), Zeros(NONCEBYTES), [112, 105, 110, 103])))
         == Returns([112, 105, 110, 103])
  {
    ToyIsLawful();
    assert Total([IoVec(Some(0), 4)]) == 4;
    RoundTrip(Toy(), Zeros(KEYBYTES), Zeros(NONCEBYTES), [112, 105, 110, 103], [IoVec(Some(0), 4)]);
  }
}

/** The nacl socket object: its state (the underlying message socket, two
    scratch buffers of buflen bytes, the key and the storage flag), the
    virtual functions it installs (query, close, msendl, mrecvl), and the
    attach and detach entry points. */
module NaclSocket {
  import opened Types
  import opened Secretbox
  import opened IoList
  import opened Framing

  /** The type identifiers a handle can be queried for. */
  datatype TypeTag = MsockType | NaclType | OtherType(id: nat)

  /** The interfaces the object hands out: its message-socket table, or
      the object itself. */
  datatype Interface = MsockVfs | NaclObject

  datatype Query = Found(iface: Interface) | NotFound(err: Errno)

  /** nacl_hquery: the object answers for the message-socket type and for
      its own type, and for nothing else. */
  function HQuery(t: TypeTag): (q: Query)
    ensures q == Found(MsockVfs) <==> t == MsockType
    ensures q == Found(NaclObject) <==> t == NaclType
    ensures q.NotFound? <==> t.OtherType?
    ensures q.NotFound? ==> q.err == ENOTSUP
  {
    match t
    case MsockType => Found(MsockVfs)
    case NaclType => Found(NaclObject)
    case OtherType(_) => NotFound(ENOTSUP)
  }

  /** The parts of the runtime the object acts on: the handles passed to
      hclose and the blocks passed to free, in order. */
  class Runtime {
    var closed: seq<int>
    var freed: seq<object>

    constructor ()
      ensures closed == [] && freed == []
    {
      closed := [];
      freed := [];
    }
  }

  class NaclSock {
    var s: int
    var buflen: nat
    var buf1: array?<byte>
    var buf2: array?<byte>
    var key: seq<byte>
    /** Set when the object lives in storage supplied by the caller. */
    var mem: bool
    /** The wire messages handed to msend, oldest first. */
    ghost var sent: seq<seq<byte>>

    /** A block of storage not yet initialised by an attach. */
    constructor Raw()
      ensures s == -1 && buflen == 0 && buf1 == null && buf2 == null
      ensures key == Zeros(KEYBYTES) && !mem && sent == []
    {
      s := -1;
      buflen := 0;
      buf1 := null;
      buf2 := null;
      key := Zeros(KEYBYTES);
      mem := false;
      sent := [];
    }

    /** Each allocated scratch buffer is buflen bytes long and the two are
        distinct; after a failed realloc buf1 or buf2 is NULL. */
    predicate BuffersValid()
      reads this
    {
      && (buf1 != null ==> buf1.Length == buflen)
      && (buf1 != null && buf2 != null ==> buf2.Length == buflen && buf1 != buf2)
    }

    predicate Valid()
      reads this
    {
      BuffersValid() && |key| == KEYBYTES
    }

    /** Both scratch buffers exist and hold at least len bytes. */
    predicate Ready(len: nat)
      reads this
    {
      buf1 != null && buf2 != null && buflen >= len
    }

    /** What nacl_resizebufs reports for a request of len bytes, given
        whether each realloc it would call succeeds. */
    function ResizeOutcome(len: nat, ok1: bool, ok2: bool): (o: Resize)
      reads this
    {
      if Ready(len) then Resized
      else if !ok1 then FirstReallocFailed
      else if !ok2 then SecondReallocFailed
      else Resized
    }

    /** The buffer state after a resize to len from the state before it:
        untouched when the buffers were ready; otherwise buflen is len and
        each buffer is a new block of len bytes, or NULL from the first
        failed realloc on (a failed first realloc leaves buf2 alone). */
    twostate predicate ResizedFrom(len: nat, ok1: bool, ok2: bool)
      reads this
    {
      if old(Ready(len)) then
        buflen == old(buflen) && buf1 == old(buf1) && buf2 == old(buf2)
      else
        && buflen == len
        && (if !ok1 then buf1 == null && buf2 == old(buf2)
            else
              && buf1 != null && fresh(buf1) && buf1.Length == len
              && (if !ok2 then buf2 == null
                  else buf2 != null && fresh(buf2) && buf2.Length == len))
    }

    /** The blocks a close or a detach frees: the allocated buffers, and
        the object itself unless it lives in caller storage. */
    function Owned(): (o: seq<object>)
      reads this
      ensures (buf1 != null && buf2 != null && !mem) <==> |o| == 3
      ensures buf1 != null ==> buf1 in o
      ensures buf2 != null ==> buf2 in o
      ensures (this in o) <==> !mem
    {
      (if buf1 != null then [buf1] else [])
      + (if buf2 != null then [buf2] else [])
      + (if !mem then [this] else [])
    }

    /** nacl_resizebufs with the NULL buf2 a failed second realloc leaves
        behind counted as not allocated. */
    method ResizeBufs(len: nat, ok1: bool, ok2: bool) returns (ok: bool)
      requires Valid()
      modifies this
      ensures Valid() && s == old(s) && key == old(key) && mem == old(mem)
      ensures sent == old(sent)
      ensures ResizedFrom(len, ok1, ok2)
      ensures old(buf1 != null && buf2 != null) ==> buflen >= old(buflen)
      ensures ok <==> old(ResizeOutcome(len, ok1, ok2)) == Resized
      ensures ok <==> Ready(len)
    {
      if buf1 == null || buf2 == null || buflen < len {
        buflen := len;
        if !ok1 {
          buf1 := null;
          return false;
        }
        buf1 := new byte[len];
        if !ok2 {
          buf2 := null;
          return false;
        }
        buf2 := new byte[len];
      }
      return true;
    }

    /** nacl_resizebufs as written: buf2 is not looked at, so a NULL buf2
        with buflen >= len is reported as success. */
    method ResizeBufsAsWritten(len: nat, ok1: bool, ok2: bool) returns (ok: bool)
      requires Valid()
      modifies this
      ensures Valid() && s == old(s) && key == old(key) && mem == old(mem) && sent == old(sent)
      ensures ok <==> old(buf1 != null && buflen >= len) || (ok1 && ok2)
      ensures ok ==> buf1 != null && buflen >= len
      ensures old(buf1 != null && buflen >= len) ==>
                buflen == old(buflen) && buf1 == old(buf1) && buf2 == old(buf2)
      ensures !old(buf1 != null && buflen >= len) ==>
                && buflen == len
                && (if !ok1 then buf1 == null && buf2 == old(buf2)
                    else
                      && buf1 != null && fresh(buf1) && buf1.Length == len
                      && (if !ok2 then buf2 == null
                          else buf2 != null && fresh(buf2) && buf2.Length == len))
    {
      if buf1 == null || buflen < len {
        buflen := len;
        if !ok1 {
          buf1 := null;
          return false;
        }
        buf1 := new byte[len];
        if !ok2 {
          buf2 := null;
          return false;
        }
        buf2 := new byte[len];
      }
      return true;
    }

    /** nacl_msendl: the chunks' bytes are gathered behind ZEROBYTES zeros
        in buf1, sealed into buf2, and the wire message (nonce, then the
        box without its leading zeros) is assembled in buf1 and handed to
        msend, whose result is returned. */
    method MSendL(memory: array<byte>, iol: seq<IoVec>, b: Secretbox, iolOk: bool,
                  ok1: bool, ok2: bool, random: Draw, delivery: Outcome) returns (r: Status)
      requires Valid() && Lawful(b)
      requires memory != buf1 && memory != buf2
      requires AllReadable(memory.Length, iol)
      requires iolOk ==> Total(iol) <= SIZE_MAX - EXTRABYTES
      requires random.Drawn? ==> |random.nonce| == NONCEBYTES
      modifies this, buf1, buf2
      ensures Valid() && s == old(s) && key == old(key) && mem == old(mem)
      ensures iolOk ==> ResizedFrom(EXTRABYTES + Total(iol), ok1, ok2)
      ensures !iolOk ==> buflen == old(buflen) && buf1 == old(buf1) && buf2 == old(buf2)
      ensures var v := Send(b, key, Gather(old(memory[..]), iol), iolOk,
                            old(ResizeOutcome(EXTRABYTES + Total(iol), ok1, ok2)), random);
              && (v.Refused? ==> r == Failed(v.err) && sent == old(sent))
              && (v.Sends? ==> && sent == old(sent) + [v.wire]
                               && buf1 != null && |v.wire| <= buf1.Length
                               && buf1[..|v.wire|] == v.wire
                               && r == (if delivery.Pass? then Ok(0) else Failed(delivery.err)))
    {
      ghost var m := memory[..];
      if !iolOk {
        r := Failed(EINVAL);
      } else {
        var ok := ResizeBufs(EXTRABYTES + Total(iol), ok1, ok2);
        if !ok {
          r := Failed(ENOMEM);
        } else if random.DrawFailed? {
          r := Failed(random.err);
        } else {
          var wire := Seal(memory, iol, b, random.nonce, m);
          sent := sent + [wire];
          r := if delivery.Pass? then Ok(0) else Failed(delivery.err);
        }
      }
    }

    /** The encrypting half of nacl_msendl: the chunks' bytes are gathered
        behind ZEROBYTES zeros in buf1 and sealed into buf2, and the wire
        message is assembled in buf1. */
    method Seal(memory: array<byte>, iol: seq<IoVec>, b: Secretbox, nonce: seq<byte>,
                ghost m: seq<byte>)
      returns (wire: seq<byte>)
      requires Valid() && Lawful(b) && memory != buf1 && memory != buf2 && m == memory[..]
      requires AllReadable(memory.Length, iol) && Ready(EXTRABYTES + Total(iol))
      requires |nonce| == NONCEBYTES
      modifies buf1, buf2
      ensures wire == Frame(b, key, nonce, Gather(m, iol))
      ensures |wire| <= buf1.Length && buf1[..|wire|] == wire
    {
      var len := Total(iol);
      ghost var pt := Gather(m, iol);
      CopyInto(buf1, 0, Zeros(ZEROBYTES));
      GatherInto(buf1, ZEROBYTES, memory, iol);
      assert buf1[..ZEROBYTES + len] == Workspace(pt);
      var sealed := b.seal(buf1[..ZEROBYTES + len], nonce, key);
      CopyInto(buf2, 0, sealed);
      CopyInto(buf1, 0, nonce);
      CopyInto(buf1, NONCEBYTES, buf2[BOXZEROBYTES .. ZEROBYTES + len]);
      wire := buf1[..NONCEBYTES + ZEROBYTES + len - BOXZEROBYTES];
      assert wire == Frame(b, key, nonce, pt);
    }

    /** The decrypting half of nacl_mrecvl: the message is in buf1; the box
        is rebuilt in buf2 and opened into buf1. */
    method Unseal(b: Secretbox, msg: seq<byte>) returns (plain: Option<seq<byte>>)
      requires Valid() && Lawful(b) && buf1 != null && buf2 != null
      requires NONCEBYTES <= |msg| <= buflen && buf1[..|msg|] == msg
      modifies buf1, buf2
      ensures plain == b.open(Box(msg), msg[..NONCEBYTES], key)
      ensures plain.Some? ==> |plain.value| < |msg| && buf1[..|plain.value|] == plain.value
    {
      var nonce := buf1[..NONCEBYTES];
      assert nonce == msg[..NONCEBYTES];
      var clen := BOXZEROBYTES + (|msg| - NONCEBYTES);
      CopyInto(buf2, 0, Zeros(BOXZEROBYTES));
      CopyInto(buf2, BOXZEROBYTES, buf1[NONCEBYTES .. |msg|]);
      assert buf2[..clen] == Box(msg) by {
        assert buf2[..clen] == buf2[..BOXZEROBYTES] + buf2[BOXZEROBYTES .. clen];
      }
      plain := b.open(buf2[..clen], nonce, key);
      if plain.Some? {
        CopyInto(buf1, 0, plain.value);
      }
    }

    /** nacl_mrecvl with its hazards closed (see Framing.Receive): the
        message is received into buf1, opened, and its plaintext scattered
        over the caller's chunks; the plaintext length is returned. */
    method MRecvL(memory: array<byte>, iol: seq<IoVec>, b: Secretbox, iolOk: bool,
                  ok1: bool, ok2: bool, incoming: Incoming) returns (r: Status)
      requires Valid() && Lawful(b)
      requires memory != buf1 && memory != buf2
      requires AllWritable(memory.Length, iol)
      requires iolOk ==> Total(iol) <= SIZE_MAX - EXTRABYTES
      modifies this, buf1, buf2, memory
      ensures Valid() && s == old(s) && key == old(key) && mem == old(mem) && sent == old(sent)
      ensures iolOk ==> ResizedFrom(EXTRABYTES + Total(iol), ok1, ok2)
      ensures !iolOk ==> buflen == old(buflen) && buf1 == old(buf1) && buf2 == old(buf2)
      ensures var v := Receive(b, key, iol, iolOk,
                               old(ResizeOutcome(EXTRABYTES + Total(iol), ok1, ok2)), incoming);
              && (v.Returns? ==> r == Ok(|v.pt|) && memory[..] == Scatter(old(memory[..]), iol, v.pt))
              && (v.Fails? ==> r == Failed(v.err) && memory[..] == old(memory[..]))
    {
      if !iolOk {
        r := Failed(EINVAL);
      } else {
        var ok := ResizeBufs(EXTRABYTES + Total(iol), ok1, ok2);
        if !ok {
          r := Failed(ENOMEM);
        } else if incoming.RecvFailed? {
          r := Failed(incoming.err);
        } else {
          r := Deliver(memory, iol, b, incoming.msg);
        }
      }
    }

    /** nacl_mrecvl once a message has arrived, with both buffers ready:
        its length is checked, it is opened, and the plaintext is
        scattered over the caller's chunks. */
    method Deliver(memory: array<byte>, iol: seq<IoVec>, b: Secretbox, msg: seq<byte>)
      returns (r: Status)
      requires Valid() && Lawful(b) && Ready(EXTRABYTES + Total(iol))
      requires memory != buf1 && memory != buf2
      requires AllWritable(memory.Length, iol)
      modifies buf1, buf2, memory
      ensures var v := Receive(b, key, iol, true, Resized, Got(msg));
              && (v.Returns? ==> r == Ok(|v.pt|) && memory[..] == Scatter(old(memory[..]), iol, v.pt))
              && (v.Fails? ==> r == Failed(v.err) && memory[..] == old(memory[..]))
    {
      if |msg| > EXTRABYTES + Total(iol) {
        r := Failed(EMSGSIZE);
      } else {
        CopyInto(buf1, 0, msg);
        if |msg| < NONCEBYTES {
          r := Failed(EACCES);
        } else {
          var plain := Unseal(b, msg);
          if plain.None? {
            r := Failed(EACCES);
          } else if |plain.value| - ZEROBYTES > Total(iol) {
            r := Failed(EMSGSIZE);
          } else {
            ScatterInto(memory, iol, buf1[ZEROBYTES .. |plain.value|]);
            r := Ok(|plain.value| - ZEROBYTES);
          }
        }
      }
    }

    /** nacl_hclose: the underlying socket is closed if the object holds
        one, then the owned blocks are freed. */
    method HClose(rt: Runtime)
      modifies rt
      ensures rt.closed == old(rt.closed) + (if s >= 0 then [s] else [])
      ensures rt.freed == old(rt.freed) + Owned()
    {
      if s >= 0 {
        rt.closed := rt.closed + [s];
      }
      rt.freed := rt.freed + Owned();
    }

    /** nacl_detach once the handle has been found: the owned blocks are
        freed and the underlying socket is handed back, still open. */
    method Detach(rt: Runtime) returns (u: int)
      modifies rt
      ensures u == s
      ensures rt.closed == old(rt.closed)
      ensures rt.freed == old(rt.freed) + Owned()
    {
      rt.freed := rt.freed + Owned();
      u := s;
    }
  }

  /** nacl_detach(s): found is what hquery(s, nacl_type) returned, NULL
      with lookupErr in errno when s is not a nacl socket. */
  method DetachHandle(found: NaclSock?, lookupErr: Errno, rt: Runtime) returns (r: Status)
    modifies rt
    ensures rt.closed == old(rt.closed)
    ensures found == null ==> r == Failed(lookupErr) && rt.freed == old(rt.freed)
    ensures found != null ==> r == Ok(found.s) && rt.freed == old(rt.freed) + found.Owned()
  {
    if found == null {
      return Failed(lookupErr);
    }
    var u := found.Detach(rt);
    return Ok(u);
  }

  /** nacl_attach_mem(s, key, storage) on its checks and its success path:
      a NULL key or storage gives EINVAL, a socket that is not
      message-based gives hquery's error; then the storage is initialised
      (no buffers, the key copied, mem set), a handle is made for it, the
      underlying socket is duplicated into it and the original handle
      closed. A failed hdup closes the new handle again. */
  method AttachMem(s: int, key: Option<seq<byte>>, storage: NaclSock?, isMsock: Outcome,
                   made: Handle, dup: Handle, rt: Runtime) returns (r: Status)
    requires key.Some? ==> |key.value| >= KEYBYTES
    modifies storage, rt
    ensures key.None? || storage == null ==>
              r == Failed(EINVAL) && rt.closed == old(rt.closed) && rt.freed == old(rt.freed)
    ensures key.Some? && storage != null && isMsock.Fail? ==>
              r == Failed(isMsock.err) && rt.closed == old(rt.closed) && rt.freed == old(rt.freed)
    ensures storage != null && (key.None? || isMsock.Fail?) ==> unchanged(storage)
    ensures key.Some? && storage != null && isMsock.Pass? ==>
              && storage.Valid() && storage.mem
              && storage.buflen == 0 && storage.buf1 == null && storage.buf2 == null
              && storage.key == key.value[..KEYBYTES]
              && rt.freed == old(rt.freed)
              && (made.HandleFailed? ==> r == Failed(made.err) && rt.closed == old(rt.closed))
              && (made.Handle? && dup.HandleFailed? ==>
                    r == Failed(dup.err) && storage.s == -1 && rt.closed == old(rt.closed) + [made.h])
              && (made.Handle? && dup.Handle? ==>
                    r == Ok(made.h) && storage.s == dup.h && rt.closed == old(rt.closed) + [s])
  {
    if key.None? || storage == null {
      return Failed(EINVAL);
    }
    if isMsock.Fail? {
      return Failed(isMsock.err);
    }
    storage.s := s;
    storage.buflen := 0;
    storage.buf1 := null;
    storage.buf2 := null;
    storage.key := key.value[..KEYBYTES];
    storage.mem := true;
    match made
    case HandleFailed(e) =>
      return Failed(e);
    case Handle(h) =>
      match dup
      case HandleFailed(e) =>
        storage.s := -1;
        storage.HClose(rt);
        rt.closed := rt.closed + [h];
        return Failed(e);
      case Handle(d) =>
        storage.s := d;
        rt.closed := rt.closed + [s];
        return Ok(h);
  }

  /** nacl_attach: the object is allocated (mallocOk says whether malloc
      succeeded), attached in place with the storage flag then cleared,
      and freed again if the attach fails. */
  method Attach(s: int, key: Option<seq<byte>>, mallocOk: bool, isMsock: Outcome,
                made: Handle, dup: Handle, rt: Runtime) returns (r: Status, obj: NaclSock?)
    requires key.Some? ==> |key.value| >= KEYBYTES
    modifies rt
    ensures !mallocOk ==>
              r == Failed(ENOMEM) && obj == null && rt.closed == old(rt.closed) && rt.freed == old(rt.freed)
    ensures mallocOk ==> (r.Ok? <==> key.Some? && isMsock.Pass? && made.Handle? && dup.Handle?)
    ensures mallocOk && r.Failed? ==>
              && obj == null && |rt.freed| == |old(rt.freed)| + 1 && rt.freed[..|old(rt.freed)|] == old(rt.freed)
              && fresh(rt.freed[|old(rt.freed)|])
              && (key.None? ==> r == Failed(EINVAL))
              && (key.Some? && isMsock.Fail? ==> r == Failed(isMsock.err))
              && (key.Some? && isMsock.Pass? && made.HandleFailed? ==> r == Failed(made.err))
              && (key.Some? && isMsock.Pass? && made.Handle? && dup.HandleFailed? ==> r == Failed(dup.err))
              && rt.closed == old(rt.closed)
                              + (if key.Some? && isMsock.Pass? && made.Handle? && dup.HandleFailed?
                                 then [made.h] else [])
    ensures r.Ok? ==>
              && obj != null && fresh(obj) && obj.Valid() && !obj.mem
              && r == Ok(made.h) && obj.s == dup.h && obj.key == key.value[..KEYBYTES]
              && obj.buflen == 0 && obj.buf1 == null && obj.buf2 == null
              && rt.closed == old(rt.closed) + [s] && rt.freed == old(rt.freed)
  {
    if !mallocOk {
      return Failed(ENOMEM), null;
    }
    var o := new NaclSock.Raw();
    r := AttachMem(s, key, o, isMsock, made, dup, rt);
    if r.Failed? {
      rt.freed := rt.freed + [o];
      return r, null;
    }
    o.mem := false;
    return r, o;
  }

  /** The blocks nacl_attach_mem's error paths pass to free as written:
      Garbage is the local obj before it is assigned (the NULL-argument
      check jumps past its declaration), Storage the object's block. */
  datatype Block = Garbage | Storage

  function AttachMemFreesAsWritten(keyGiven: bool, storageGiven: bool, isMsock: Outcome,
                                   made: Handle, dup: Handle): (f: seq<Block>)
  {
    if !keyGiven || !storageGiven then [Garbage]
    else if isMsock.Fail? then []
    else if made.HandleFailed? then [Storage]
    // hclose(h) runs nacl_hclose, which frees nothing of its own: mem is set
    else if dup.HandleFailed? then [Storage]
    else []
  }

  /** nacl_attach as written: its own storage block, freed again when the
      attach fails. */
  function AttachFreesAsWritten(mallocOk: bool, keyGiven: bool, isMsock: Outcome,
                                made: Handle, dup: Handle): (f: seq<Block>)
  {
    if !mallocOk then []
    else if keyGiven && isMsock.Pass? && made.Handle? && dup.Handle? then []
    else AttachMemFreesAsWritten(keyGiven, true, isMsock, made, dup) + [Storage]
  }

  /** As written, a failed hmake or hdup under nacl_attach frees the same
      block twice, and under nacl_attach_mem frees storage that the caller
      supplied; a NULL key frees an uninitialised pointer. */
  lemma AttachUnwindingAsWritten(made: Handle, dup: Handle)
    requires made.HandleFailed? || dup.HandleFailed?
    ensures AttachFreesAsWritten(true, true, Pass, made, dup) == [Storage, Storage]
    ensures AttachMemFreesAsWritten(true, true, Pass, made, dup) == [Storage]
    ensures AttachMemFreesAsWritten(false, true, Pass, made, dup) == [Garbage]
  {
  }

  /** As written, nacl_resizebufs can report success without a second
      buffer: a failed second realloc raises buflen and leaves buf2 NULL,
      and the next request for no more bytes sees buf1 and buflen only. */
  method ResizeAsWrittenSkipsMissingBuffer() returns (first: bool, second: bool, buf2Missing: bool)
    ensures !first && second && buf2Missing
  {
    var obj := new NaclSock.Raw();
    first := obj.ResizeBufsAsWritten(64, true, false);
    second := obj.ResizeBufsAsWritten(64, true, true);
    buf2Missing := obj.buf2 == null;
  }

  /** The same two requests against ResizeBufs: the retry allocates the
      missing buffer. */
  method ResizeRetriesMissingBuffer() returns (first: bool, second: bool, ready: bool)
    ensures !first && second && ready
  {
    var obj := new NaclSock.Raw();
    first := obj.ResizeBufs(64, true, false);
    second := obj.ResizeBufs(64, true, true);
    ready := obj.Ready(64);
  }
}

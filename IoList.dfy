/** Scatter/gather lists (struct iolist) over the caller's memory, and the
    memcpy that moves bytes between that memory and the scratch buffers.
    The caller's memory is one array of bytes; an iol_base is an address
    into it, so two chunks may overlap exactly as two C pointers can. */
module IoList {
  import opened Types

  /** One iolist element: iol_base (None is a null pointer) and iol_len. */
  datatype IoVec = IoVec(base: Option<nat>, len: nat)

  /** Sum of the iol_len fields, the length iol_check reports. */
  function Total(iol: seq<IoVec>): (t: nat)
  {
    if iol == [] then 0 else iol[0].len + Total(iol[1..])
  }

  /** A chunk the send path may read: empty, or lying inside the memory. */
  predicate Readable(size: nat, c: IoVec)
  {
    c.len == 0 || (c.base.Some? && c.base.value + c.len <= size)
  }

  /** A chunk the receive path may write: a null base (skipped) or lying
      inside the memory. */
  predicate Writable(size: nat, c: IoVec)
  {
    c.base.None? || c.base.value + c.len <= size
  }

  predicate AllReadable(size: nat, iol: seq<IoVec>)
  {
    forall i | 0 <= i < |iol| :: Readable(size, iol[i])
  }

  predicate AllWritable(size: nat, iol: seq<IoVec>)
  {
    forall i | 0 <= i < |iol| :: Writable(size, iol[i])
  }

  /** Two chunks address no common byte. */
  predicate Disjoint(c: IoVec, d: IoVec)
  {
    || c.base.None? || d.base.None?
    || c.base.value + c.len <= d.base.value
    || d.base.value + d.len <= c.base.value
  }

  predicate PairwiseDisjoint(iol: seq<IoVec>)
  {
    forall i, j | 0 <= i < j < |iol| :: Disjoint(iol[i], iol[j])
  }

  /** The bytes one chunk addresses. */
  function Region(m: seq<byte>, c: IoVec): (r: seq<byte>)
    requires Readable(|m|, c)
    ensures |r| == c.len
  {
    if c.len == 0 then [] else m[c.base.value .. c.base.value + c.len]
  }

  /** The chunks' bytes concatenated in list order. */
  function Gather(m: seq<byte>, iol: seq<IoVec>): (r: seq<byte>)
    requires AllReadable(|m|, iol)
    ensures |r| == Total(iol)
  {
    if iol == [] then [] else Region(m, iol[0]) + Gather(m, iol[1..])
  }

  /** Memory after copying src to the start of chunk c (nothing if its base is null). */
  function Write(m: seq<byte>, c: IoVec, src: seq<byte>): (r: seq<byte>)
    requires Writable(|m|, c) && |src| <= c.len
    ensures |r| == |m|
  {
    if c.base.None? then m
    else m[..c.base.value] + src + m[c.base.value + |src|..]
  }

  /** Memory after the receive path hands pt out over the chunks in order:
      each chunk takes min(remaining, iol_len) bytes; a chunk with a null
      base consumes its length but writes nothing. */
  function Scatter(m: seq<byte>, iol: seq<IoVec>, pt: seq<byte>): (r: seq<byte>)
    requires |pt| <= Total(iol) && AllWritable(|m|, iol)
    ensures |r| == |m|
    decreases |iol|
  {
    if pt == [] then m
    else
      var k := Min(|pt|, iol[0].len);
      Scatter(Write(m, iol[0], pt[..k]), iol[1..], pt[k..])
  }

  /** The scatter loop as written walks off the end of the list (follows a
      null iol_next) when it reaches the end with bytes still to copy; it
      looks at the first element before checking anything, so an empty
      list is always walked off. */
  predicate WalksOff(iol: seq<IoVec>, n: nat)
  {
    iol == [] || (n > iol[0].len && WalksOff(iol[1..], n - iol[0].len))
  }

  /** The walk leaves the list exactly when the list is empty or the
      bytes to hand out exceed the list's total length. */
  lemma {:induction false} WalksOffIff(iol: seq<IoVec>, n: nat)
    ensures WalksOff(iol, n) <==> iol == [] || n > Total(iol)
  {
    if iol != [] && n > iol[0].len {
      WalksOffIff(iol[1..], n - iol[0].len);
    }
  }

  /** A byte no based chunk addresses is left as it was by Scatter. */
  lemma {:induction false} ScatterUntouched(m: seq<byte>, iol: seq<IoVec>, pt: seq<byte>, j: nat)
    requires |pt| <= Total(iol) && AllWritable(|m|, iol) && j < |m|
    requires forall i | 0 <= i < |iol| && iol[i].base.Some? ::
               j < iol[i].base.value || iol[i].base.value + iol[i].len <= j
    ensures Scatter(m, iol, pt)[j] == m[j]
    decreases |iol|
  {
    if pt != [] {
      var k := Min(|pt|, iol[0].len);
      var m' := Write(m, iol[0], pt[..k]);
      assert m'[j] == m[j];
      ScatterUntouched(m', iol[1..], pt[k..], j);
    }
  }

  /** A based chunk disjoint from every chunk of iol keeps its bytes through Scatter. */
  lemma {:induction false} ScatterKeepsRegion(m: seq<byte>, iol: seq<IoVec>, pt: seq<byte>, c: IoVec)
    requires |pt| <= Total(iol) && AllWritable(|m|, iol)
    requires c.base.Some? && c.base.value + c.len <= |m|
    requires forall i | 0 <= i < |iol| :: Disjoint(c, iol[i])
    ensures Scatter(m, iol, pt)[c.base.value .. c.base.value + c.len]
         == m[c.base.value .. c.base.value + c.len]
  {
    var b := c.base.value;
    var s := Scatter(m, iol, pt);
    forall j | b <= j < b + c.len ensures s[j] == m[j] {
      ScatterUntouched(m, iol, pt, j);
    }
  }

  lemma {:induction false} TailPairwiseDisjoint(iol: seq<IoVec>)
    requires iol != [] && PairwiseDisjoint(iol)
    ensures PairwiseDisjoint(iol[1..])
    ensures forall i | 0 <= i < |iol[1..]| :: Disjoint(iol[0], iol[1..][i])
  {
    var rest := iol[1..];
    forall i, j | 0 <= i < j < |rest| ensures Disjoint(rest[i], rest[j]) {
      assert Disjoint(iol[i + 1], iol[j + 1]);
    }
    forall i | 0 <= i < |rest| ensures Disjoint(iol[0], rest[i]) {
      assert Disjoint(iol[0], iol[i + 1]);
    }
  }

  /** The head chunk and the tail of a non-empty list. */
  lemma {:induction false} HeadTail(size: nat, iol: seq<IoVec>)
    requires iol != [] && AllReadable(size, iol) && AllWritable(size, iol)
    ensures Readable(size, iol[0]) && Writable(size, iol[0])
    ensures AllReadable(size, iol[1..]) && AllWritable(size, iol[1..])
    ensures Total(iol) == iol[0].len + Total(iol[1..])
  {
    forall i | 0 <= i < |iol[1..]|
      ensures Readable(size, iol[1..][i]) && Writable(size, iol[1..][i])
    {
      assert iol[1..][i] == iol[i + 1];
    }
  }

  /** A chunk read back right after a write of |src| <= iol_len bytes
      starts with those bytes. */
  lemma {:induction false} WritePrefix(m: seq<byte>, c: IoVec, src: seq<byte>)
    requires Readable(|m|, c) && Writable(|m|, c) && |src| <= c.len
    ensures Region(Write(m, c, src), c)[..|src|] == src
  {
    if c.len > 0 {
      var b := c.base.value;
      assert Write(m, c, src)[b .. b + |src|] == src;
    }
  }

  /** Scatter followed by Gather over pairwise disjoint chunks with room
      for pt: the gathered bytes start with pt, whatever spare room the
      chunks have after it. */
  lemma {:induction false} GatherScatterPrefix(m: seq<byte>, iol: seq<IoVec>, pt: seq<byte>)
    requires AllReadable(|m|, iol) && AllWritable(|m|, iol) && PairwiseDisjoint(iol)
    requires |pt| <= Total(iol)
    ensures Gather(Scatter(m, iol, pt), iol)[..|pt|] == pt
    decreases |iol|
  {
    if pt != [] {
      var c, rest := iol[0], iol[1..];
      HeadTail(|m|, iol);
      var k := Min(|pt|, c.len);
      var m' := Write(m, c, pt[..k]);
      TailPairwiseDisjoint(iol);
      var s := Scatter(m', rest, pt[k..]);
      assert s == Scatter(m, iol, pt);
      FirstRegionKept(m, iol, pt, k);
      assert Gather(s, iol) == Region(s, c) + Gather(s, rest);
      if k < c.len {
        assert Gather(s, iol)[..|pt|] == Region(s, c)[..k];
      } else {
        GatherScatterPrefix(m', rest, pt[k..]);
        JoinPrefixes(Region(s, c), Gather(s, rest), pt);
      }
    }
  }

  /** The first chunk of iol keeps the k bytes scattered into it while the
      rest of pt goes to the (disjoint) tail. */
  lemma FirstRegionKept(m: seq<byte>, iol: seq<IoVec>, pt: seq<byte>, k: nat)
    requires iol != [] && Readable(|m|, iol[0]) && Writable(|m|, iol[0])
    requires AllWritable(|m|, iol[1..]) && PairwiseDisjoint(iol)
    requires k <= |pt| && k <= iol[0].len && |pt| - k <= Total(iol[1..])
    ensures Region(Scatter(Write(m, iol[0], pt[..k]), iol[1..], pt[k..]), iol[0])[..k] == pt[..k]
  {
    var c := iol[0];
    var m' := Write(m, c, pt[..k]);
    WritePrefix(m, c, pt[..k]);
    if c.len > 0 {
      TailPairwiseDisjoint(iol);
      ScatterKeepsRegion(m', iol[1..], pt[k..], c);
    }
  }

  /** A prefix of pt followed by a sequence that starts with the rest of pt
      starts with pt. */
  lemma JoinPrefixes(a: seq<byte>, b: seq<byte>, pt: seq<byte>)
    requires |a| <= |pt| <= |a| + |b|
    requires a == pt[..|a|] && b[..|pt| - |a|] == pt[|a|..]
    ensures (a + b)[..|pt|] == pt
  {
    assert (a + b)[..|pt|] == a + b[..|pt| - |a|];
  }

  /** Scatter followed by Gather over pairwise disjoint chunks that hold
      exactly |pt| bytes gives pt back. */
  lemma GatherScatter(m: seq<byte>, iol: seq<IoVec>, pt: seq<byte>)
    requires AllReadable(|m|, iol) && AllWritable(|m|, iol) && PairwiseDisjoint(iol)
    requires |pt| == Total(iol)
    ensures Gather(Scatter(m, iol, pt), iol) == pt
  {
    GatherScatterPrefix(m, iol, pt);
  }

  lemma Assoc(r: seq<byte>, g1: seq<byte>, g2: seq<byte>)
    ensures r + (g1 + g2) == (r + g1) + g2
  {
  }

  /** memcpy(dst + at, src, |src|) (and memset when src is all zeros). */
  method CopyInto(dst: array<byte>, at: nat, src: seq<byte>)
    requires at + |src| <= dst.Length
    modifies dst
    ensures dst[..at] == old(dst[..at])
    ensures dst[at .. at + |src|] == src
    ensures dst[at + |src|..] == old(dst[at + |src|..])
    ensures dst[..] == old(dst[..])[..at] + src + old(dst[..])[at + |src|..]
  {
    var j := 0;
    while j < |src|
      invariant 0 <= j <= |src|
      invariant forall q | 0 <= q < dst.Length ::
                  dst[q] == if at <= q < at + j then src[q - at] else old(dst[q])
    {
      dst[at + j] := src[j];
      j := j + 1;
    }
    assert dst[..] == old(dst[..])[..at] + src + old(dst[..])[at + |src|..];
  }

  /** Copying r over orig[pos .. pos + |r|] after g was spliced in at
      [at, pos) extends the splice by r. */
  lemma Splice(orig: seq<byte>, at: nat, pos: nat, g: seq<byte>, r: seq<byte>)
    requires at <= pos && pos + |r| <= |orig| && |g| == pos - at
    ensures var before := orig[..at] + g + orig[pos..];
            before[..pos] + r + before[pos + |r|..] == orig[..at] + (g + r) + orig[pos + |r|..]
  {
    var before := orig[..at] + g + orig[pos..];
    assert before[..pos] == orig[..at] + g;
    assert before[pos + |r|..] == orig[pos + |r|..];
  }

  /** The gather loop's walk: the first chunk of the unread list rest and
      what appending its bytes to those gathered so far leaves to do. */
  lemma GatherUnfold(m: seq<byte>, rest: seq<IoVec>, done: seq<byte>)
    requires rest != [] && AllReadable(|m|, rest)
    ensures Readable(|m|, rest[0]) && AllReadable(|m|, rest[1..])
    ensures Total(rest) == rest[0].len + Total(rest[1..])
    ensures (done + Region(m, rest[0])) + Gather(m, rest[1..]) == done + Gather(m, rest)
  {
    var tail := rest[1..];
    forall j | 0 <= j < |tail| ensures Readable(|m|, tail[j]) {
      assert tail[j] == rest[j + 1];
    }
    Assoc(done, Region(m, rest[0]), Gather(m, tail));
  }

  lemma Unspliced(orig: seq<byte>, at: nat)
    requires at <= |orig|
    ensures orig == orig[..at] + [] + orig[at..]
  {
  }

  /** memcpy of chunk c's bytes to dst + pos, after g was already spliced
      in at [at, pos). */
  method CopyChunk(dst: array<byte>, pos: nat, mem: array<byte>, c: IoVec,
                   ghost orig: seq<byte>, ghost at: nat, ghost m: seq<byte>, ghost g: seq<byte>)
    returns (ghost g': seq<byte>)
    requires dst != mem && m == mem[..] && Readable(|m|, c)
    requires at <= pos && |g| == pos - at && pos + c.len <= |orig| == dst.Length
    requires dst[..] == orig[..at] + g + orig[pos..]
    modifies dst
    ensures g' == g + Region(m, c)
    ensures dst[..] == orig[..at] + g' + orig[pos + c.len..]
  {
    var src := if c.len == 0 then [] else mem[c.base.value .. c.base.value + c.len];
    assert src == Region(m, c);
    CopyInto(dst, pos, src);
    Splice(orig, at, pos, g, src);
    g' := g + src;
  }

  /** The send path's gather loop: it follows the list from its first
      chunk and copies each chunk's bytes, in order, into dst from offset at. */
  method GatherInto(dst: array<byte>, at: nat, mem: array<byte>, iol: seq<IoVec>)
    requires dst != mem && AllReadable(mem.Length, iol)
    requires at + Total(iol) <= dst.Length
    modifies dst
    ensures dst[..] == old(dst[..])[..at] + Gather(old(mem[..]), iol) + old(dst[..])[at + Total(iol)..]
  {
    ghost var orig := dst[..];
    ghost var m := mem[..];
    ghost var done: seq<byte> := [];
    var pos: nat := at;
    var rest := iol;
    Unspliced(orig, at);
    while rest != []
      invariant m == mem[..] && AllReadable(|m|, rest)
      invariant pos == at + |done| && pos + Total(rest) == at + Total(iol)
      invariant done + Gather(m, rest) == Gather(m, iol)
      invariant dst[..] == orig[..at] + done + orig[pos..]
      decreases |rest|
    {
      GatherUnfold(m, rest, done);
      done := CopyChunk(dst, pos, mem, rest[0], orig, at, m, done);
      pos := pos + rest[0].len;
      rest := rest[1..];
    }
    assert done == Gather(m, iol) && pos == at + Total(iol);
  }

  /** One turn of the scatter loop: the first chunk of the unwalked list
      rest takes the next k = min(remaining, iol_len) bytes of the
      unconsumed plaintext left and the rest of left goes to the tail. */
  lemma {:induction false} ScatterAdvance(m: seq<byte>, rest: seq<IoVec>, left: seq<byte>, k: nat)
    requires 0 < |left| <= Total(rest) && AllWritable(|m|, rest)
    requires rest != [] ==> k == Min(|left|, rest[0].len)
    ensures rest != [] && Writable(|m|, rest[0]) && k <= |left| && k <= rest[0].len
    ensures Total(rest) == rest[0].len + Total(rest[1..])
    ensures AllWritable(|m|, rest[1..])
    ensures Scatter(m, rest, left) == Scatter(Write(m, rest[0], left[..k]), rest[1..], left[k..])
  {
    var tail := rest[1..];
    forall j | 0 <= j < |tail| ensures Writable(|m|, tail[j]) {
      assert tail[j] == rest[j + 1];
    }
  }

  /** One memcpy of the scatter loop (none for a null base). */
  method WriteChunk(mem: array<byte>, c: IoVec, src: seq<byte>)
    requires Writable(mem.Length, c) && |src| <= c.len
    modifies mem
    ensures mem[..] == Write(old(mem[..]), c, src)
  {
    if c.base.Some? {
      CopyInto(mem, c.base.value, src);
    }
  }

  /** One turn of the scatter loop: tocopy = min(remaining, iol_len)
      bytes of left go to the first chunk of rest (if its base is not null). */
  method ScatterTurn(mem: array<byte>, rest: seq<IoVec>, left: seq<byte>)
    returns (tocopy: nat)
    requires 0 < |left| <= Total(rest) && AllWritable(mem.Length, rest)
    modifies mem
    ensures rest != [] && tocopy <= |left| && tocopy == Min(|left|, rest[0].len)
    ensures |left| - tocopy <= Total(rest[1..]) && AllWritable(mem.Length, rest[1..])
    ensures Scatter(old(mem[..]), rest, left) == Scatter(mem[..], rest[1..], left[tocopy..])
  {
    tocopy := Min(|left|, rest[0].len);
    ScatterAdvance(mem[..], rest, left, tocopy);
    WriteChunk(mem, rest[0], left[..tocopy]);
  }

  /** The receive path's scatter loop, with the walk bounded: it follows
      the list from its first chunk and stops as soon as no bytes remain,
      so it needs |pt| <= Total(iol) and never looks past the last chunk.
      left is the plaintext from pos on. */
  method ScatterInto(mem: array<byte>, iol: seq<IoVec>, pt: seq<byte>)
    requires |pt| <= Total(iol) && AllWritable(mem.Length, iol)
    modifies mem
    ensures mem[..] == Scatter(old(mem[..]), iol, pt)
  {
    var rem: nat := |pt|;
    var left := pt;
    var rest := iol;
    ghost var goal := Scatter(mem[..], iol, pt);
    while rem > 0
      invariant rem == |left| <= Total(rest)
      invariant AllWritable(mem.Length, rest)
      invariant goal == Scatter(mem[..], rest, left)
      decreases |rest|
    {
      var tocopy := ScatterTurn(mem, rest, left);
      rem := rem - tocopy;
      left := left[tocopy..];
      rest := rest[1..];
    }
    assert left == [];
  }
}

/**
 The capture path of proxy-gateway/internal/usecase/proxy_request.go while a body flows through
 it: the pooled buffer, the writer that caps it, and the two loops that copy an upstream body
 to the client and into the capture. A byte is a character below 256.
 */
module StreamCopy {
  import opened Common

  type Bytes = seq<char>

  /** The first `max` bytes; none when `max` is negative. */
  function Take(s: Bytes, max: int): (r: Bytes)
    ensures r <= s && (|r| == |s| || |r| == if max > 0 then max else 0) && (max > 0 ==> |r| <= max)
    ensures max <= 0 ==> r == []
  {
    if max <= 0 then [] else if |s| <= max then s else s[..max]
  }

  // ---------------------------------------------------------------------------------------
  // Buffers
  // ---------------------------------------------------------------------------------------

  /** A growable buffer. It keeps its memory when it is reset, and moves when it outgrows it. */
  class Buffer {
    var data: array<char>
    var len: nat

    ghost predicate Valid()
      reads this
    {
      len <= data.Length
    }

    ghost function Contents(): Bytes
      requires Valid()
      reads this, data
    {
      data[..len]
    }

    constructor (capacity: nat)
      ensures Valid() && fresh(data) && Contents() == []
    {
      data := new char[capacity](i => '\0');
      len := 0;
    }

    method Write(p: Bytes)
      requires Valid()
      modifies this, data
      ensures Valid() && Contents() == old(Contents()) + p
      ensures data == old(data) || fresh(data)
    {
      ghost var before := Contents();
      if len + |p| > data.Length {
        var grown := new char[2 * data.Length + |p|](i => '\0');
        forall i | 0 <= i < len {
          grown[i] := data[i];
        }
        data := grown;
        assert data[..len] == before;
      }
      forall i | 0 <= i < |p| {
        data[len + i] := p[i];
      }
      len := len + |p|;
      assert data[..len] == before + p;
    }

    method Reset()
      modifies this
      ensures len == 0 && data == old(data)
    {
      len := 0;
    }
  }

  // ---------------------------------------------------------------------------------------
  // The capped writer
  // ---------------------------------------------------------------------------------------

  class CappedWriter {
    const buf: Buffer
    const max: int
    var truncated: bool

    constructor (buf: Buffer, max: int)
      ensures this.buf == buf && this.max == max && !truncated
    {
      this.buf, this.max, truncated := buf, max, false;
    }

    /** Has captured exactly the first `max` bytes of `stream`, and says so if there were more. */
    ghost predicate Captured(stream: Bytes)
      reads this, buf, buf.data
    {
      && buf.Valid()
      && buf.Contents() == Take(stream, max)
      && (truncated <==> |stream| > |Take(stream, max)|)
    }

    /**
     Takes what still fits. It always reports the whole chunk as written, so that a copy which
     also writes to the client is never cut short by the capture. The flag is exact for chunks
     that are not empty.
     */
    method Write(p: Bytes, ghost stream: Bytes) returns (n: int)
      requires Captured(stream)
      modifies this, buf, buf.data
      ensures n == |p|
      ensures p != [] ==> Captured(stream + p)
      ensures buf.Valid() && buf.Contents() == Take(stream + p, max)
      ensures truncated
         <==> old(truncated) || |p| > |Take(stream + p, max)| - |Take(stream, max)| || |Take(stream, max)| >= max
      ensures buf.data == old(buf.data) || fresh(buf.data)
    {
      if buf.len >= max {
        truncated := true;
        return |p|;
      }
      var remaining := max - buf.len;
      if |p| <= remaining {
        buf.Write(p);
        return |p|;
      }
      buf.Write(p[..remaining]);
      truncated := true;
      assert (stream + p)[..max] == stream + p[..remaining];
      return remaining + (|p| - remaining);
    }
  }

  // ---------------------------------------------------------------------------------------
  // Copying
  // ---------------------------------------------------------------------------------------

  /** One Read of the upstream body: the bytes it returned, and whether it also returned an error or EOF. */
  datatype Read = Read(chunk: Bytes, err: bool)

  /** A body ends with its first error. */
  ghost predicate Ends(src: seq<Read>) {
    && src != [] && src[|src| - 1].err
    && forall i | 0 <= i < |src| - 1 :: !src[i].err
  }

  /** The bytes of the first `i` reads. */
  function BytesTo(src: seq<Read>, i: nat): Bytes
    requires i <= |src|
  {
    if i == 0 then [] else BytesTo(src, i - 1) + src[i - 1].chunk
  }

  /** The upstream body: all bytes read, however they were cut up. */
  function Upstream(src: seq<Read>): Bytes { BytesTo(src, |src|) }

  /** How many of the first `i` reads carry bytes: these are the chunks; empty reads are skipped. */
  function ChunksTo(src: seq<Read>, i: nat): nat
    requires i <= |src|
  {
    if i == 0 then 0 else ChunksTo(src, i - 1) + if src[i - 1].chunk == [] then 0 else 1
  }

  /**
   The client's connection. `limit` is the number of writes it takes before one fails, which may
   still deliver the first `part` bytes.
   */
  class Client {
    var received: Bytes
    var writes: nat
    const limit: Option<nat>
    const part: nat

    constructor (limit: Option<nat>, part: nat)
      ensures received == [] && writes == 0 && this.limit == limit && this.part == part
    {
      received, writes, this.limit, this.part := [], 0, limit, part;
    }

    method Write(p: Bytes) returns (n: nat, err: bool)
      modifies this
      ensures writes == old(writes) + 1
      ensures err <==> limit.Some? && old(writes) >= limit.value
      ensures received == old(received) + (if err then Take(p, part) else p) && |received| == |old(received)| + n
    {
      writes := writes + 1;
      n := if part < |p| then part else |p|;
      err := limit.Some? && writes > limit.value;
      if !err {
        n := |p|;
      }
      received := received + p[..n];
    }
  }

  /** The first `i` reads have gone through whole. */
  ghost predicate Passed(src: seq<Read>, i: nat, client: Client, captured: CappedWriter)
    requires i <= |src|
    reads client, captured, captured.buf, captured.buf.data
  {
    && captured.Captured(BytesTo(src, i))
    && client.received == BytesTo(src, i) && client.writes == ChunksTo(src, i)
    && (client.limit.Some? ==> client.writes <= client.limit.value)
  }

  /** Read `i` was refused by the client, which got only the first bytes of it; it is not captured. */
  ghost predicate Refused(src: seq<Read>, i: nat, client: Client, captured: CappedWriter)
    requires i < |src|
    reads client, captured, captured.buf, captured.buf.data
  {
    && captured.Captured(BytesTo(src, i))
    && client.received == BytesTo(src, i) + Take(src[i].chunk, client.part)
    && src[i].chunk != [] && client.limit == Some(ChunksTo(src, i)) && client.writes == ChunksTo(src, i) + 1
  }

  /** What a copy leaves behind: the client took every read, or the copy stopped at read `end`. */
  ghost predicate Copied(src: seq<Read>, end: nat, client: Client, captured: CappedWriter)
    requires end <= |src|
    reads client, captured, captured.buf, captured.buf.data
  {
    if end == |src| then Passed(src, end, client, captured) else Refused(src, end, client, captured)
  }

  /** The streaming loop's two writes: client first, then capture. */
  method WriteEach(ghost src: seq<Read>, ghost i: nat, p: Bytes, client: Client, captured: CappedWriter)
    returns (err: bool)
    requires i < |src| && p == src[i].chunk != [] && Passed(src, i, client, captured)
    modifies client, captured, captured.buf, captured.buf.data
    ensures if err then Refused(src, i, client, captured) else Passed(src, i + 1, client, captured)
    ensures captured.buf.data == old(captured.buf.data) || fresh(captured.buf.data)
  {
    var _, werr := client.Write(p);
    if werr {
      return true;
    }
    var _ := captured.Write(p, BytesTo(src, i));
    return false;
  }

  /** io.MultiWriter over the client and the capture: a writer that reports a short count stops the copy. */
  method WriteBoth(ghost src: seq<Read>, ghost i: nat, p: Bytes, client: Client, captured: CappedWriter)
    returns (n: nat, err: bool)
    requires i < |src| && p == src[i].chunk != [] && Passed(src, i, client, captured)
    modifies client, captured, captured.buf, captured.buf.data
    ensures if err then Refused(src, i, client, captured) else Passed(src, i + 1, client, captured)
    ensures |client.received| == |old(client.received)| + n
    ensures captured.buf.data == old(captured.buf.data) || fresh(captured.buf.data)
  {
    n, err := client.Write(p);
    if err {
      return;
    }
    if n != |p| {
      return n, true;
    }
    n := captured.Write(p, BytesTo(src, i));
    if n != |p| {
      return n, true;
    }
    return |p|, false;
  }

  /** A read without bytes changes nothing. */
  lemma SkipEmptyRead(src: seq<Read>, i: nat, client: Client, captured: CappedWriter)
    requires i < |src| && src[i].chunk == [] && Passed(src, i, client, captured)
    ensures Passed(src, i + 1, client, captured) && ChunksTo(src, i + 1) == ChunksTo(src, i)
  {
    assert BytesTo(src, i + 1) == BytesTo(src, i);
  }

  /**
   The streaming loop: every chunk goes to the client, then into the capture, then is flushed. A
   failed client write ends the copy; its chunk is counted all the same.
   */
  method StreamToClient(src: seq<Read>, client: Client, captured: CappedWriter)
    returns (chunkCount: nat, flushes: nat, ghost end: nat)
    requires Ends(src) && Passed(src, 0, client, captured)
    modifies client, captured, captured.buf, captured.buf.data
    ensures end <= |src| && Copied(src, end, client, captured)
    ensures chunkCount == client.writes
    ensures flushes == ChunksTo(src, end)
    ensures captured.buf.data == old(captured.buf.data) || fresh(captured.buf.data)
  {
    chunkCount, flushes, end := 0, 0, 0;
    var i := 0;
    while true
      invariant i < |src| && Passed(src, i, client, captured)
      invariant flushes == chunkCount == ChunksTo(src, i)
      invariant captured.buf.data == old(captured.buf.data) || fresh(captured.buf.data)
      decreases |src| - i
    {
      var p, rerr := src[i].chunk, src[i].err;
      if |p| > 0 {
        chunkCount := chunkCount + 1;
        var werr := WriteEach(src, i, p, client, captured);
        if werr {
          end := i;
          return;
        }
        flushes := flushes + 1;
      } else {
        SkipEmptyRead(src, i, client, captured);
      }
      i := i + 1;
      if rerr {
        end := i;
        return;
      }
    }
  }

  /** The path of ordinary responses: io.Copy into both writers. */
  method CopyToClient(src: seq<Read>, client: Client, captured: CappedWriter)
    returns (written: nat, ghost end: nat)
    requires Ends(src) && Passed(src, 0, client, captured)
    modifies client, captured, captured.buf, captured.buf.data
    ensures end <= |src| && Copied(src, end, client, captured)
    ensures written == |client.received|
    ensures captured.buf.data == old(captured.buf.data) || fresh(captured.buf.data)
  {
    written, end := 0, 0;
    var i := 0;
    while true
      invariant i < |src| && Passed(src, i, client, captured)
      invariant written == |client.received|
      invariant captured.buf.data == old(captured.buf.data) || fresh(captured.buf.data)
      decreases |src| - i
    {
      var p, rerr := src[i].chunk, src[i].err;
      if |p| > 0 {
        var n, werr := WriteBoth(src, i, p, client, captured);
        written := written + n;
        if werr {
          end := i;
          return;
        }
      } else {
        SkipEmptyRead(src, i, client, captured);
      }
      i := i + 1;
      if rerr {
        end := i;
        return;
      }
    }
  }

  /** A body that arrives in pieces of the given sizes; what is left comes with the end of the body. */
  function Cut(body: Bytes, sizes: seq<nat>): seq<Read> {
    if sizes == [] then [Read(body, true)]
    else
      var n := if sizes[0] <= |body| then sizes[0] else |body|;
      [Read(body[..n], false)] + Cut(body[n..], sizes[1..])
  }

  lemma {:induction false} BytesAfterFirst(r: Read, src: seq<Read>, all: seq<Read>, i: nat)
    requires i <= |src| && all == [r] + src
    ensures BytesTo(all, i + 1) == r.chunk + BytesTo(src, i)
  {
    if i == 0 {
      assert BytesTo(all, 0) == [];
    } else {
      BytesAfterFirst(r, src, all, i - 1);
      assert all[i] == src[i - 1];
      Reassociate(r.chunk, BytesTo(src, i - 1), src[i - 1].chunk);
    }
  }

  lemma PrependRead(r: Read, src: seq<Read>)
    ensures Upstream([r] + src) == r.chunk + Upstream(src)
  {
    BytesAfterFirst(r, src, [r] + src, |src|);
  }

  lemma {:induction false} CutEnds(body: Bytes, sizes: seq<nat>)
    ensures Ends(Cut(body, sizes))
  {
    if sizes != [] {
      CutEnds(body[if sizes[0] <= |body| then sizes[0] else |body|..], sizes[1..]);
    }
  }

  lemma {:induction false} CutKeepsTheBody(body: Bytes, sizes: seq<nat>)
    ensures Upstream(Cut(body, sizes)) == body
  {
    if sizes == [] {
      PrependRead(Read(body, true), []);
      assert Cut(body, sizes) == [Read(body, true)] + [];
    } else {
      var n := if sizes[0] <= |body| then sizes[0] else |body|;
      CutKeepsTheBody(body[n..], sizes[1..]);
      PrependRead(Read(body[..n], false), Cut(body[n..], sizes[1..]));
      assert body == body[..n] + body[n..];
    }
  }

  /**
   The copy refines the plain copy. However a body is cut into reads, when the client takes every
   write it has received exactly the body, the capture is the body's first `max` bytes, and the
   flag says whether there were more.
   */
  lemma ChunkingDoesNotMatter(body: Bytes, sizes: seq<nat>, end: nat, client: Client, captured: CappedWriter)
    requires end <= |Cut(body, sizes)| && Copied(Cut(body, sizes), end, client, captured) && client.limit.None?
    ensures client.received == body
    ensures captured.buf.Valid() && captured.buf.Contents() == Take(body, captured.max)
    ensures captured.truncated <==> |body| > (if captured.max > 0 then captured.max else 0)
  {
    CutKeepsTheBody(body, sizes);
  }

  lemma {:induction false} ChunksGrow(src: seq<Read>, i: nat, j: nat)
    requires i <= j <= |src|
    ensures ChunksTo(src, i) <= ChunksTo(src, j)
  {
    if i < j {
      ChunksGrow(src, i, j - 1);
    }
  }

  /** The two copy loops agree: clients alike receive the same, refused or not, and the captures are the same. */
  lemma CopiesAgree(src: seq<Read>, e: nat, f: nat, c: Client, d: Client, v: CappedWriter, w: CappedWriter)
    requires e <= |src| && f <= |src| && Copied(src, e, c, v) && Copied(src, f, d, w)
    requires c.limit == d.limit && c.part == d.part && v.max == w.max
    ensures e == f && c.received == d.received && c.writes == d.writes
    ensures v.buf.Valid() && w.buf.Valid() && v.buf.Contents() == w.buf.Contents() && v.truncated == w.truncated
  {
    if e < f {
      ChunksGrow(src, e + 1, f);
    } else if f < e {
      ChunksGrow(src, f + 1, e);
    }
  }

  /** The copy stops early exactly when the body has more chunks than the client takes. */
  lemma CopyStopsWhenRefused(src: seq<Read>, end: nat, client: Client, captured: CappedWriter)
    requires end <= |src| && Copied(src, end, client, captured)
    ensures end == |src| <==> client.limit.None? || ChunksTo(src, |src|) <= client.limit.value
  {
    if end < |src| {
      ChunksGrow(src, end + 1, |src|);
    }
  }
}

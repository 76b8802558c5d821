/**
 From capture to event: proxy-gateway/internal/usecase/proxy_request_decode.go turns the bytes
 in a pooled buffer into the body that is stored, and `emit` redacts it. The buffer goes back
 to the pool and is written again; the event must not change.
 */
module CapturedBody {
  import opened Common
  import PatternScrub
  import Redact
  import opened StreamCopy

  // ---------------------------------------------------------------------------------------
  // Slices
  // ---------------------------------------------------------------------------------------

  /** A byte slice: a stretch of someone's memory. */
  datatype Slice = Slice(mem: array<char>, lo: nat, hi: nat) {
    ghost predicate Valid() { lo <= hi <= mem.Length }

    ghost function Bytes(): Bytes
      requires Valid()
      reads mem
    {
      mem[lo..hi]
    }

    method ToBytes() returns (s: Bytes)
      requires Valid()
      ensures s == Bytes()
    {
      s := mem[lo..hi];
    }
  }

  /** A slice over new memory. */
  method Allocate(s: Bytes) returns (out: Slice)
    ensures out.Valid() && out.Bytes() == s && fresh(out.mem)
  {
    var mem := new char[|s|](i requires 0 <= i < |s| => s[i]);
    out := Slice(mem, 0, |s|);
  }

  /** A pooled buffer's `Bytes`: its own memory, not a copy. */
  method View(b: Buffer) returns (out: Slice)
    requires b.Valid()
    ensures out == Slice(b.data, 0, b.len) && out.Valid() && out.Bytes() == b.Contents()
  {
    out := Slice(b.data, 0, b.len);
  }

  // ---------------------------------------------------------------------------------------
  // Content types
  // ---------------------------------------------------------------------------------------

  /** The string functions of the standard library, and decimal printing. */
  datatype Text = Text(lower: string -> string, trim: string -> string, decimal: nat -> string)

  function CutAt(s: string, c: char): (r: string)
    ensures r <= s && c !in r
    ensures r == s || s[|r|] == c
  {
    if s == [] || s[0] == c then [] else [s[0]] + CutAt(s[1..], c)
  }

  /** Lower case, without parameters; octet-stream when there is nothing left. */
  function CanonicalContentType(t: Text, ct: string): string {
    var whole := t.lower(t.trim(ct));
    var base := if ';' in whole then t.trim(CutAt(whole, ';')) else whole;
    if base == "" then "application/octet-stream" else base
  }

  const OPAQUE_TYPES := {"application/octet-stream", "application/x-protobuf", "application/protobuf",
    "application/vnd.google.protobuf", "application/pdf", "application/zip", "application/x-zip-compressed",
    "application/x-tar", "application/gzip", "application/x-gzip", "application/x-bzip2"}

  predicate IsOpaqueBinaryType(t: Text, contentType: string) {
    var ct := CanonicalContentType(t, contentType);
    || "application/grpc" <= ct
    || ct in OPAQUE_TYPES
    || "image/" <= ct || "audio/" <= ct || "video/" <= ct || "font/" <= ct
  }

  lemma {:induction false} CutAtFirst(a: string, c: char, b: string)
    requires c !in a
    ensures CutAt(a + [c] + b, c) == a
  {
    if a != [] {
      assert (a + [c] + b)[1..] == a[1..] + [c] + b;
      CutAtFirst(a[1..], c, b);
    }
  }

  /** Neither case nor surrounding space matter, and nothing from the first semicolon on. */
  lemma ParametersDoNotMatter(t: Text, ct: string, base: string, params: string)
    requires t.lower(t.trim(ct)) == base + ";" + params && ';' !in base
    ensures t.trim(base) != "" ==> CanonicalContentType(t, ct) == t.trim(base)
    ensures t.trim(base) == "" ==> CanonicalContentType(t, ct) == "application/octet-stream"
  {
    CutAtFirst(base, ';', params);
    assert (base + ";" + params)[|base|] == ';';
  }

  /** Without parameters, the same holds of the whole. */
  lemma CaseDoesNotMatter(t: Text, ct: string, other: string)
    requires t.lower(t.trim(ct)) == t.lower(t.trim(other))
    ensures CanonicalContentType(t, ct) == CanonicalContentType(t, other)
    ensures IsOpaqueBinaryType(t, ct) == IsOpaqueBinaryType(t, other)
    ensures var whole := t.lower(t.trim(ct)); whole != "" && ';' !in whole ==> CanonicalContentType(t, ct) == whole
  {
  }

  /** Text is never taken for binary. */
  lemma TextIsNotOpaque(t: Text, ct: string)
    requires "text/" <= CanonicalContentType(t, ct)
    ensures !IsOpaqueBinaryType(t, ct)
  {
    var base := CanonicalContentType(t, ct);
    assert base[0] == 't';
    assert forall o | o in OPAQUE_TYPES :: o[0] == 'a';
  }

  /** JSON is never taken for binary. */
  lemma JsonIsNotOpaque(t: Text, ct: string)
    requires CanonicalContentType(t, ct) == "application/json"
    ensures !IsOpaqueBinaryType(t, ct)
  {
    var base := CanonicalContentType(t, ct);
    assert base[12] == 'j' && base[0] == 'a' && base[1] == 'p';
    assert forall o | o in OPAQUE_TYPES :: |o| != |base| || o[12] == 'g';
  }

  /** Images, gRPC and a missing content type are binary. */
  lemma BinaryIsOpaque(t: Text, ct: string)
    requires var base := CanonicalContentType(t, ct);
             "image/" <= base || "application/grpc" <= base || t.lower(t.trim(ct)) == ""
    ensures IsOpaqueBinaryType(t, ct)
  {
  }

  // ---------------------------------------------------------------------------------------
  // Decoding
  // ---------------------------------------------------------------------------------------

  /** How a decoder's output ends. A truncated stream is tolerated; corruption is not. */
  datatype End = Clean | Truncated | Corrupt

  /** All a decoder would produce from the captured bytes, given the encoding. None: no such decoder. */
  datatype Decoder = NoDecoder | Decodes(output: Bytes, end: End)

  const DEFAULT_CAP := 0x10_0000

  datatype Decoded = Failed | Ok(out: Bytes, truncated: bool)

  /** What decoding with a bound keeps. */
  function DecodeResult(d: Decoder, cap: int): Decoded {
    var limit := if cap <= 0 then DEFAULT_CAP else cap;
    match d
    case NoDecoder => Failed
    case Decodes(output, end) =>
      if |output| > limit then Ok(output[..limit], true)
      else if end == Corrupt && output == [] then Failed
      else Ok(output, end == Corrupt)
  }

  /** Reads one byte past the cap to tell a full output from a longer one. */
  method DecompressCapped(d: Decoder, cap: int) returns (out: Slice, truncated: bool, ok: bool)
    ensures match DecodeResult(d, cap)
            case Failed => !ok && !truncated && out.Valid() && out.Bytes() == []
            case Ok(kept, t) => ok && truncated == t && out.Valid() && out.Bytes() == kept
    ensures fresh(out.mem)
  {
    if d.NoDecoder? {
      out := Allocate([]);
      return out, false, false;
    }
    var limit := if cap <= 0 then DEFAULT_CAP else cap;
    var copied := Take(d.output, limit + 1);
    var err := |d.output| <= limit && d.end == Corrupt;
    var hitCap := |copied| > limit;
    if hitCap {
      copied := copied[..limit];
    }
    if err {
      if |copied| == 0 {
        out := Allocate([]);
        return out, false, false;
      }
      out := Allocate(copied);
      return out, true, true;
    }
    out := Allocate(copied);
    return out, hitCap, true;
  }

  /** Decoding fails only without a decoder, or on corruption before the first byte. */
  lemma DecodeFailsIff(d: Decoder, cap: int)
    ensures DecodeResult(d, cap).Failed? <==> d.NoDecoder? || (d.end == Corrupt && d.output == [])
  {
  }

  /** With a positive cap, what is kept is the first `cap` bytes of the output, flagged if there were more. */
  lemma DecodeKeepsThePrefix(d: Decoder, cap: int)
    requires d.Decodes? && DecodeResult(d, cap).Ok?
    ensures cap > 0 ==> DecodeResult(d, cap).out == Take(d.output, cap)
    ensures cap <= 0 ==> DecodeResult(d, cap).out == Take(d.output, DEFAULT_CAP)
    ensures DecodeResult(d, cap).truncated <==> d.output != DecodeResult(d, cap).out || d.end == Corrupt
  {
  }

  // ---------------------------------------------------------------------------------------
  // The stored body
  // ---------------------------------------------------------------------------------------

  datatype Headers = Headers(encoding: string, contentType: string)

  /** The bytes to store and whether they are incomplete. */
  function Normalized(t: Text, raw: Bytes, h: Headers, d: Decoder, cap: int, truncated: bool): (Bytes, bool) {
    if raw == [] then (raw, truncated)
    else if IsOpaqueBinaryType(t, h.contentType) then
      ("<binary " + CanonicalContentType(t, h.contentType) + ", " + t.decimal(|raw|) + " bytes>", truncated)
    else
      var enc := t.lower(t.trim(h.encoding));
      if enc == "" || enc == "identity" then (raw, truncated)
      else
        match DecodeResult(d, cap)
        case Failed =>
          var hint := if truncated then "truncated capture" else "decode failed";
          ("<" + enc + " body, " + hint + ", " + t.decimal(|raw|) + " bytes>", truncated)
        case Ok(out, more) => (out, truncated || more)
  }

  /** The capture is compressed, and not replaced by a placeholder whatever it holds. */
  predicate Encoded(t: Text, h: Headers) {
    !IsOpaqueBinaryType(t, h.contentType) && t.lower(t.trim(h.encoding)) !in {"", "identity"}
  }

  predicate Plain(t: Text, h: Headers) {
    !IsOpaqueBinaryType(t, h.contentType) && t.lower(t.trim(h.encoding)) in {"", "identity"}
  }

  predicate Decodable(d: Decoder) { d.Decodes? && (d.output != [] || d.end != Corrupt) }

  /** A compressed capture is stored as the first bytes of what it decodes to, up to the cap. */
  lemma DecodedBodyIsStored(t: Text, raw: Bytes, h: Headers, d: Decoder, cap: int, truncated: bool)
    requires raw != [] && Encoded(t, h) && Decodable(d)
    ensures var limit := if cap > 0 then cap else 0x10_0000;
            Normalized(t, raw, h, d, cap, truncated)
            == (Take(d.output, limit), truncated || |d.output| > limit || d.end == Corrupt)
  {
  }

  /** A capture that is not compressed is stored as it is, and so is an empty one. */
  lemma PlainBodyIsStored(t: Text, raw: Bytes, h: Headers, d: Decoder, cap: int, truncated: bool)
    requires raw == [] || Plain(t, h)
    ensures Normalized(t, raw, h, d, cap, truncated) == (raw, truncated)
  {
  }

  /** Any other capture is replaced by a placeholder that tells nothing of it but its length. */
  lemma PlaceholderHidesTheBody(t: Text, a: Bytes, b: Bytes, h: Headers, d: Decoder, cap: int, truncated: bool)
    requires a != [] && |a| == |b| && !Plain(t, h) && (Encoded(t, h) ==> !Decodable(d))
    ensures Normalized(t, a, h, d, cap, truncated) == Normalized(t, b, h, d, cap, truncated)
    ensures var (text, flag) := Normalized(t, a, h, d, cap, truncated);
            flag == truncated && |text| > 2 && text[0] == '<' && text[|text| - 1] == '>'
  {
  }

  /** The result is in new memory, except that an empty capture comes back as it is. */
  method NormalizeCapturedBody(t: Text, raw: Slice, h: Headers, d: Decoder, cap: int, captureTruncated: bool)
    returns (out: Slice, truncated: bool)
    requires raw.Valid()
    ensures out.Valid() && (out.Bytes(), truncated) == Normalized(t, raw.Bytes(), h, d, cap, captureTruncated)
    ensures (out == raw && raw.Bytes() == []) || fresh(out.mem)
  {
    var bytes := raw.ToBytes();
    if |bytes| == 0 {
      return raw, captureTruncated;
    }
    if IsOpaqueBinaryType(t, h.contentType) {
      out := Allocate("<binary " + CanonicalContentType(t, h.contentType) + ", " + t.decimal(|bytes|) + " bytes>");
      return out, captureTruncated;
    }
    var enc := t.lower(t.trim(h.encoding));
    if enc == "" || enc == "identity" {
      out := Allocate(bytes);
      return out, captureTruncated;
    }
    var decoded, decodeTrunc, ok := DecompressCapped(d, cap);
    if !ok {
      var hint := "decode failed";
      if captureTruncated {
        hint := "truncated capture";
      }
      out := Allocate("<" + enc + " body, " + hint + ", " + t.decimal(|bytes|) + " bytes>");
      return out, captureTruncated;
    }
    return decoded, captureTruncated || decodeTrunc;
  }

  /** Redacting may hand back the very slice it was given: an empty body, or one no pattern was applied to. */
  method RedactBody(r: Redact.Redactor, codec: Redact.Codec, body: Slice, contentType: string) returns (out: Slice)
    requires body.Valid()
    ensures out.Valid() && out.Bytes() == Redact.Body(r, codec, body.Bytes(), contentType)
    ensures out == body || fresh(out.mem)
  {
    var bytes := body.ToBytes();
    if bytes == "" {
      return body;
    }
    var masked := if Redact.IsJSON(r.lower, contentType, bytes) then Redact.MaskJSON(r, codec, bytes) else None;
    if masked.None? && r.patterns == [] {
      return body;
    }
    var scrubbed := PatternScrub.MaskPatterns(r.patterns, if masked.Some? then masked.value else bytes);
    out := Allocate(scrubbed);
  }

  // ---------------------------------------------------------------------------------------
  // The event outlives the buffers
  // ---------------------------------------------------------------------------------------

  /** What of an event comes from one captured body. */
  datatype Stored = Stored(body: Slice, truncated: bool)

  /** What the event is meant to hold of one captured body, as a value. */
  function StoredValue(t: Text, r: Redact.Redactor, codec: Redact.Codec, raw: Bytes, h: Headers, d: Decoder, cap: int,
                       truncated: bool): (Bytes, bool) {
    var (bytes, more) := Normalized(t, raw, h, d, cap, truncated);
    (Redact.Body(r, codec, bytes, h.contentType), more)
  }

  /** One side of `emit`: a body that is not empty lies in memory nobody else has. */
  method Store(t: Text, r: Redact.Redactor, codec: Redact.Codec, w: CappedWriter, h: Headers, d: Decoder, cap: int)
    returns (e: Stored)
    requires w.buf.Valid()
    ensures e.body.Valid()
    ensures (e.body.Bytes(), e.truncated) == StoredValue(t, r, codec, w.buf.Contents(), h, d, cap, w.truncated)
    ensures e.body.lo == e.body.hi || fresh(e.body.mem)
  {
    var raw := View(w.buf);
    var body, truncated := NormalizeCapturedBody(t, raw, h, d, cap, w.truncated);
    var out := RedactBody(r, codec, body, h.contentType);
    e := Stored(out, truncated);
  }

  datatype Use = Fill(p: Bytes) | Empty

  /** The pool's next users: they reset the buffer and write to it as they like. */
  method UseBuffer(b: Buffer, uses: seq<Use>)
    requires b.Valid()
    modifies b, b.data
    ensures b.Valid()
  {
    for i := 0 to |uses|
      invariant b.Valid() && (b.data == old(b.data) || fresh(b.data))
    {
      match uses[i]
      case Fill(p) => b.Write(p);
      case Empty => b.Reset();
    }
  }

  method Recycle(reqBuf: Buffer, resBuf: Buffer, reqUses: seq<Use>, resUses: seq<Use>)
    requires reqBuf != resBuf && reqBuf.data != resBuf.data && reqBuf.Valid() && resBuf.Valid()
    modifies reqBuf, resBuf, reqBuf.data, resBuf.data
  {
    reqBuf.Reset();
    resBuf.Reset();
    UseBuffer(reqBuf, reqUses);
    UseBuffer(resBuf, resUses);
  }

  /**
   The end of a request: both captures are stored in the event, both buffers go back to the pool,
   and others use them in any way. The event still holds what was captured when it was built.
   */
  method EmitThenReuse(t: Text, r: Redact.Redactor, codec: Redact.Codec, req: CappedWriter, res: CappedWriter,
                       reqHeaders: Headers, resHeaders: Headers, reqDecoder: Decoder, resDecoder: Decoder, cap: int,
                       reqUses: seq<Use>, resUses: seq<Use>)
    returns (reqStored: Stored, resStored: Stored)
    requires req.buf != res.buf && req.buf.data != res.buf.data && req.buf.Valid() && res.buf.Valid()
    modifies req.buf, res.buf, req.buf.data, res.buf.data
    ensures reqStored.body.Valid() && resStored.body.Valid()
    ensures (reqStored.body.Bytes(), reqStored.truncated)
         == old(StoredValue(t, r, codec, req.buf.Contents(), reqHeaders, reqDecoder, cap, req.truncated))
    ensures (resStored.body.Bytes(), resStored.truncated)
         == old(StoredValue(t, r, codec, res.buf.Contents(), resHeaders, resDecoder, cap, res.truncated))
  {
    reqStored := Store(t, r, codec, req, reqHeaders, reqDecoder, cap);
    resStored := Store(t, r, codec, res, resHeaders, resDecoder, cap);
    ghost var reqBytes, resBytes := reqStored.body.Bytes(), resStored.body.Bytes();
    Recycle(req.buf, res.buf, reqUses, resUses);
    assert reqStored.body.Bytes() == reqBytes;
    assert resStored.body.Bytes() == resBytes;
  }

  method Serve(body: Bytes, sizes: seq<nat>, streaming: bool, client: Client, buf: Buffer, cap: int)
    returns (captured: CappedWriter)
    requires buf.Valid() && buf.Contents() == []
    requires client.limit.None? && client.received == [] && client.writes == 0
    modifies client, buf, buf.data
    ensures captured.buf == buf && buf.Valid() && (buf.data == old(buf.data) || fresh(buf.data))
    ensures client.received == body && buf.Contents() == Take(body, cap)
    ensures captured.truncated <==> |body| > (if cap > 0 then cap else 0)
  {
    captured := new CappedWriter(buf, cap);
    var src := Cut(body, sizes);
    CutEnds(body, sizes);
    ghost var end: nat;
    if streaming {
      var _, _, e := StreamToClient(src, client, captured);
      end := e;
    } else {
      var _, e := CopyToClient(src, client, captured);
      end := e;
    }
    ChunkingDoesNotMatter(body, sizes, end, client, captured);
  }

  /**
   A response from end to end. However the upstream body is cut into reads, and on either copy
   path, a client that takes every write receives exactly the body; and whatever becomes of the
   buffer, the event holds what is to be stored of the body's first `cap` bytes.
   */
  method ServeAndStore(t: Text, r: Redact.Redactor, codec: Redact.Codec, body: Bytes, sizes: seq<nat>, streaming: bool,
                       client: Client, buf: Buffer, cap: int, h: Headers, d: Decoder, uses: seq<Use>)
    returns (e: Stored)
    requires buf.Valid() && buf.Contents() == []
    requires client.limit.None? && client.received == [] && client.writes == 0
    modifies client, buf, buf.data
    ensures client.received == body
    ensures e.body.Valid()
    ensures (e.body.Bytes(), e.truncated)
         == StoredValue(t, r, codec, Take(body, cap), h, d, cap, |body| > (if cap > 0 then cap else 0))
    ensures cap > 0 && body != [] && Encoded(t, h) && Decodable(d) ==>
              && e.body.Bytes() == Redact.Body(r, codec, Take(d.output, cap), h.contentType)
              && (e.truncated <==> |body| > cap || |d.output| > cap || d.end == Corrupt)
    ensures cap > 0 && Plain(t, h) ==>
              && e.body.Bytes() == Redact.Body(r, codec, Take(body, cap), h.contentType)
              && (e.truncated <==> |body| > cap)
  {
    var captured := Serve(body, sizes, streaming, client, buf, cap);
    e := Store(t, r, codec, captured, h, d, cap);
    ghost var stored := e.body.Bytes();
    ghost var raw, cut := Take(body, cap), |body| > (if cap > 0 then cap else 0);
    UseBuffer(buf, uses);
    assert e.body.Bytes() == stored;
    if raw != [] && Encoded(t, h) && Decodable(d) {
      DecodedBodyIsStored(t, raw, h, d, cap, cut);
    } else if Plain(t, h) {
      PlainBodyIsStored(t, raw, h, d, cap, cut);
    }
  }
}

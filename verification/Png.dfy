/** The PNG metadata stripper and the image sniffer (backend/storage.py). A PNG is an
    8-byte signature and a series of chunks: length, type, data, CRC (section 3.2 of RFC 2083). */
module Png {
  import opened Common

  const PNG_MAGIC: Bytes := [0x89, 0x50, 0x4E, 0x47, 0x0D, 0x0A, 0x1A, 0x0A]
  const TEXT: Bytes := [0x74, 0x45, 0x58, 0x74]
  const ZTXT: Bytes := [0x7A, 0x54, 0x58, 0x74]
  const ITXT: Bytes := [0x69, 0x54, 0x58, 0x74]
  const EXIF: Bytes := [0x65, 0x58, 0x49, 0x66]

  predicate IsMetadata(kind: Bytes) { kind == TEXT || kind == ZTXT || kind == ITXT || kind == EXIF }

  /** These bytes are that ASCII text. */
  predicate Spells(b: Bytes, text: string) {
    |b| == |text| && forall i :: 0 <= i < |b| ==> b[i] as int == text[i] as int
  }

  predicate NamedMetadata(kind: Bytes) {
    Spells(kind, "tEXt") || Spells(kind, "zTXt") || Spells(kind, "iTXt") || Spells(kind, "eXIf")
  }

  /** The four kinds of chunk to drop, by name. */
  lemma MetadataNames(kind: Bytes)
    requires |kind| == 4
    ensures IsMetadata(kind) <==> NamedMetadata(kind)
  {
    var k := kind;
    assert k == [k[0], k[1], k[2], k[3]];
  }

  function Slice(data: Bytes, from: nat, to: nat): (r: Bytes)
    requires from <= to
    ensures |r| <= to - from
  {
    if to <= |data| then data[from..to] else if from <= |data| then data[from..] else []
  }

  /** A big-endian 32-bit length. */
  function U32(b: Bytes): (n: nat)
    requires |b| == 4
    ensures n < 0x1_0000_0000
  {
    b[0] as int * 0x100_0000 + b[1] as int * 0x1_0000 + b[2] as int * 0x100 + b[3] as int
  }

  function BytesOfU32(n: nat): (b: Bytes)
    requires n < 0x1_0000_0000
    ensures |b| == 4 && U32(b) == n
  {
    var high, mid, low := n / 256 / 256 / 256, n / 256 / 256, n / 256;
    [high as byte, (mid % 256) as byte, (low % 256) as byte, (n % 256) as byte]
  }

  // ---- what a byte string parses to ----

  /** The bytes the chunk at the head of `s` occupies; the last one may be cut short. */
  function HeadLength(s: Bytes): (n: nat)
    requires |s| >= 12
    ensures 12 <= n <= |s|
  {
    var total := 12 + U32(s[..4]);
    if total <= |s| then total else |s|
  }

  function KindOf(chunk: Bytes): Bytes
    requires |chunk| >= 12
  {
    chunk[4..8]
  }

  /** The raw chunks of a PNG body; a tail too short to be one is not among them. */
  function RawChunks(s: Bytes): (chunks: seq<Bytes>)
    ensures forall c :: c in chunks ==> |c| >= 12
  {
    if |s| < 12 then [] else [s[..HeadLength(s)]] + RawChunks(s[HeadLength(s)..])
  }

  lemma HeadLengthExact(s: Bytes, n: nat)
    requires |s| >= 12
    requires n == 12 + s[0] as int * 16777216 + s[1] as int * 65536 + s[2] as int * 256 + s[3] as int
    ensures HeadLength(s) == if n <= |s| then n else |s|
  {
    assert U32(s[..4]) == n - 12;
  }

  lemma LastRawChunk(s: Bytes)
    requires |s| >= 12 && HeadLength(s) == |s|
    ensures RawChunks(s) == [s]
  {
    assert s[..|s|] == s && s[|s|..] == [];
    assert [s] + [] == [s];
  }

  /** How a body parses: under twelve bytes are no chunk; otherwise the first four are the length
      of the data, most significant first, and a chunk that claims more than there is gets it all. */
  lemma RawChunksExact(s: Bytes, n: nat)
    requires |s| >= 12 ==>
      n == 12 + s[0] as int * 16777216 + s[1] as int * 65536 + s[2] as int * 256 + s[3] as int
    ensures RawChunks(s) == if |s| < 12 then [] else if n < |s| then [s[..n]] + RawChunks(s[n..]) else [s]
  {
    if |s| >= 12 {
      HeadLengthExact(s, n);
      if n >= |s| {
        LastRawChunk(s);
      }
    }
  }

  function Kept(chunks: seq<Bytes>): (r: seq<Bytes>)
    requires forall c :: c in chunks ==> |c| >= 12
    ensures forall c :: c in r ==> |c| >= 12
  {
    if chunks == [] then []
    else (if IsMetadata(KindOf(chunks[0])) then [] else [chunks[0]]) + Kept(chunks[1..])
  }

  function Join(chunks: seq<Bytes>): Bytes {
    if chunks == [] then [] else chunks[0] + Join(chunks[1..])
  }

  function StripBody(s: Bytes): Bytes { Join(Kept(RawChunks(s))) }

  function Strip(data: Bytes): Bytes {
    if PNG_MAGIC <= data then PNG_MAGIC + StripBody(data[8..]) else data
  }

  // ---- the loop ----

  lemma MagicIsPrefix(data: Bytes)
    ensures Slice(data, 0, 8) == PNG_MAGIC <==> PNG_MAGIC <= data
  {
    assert PNG_MAGIC <= data ==> data[..8] == PNG_MAGIC;
  }

  /** What is left to write once the loop has reached `pos`. */
  function StripFrom(data: Bytes, pos: nat): Bytes {
    if pos <= |data| then StripBody(data[pos..]) else []
  }

  /** `result` and what is left to write make up `whole`. */
  ghost predicate Pending(whole: Bytes, result: Bytes, data: Bytes, pos: nat) {
    whole == result + StripFrom(data, pos)
  }

  lemma PendingEnds(whole: Bytes, result: Bytes, data: Bytes, pos: nat)
    requires Pending(whole, result, data, pos) && pos + 12 > |data|
    ensures result == whole
  {
    assert StripFrom(data, pos) == [];
  }

  lemma StripBodyStep(s: Bytes)
    requires |s| >= 12
    ensures var n := HeadLength(s);
      StripBody(s) == (if IsMetadata(KindOf(s[..n])) then [] else s[..n]) + StripBody(s[n..])
  {
    var chunks := RawChunks(s);
    assert chunks[1..] == RawChunks(s[HeadLength(s)..]);
    var kept := Kept(chunks[1..]);
    assert ([s[..HeadLength(s)]] + kept)[1..] == kept;
    assert [] + kept == kept;
  }

  lemma StripFromStep(data: Bytes, pos: nat)
    requires pos + 12 <= |data|
    ensures var next := pos + 12 + U32(data[pos..pos + 4]);
      StripFrom(data, pos) ==
      (if IsMetadata(data[pos + 4..pos + 8]) then [] else Slice(data, pos, next)) + StripFrom(data, next)
  {
    var s, next := data[pos..], pos + 12 + U32(data[pos..pos + 4]);
    assert s[..4] == data[pos..pos + 4];
    assert s[..HeadLength(s)] == Slice(data, pos, next);
    assert KindOf(s[..HeadLength(s)]) == data[pos + 4..pos + 8];
    assert s[HeadLength(s)..] == if next <= |data| then data[next..] else [];
    StripBodyStep(s);
  }

  lemma Regroup(a: Bytes, b: Bytes, c: Bytes)
    ensures a + (b + c) == (a + b) + c
  {
  }

  /** One iteration of the loop, whose output so far is `result`. */
  lemma StripLoopStep(whole: Bytes, result: Bytes, data: Bytes, pos: nat, kind: Bytes, total: Bytes, next: nat)
    requires pos + 12 <= |data| && Pending(whole, result, data, pos)
    requires next == pos + 12 + U32(data[pos..pos + 4])
    requires kind == data[pos + 4..pos + 8] && total == Slice(data, pos, next)
    ensures Pending(whole, if IsMetadata(kind) then result else result + total, data, next)
  {
    StripFromStep(data, pos);
    if IsMetadata(kind) {
      assert [] + StripFrom(data, next) == StripFrom(data, next);
    } else {
      Regroup(result, total, StripFrom(data, next));
    }
  }

  lemma PendingStarts(data: Bytes)
    requires PNG_MAGIC <= data
    ensures Pending(Strip(data), PNG_MAGIC, data, 8)
  {
  }

  method StripPngExif(data: Bytes) returns (result: Bytes)
    ensures result == Strip(data)
  {
    MagicIsPrefix(data);
    if Slice(data, 0, 8) != PNG_MAGIC {
      return data;
    }
    result := PNG_MAGIC;
    var pos := 8;
    ghost var whole := Strip(data);
    PendingStarts(data);
    while pos + 12 <= |data|
      invariant Pending(whole, result, data, pos)
      decreases |data| - pos
    {
      var length := U32(data[pos..pos + 4]);
      var kind := data[pos + 4..pos + 8];
      var next := pos + 12 + length;
      var totalChunk := Slice(data, pos, next);
      StripLoopStep(whole, result, data, pos, kind, totalChunk, next);
      pos := next;
      if IsMetadata(kind) {
        continue;
      }
      result := result + totalChunk;
    }
    PendingEnds(whole, result, data, pos);
  }

  // ---- on any bytes ----

  lemma JoinCons(c: Bytes, chunks: seq<Bytes>)
    ensures Join([c] + chunks) == c + Join(chunks)
  {
    assert ([c] + chunks)[1..] == chunks;
  }

  lemma {:induction false} KeptFacts(chunks: seq<Bytes>)
    requires forall c :: c in chunks ==> |c| >= 12
    ensures forall c :: c in Kept(chunks) ==> c in chunks && !IsMetadata(KindOf(c))
    ensures |Join(Kept(chunks))| <= |Join(chunks)|
  {
    if chunks != [] {
      KeptFacts(chunks[1..]);
      JoinCons(chunks[0], Kept(chunks[1..]));
      assert [] + Kept(chunks[1..]) == Kept(chunks[1..]);
    }
  }

  lemma {:induction false} KeptAll(chunks: seq<Bytes>)
    requires forall c :: c in chunks ==> |c| >= 12 && !IsMetadata(KindOf(c))
    ensures Kept(chunks) == chunks
  {
    if chunks != [] {
      KeptAll(chunks[1..]);
    }
  }

  lemma JoinStartsWith(head: Bytes, rest: seq<Bytes>, tail: Bytes)
    requires Join(rest) <= tail
    ensures Join([head] + rest) <= head + tail
  {
    assert ([head] + rest)[1..] == rest;
  }

  lemma {:induction false} JoinRawChunks(s: Bytes)
    ensures Join(RawChunks(s)) <= s
  {
    if |s| >= 12 {
      var n := HeadLength(s);
      JoinRawChunks(s[n..]);
      JoinStartsWith(s[..n], RawChunks(s[n..]), s[n..]);
      assert s == s[..n] + s[n..];
    }
  }

  /** A chunk put before other bytes parses as itself, if its length field says where it
      ends or nothing follows it. */
  lemma RawChunksCons(chunk: Bytes, rest: Bytes)
    requires |chunk| >= 12
    requires var total := 12 + U32(chunk[..4]); total == |chunk| || (rest == [] && total > |chunk|)
    ensures RawChunks(chunk + rest) == [chunk] + RawChunks(rest)
  {
    var s := chunk + rest;
    assert s[..4] == chunk[..4];
    assert HeadLength(s) == |chunk|;
    assert s[..|chunk|] == chunk && s[|chunk|..] == rest;
  }

  /** Parsing the stripped body gives exactly the non-metadata chunks of the original, in order. */
  lemma {:induction false} StripFiltersChunks(s: Bytes)
    ensures RawChunks(StripBody(s)) == Kept(RawChunks(s))
  {
    if |s| >= 12 {
      var n := HeadLength(s);
      var chunk, rest := s[..n], StripBody(s[n..]);
      StripBodyStep(s);
      StripFiltersChunks(s[n..]);
      assert RawChunks(s)[0] == chunk && RawChunks(s)[1..] == RawChunks(s[n..]);
      if IsMetadata(KindOf(chunk)) {
        assert [] + rest == rest;
      } else {
        assert chunk[..4] == s[..4];
        if n == |s| {
          assert s[n..] == [];
        }
        RawChunksCons(chunk, rest);
      }
    }
  }

  /** A chunk that stays: its bytes 4 to 8 are none of the four names. */
  predicate Stays(chunk: Bytes)
    requires |chunk| >= 12
  {
    !NamedMetadata(chunk[4..8])
  }

  function StayingChunks(chunks: seq<Bytes>): seq<Bytes>
    requires forall c :: c in chunks ==> |c| >= 12
  {
    if chunks == [] then []
    else if Stays(chunks[0]) then [chunks[0]] + StayingChunks(chunks[1..]) else StayingChunks(chunks[1..])
  }

  lemma {:induction false} KeptIsStaying(chunks: seq<Bytes>)
    requires forall c :: c in chunks ==> |c| >= 12
    ensures Kept(chunks) == StayingChunks(chunks)
    ensures forall c :: c in StayingChunks(chunks) <==> c in chunks && Stays(c)
  {
    if chunks != [] {
      MetadataNames(chunks[0][4..8]);
      KeptIsStaying(chunks[1..]);
      assert chunks == [chunks[0]] + chunks[1..];
      assert [] + Kept(chunks[1..]) == Kept(chunks[1..]);
    }
  }

  /** On arbitrary bytes: the output is the signature and the chunks that stay, one after the
      other, and parses to them again; it is no longer, and stripping it again changes nothing;
      what is not PNG stays as it is. */
  lemma StripAnyBytes(data: Bytes)
    ensures |Strip(data)| <= |data| && (!(PNG_MAGIC <= data) ==> Strip(data) == data)
    ensures PNG_MAGIC <= data ==>
      var staying := StayingChunks(RawChunks(data[8..]));
      PNG_MAGIC <= Strip(data) && Strip(data)[8..] == Join(staying) && RawChunks(Strip(data)[8..]) == staying &&
      forall c :: c in RawChunks(Strip(data)[8..]) <==> c in RawChunks(data[8..]) && Stays(c)
    ensures Strip(Strip(data)) == Strip(data)
  {
    if PNG_MAGIC <= data {
      var body := data[8..];
      assert Strip(data)[8..] == StripBody(body);
      StripFiltersChunks(body);
      KeptIsStaying(RawChunks(body));
      KeptFacts(RawChunks(body));
      KeptAll(Kept(RawChunks(body)));
      JoinRawChunks(body);
    }
  }

  // ---- on well-formed files ----

  datatype Chunk = Chunk(kind: Bytes, data: Bytes, crc: Bytes)

  predicate ValidChunk(c: Chunk) { |c.kind| == 4 && |c.crc| == 4 && |c.data| < 0x1_0000_0000 }

  function Serialise(c: Chunk): (s: Bytes)
    requires ValidChunk(c)
    ensures |s| == 12 + |c.data|
  {
    BytesOfU32(|c.data|) + c.kind + c.data + c.crc
  }

  /** The length comes first, most significant byte first, then kind, data and CRC. */
  lemma SerialiseExact(c: Chunk)
    requires ValidChunk(c)
    ensures var s := Serialise(c);
      s[0] as int * 16777216 + s[1] as int * 65536 + s[2] as int * 256 + s[3] as int == |c.data| &&
      s[4..8] == c.kind && s[8..8 + |c.data|] == c.data && s[8 + |c.data|..] == c.crc
  {
    var b := BytesOfU32(|c.data|);
    assert Serialise(c)[..4] == b && U32(b) == |c.data|;
  }

  function SerialiseAll(chunks: seq<Chunk>): Bytes
    requires forall c :: c in chunks ==> ValidChunk(c)
  {
    if chunks == [] then [] else Serialise(chunks[0]) + SerialiseAll(chunks[1..])
  }

  function WithoutMetadata(chunks: seq<Chunk>): (r: seq<Chunk>)
    ensures forall c :: c in r ==> c in chunks
  {
    if chunks == [] then []
    else (if NamedMetadata(chunks[0].kind) then [] else [chunks[0]]) + WithoutMetadata(chunks[1..])
  }

  lemma SerialisedHead(c: Chunk, rest: Bytes)
    requires ValidChunk(c)
    ensures var s := Serialise(c) + rest;
      HeadLength(s) == 12 + |c.data| && s[..HeadLength(s)] == Serialise(c) && s[HeadLength(s)..] == rest &&
      KindOf(Serialise(c)) == c.kind
  {
    var s := Serialise(c) + rest;
    assert s[..4] == BytesOfU32(|c.data|);
  }

  lemma StripOneSerialised(c: Chunk, rest: Bytes)
    requires ValidChunk(c)
    ensures StripBody(Serialise(c) + rest) == (if NamedMetadata(c.kind) then [] else Serialise(c)) + StripBody(rest)
  {
    MetadataNames(c.kind);
    SerialisedHead(c, rest);
    StripBodyStep(Serialise(c) + rest);
  }

  lemma SerialiseKept(chunks: seq<Chunk>)
    requires chunks != [] && forall c :: c in chunks ==> ValidChunk(c)
    ensures SerialiseAll(WithoutMetadata(chunks)) ==
      (if NamedMetadata(chunks[0].kind) then [] else Serialise(chunks[0])) + SerialiseAll(WithoutMetadata(chunks[1..]))
  {
    var c, kept := chunks[0], WithoutMetadata(chunks[1..]);
    assert ([c] + kept)[1..] == kept && [] + kept == kept;
    assert [] + SerialiseAll(kept) == SerialiseAll(kept);
  }

  lemma {:induction false} StripSerialised(chunks: seq<Chunk>)
    requires forall c :: c in chunks ==> ValidChunk(c)
    ensures StripBody(SerialiseAll(chunks)) == SerialiseAll(WithoutMetadata(chunks))
  {
    if chunks != [] {
      StripOneSerialised(chunks[0], SerialiseAll(chunks[1..]));
      StripSerialised(chunks[1..]);
      SerialiseKept(chunks);
    }
  }

  /** On the serialisation of any chunk list, stripping is the serialisation of that list
      without its metadata chunks. */
  lemma StripRoundTrip(chunks: seq<Chunk>)
    requires forall c :: c in chunks ==> ValidChunk(c)
    ensures Strip(PNG_MAGIC + SerialiseAll(chunks)) == PNG_MAGIC + SerialiseAll(WithoutMetadata(chunks))
  {
    StripSerialised(chunks);
    assert (PNG_MAGIC + SerialiseAll(chunks))[8..] == SerialiseAll(chunks);
  }

  // ---- recognising an image ----

  const JPEG_MAGIC: Bytes := [0xFF, 0xD8, 0xFF]
  const GIF87: Bytes := [0x47, 0x49, 0x46, 0x38, 0x37, 0x61]
  const GIF89: Bytes := [0x47, 0x49, 0x46, 0x38, 0x39, 0x61]
  const RIFF: Bytes := [0x52, 0x49, 0x46, 0x46]
  const WEBP: Bytes := [0x57, 0x45, 0x42, 0x50]

  datatype ImageType = PngImage | JpegImage | GifImage | WebpImage

  function Sniff(data: Bytes): Option<ImageType> {
    if Slice(data, 0, 8) == PNG_MAGIC then Some(PngImage)
    else if |data| >= 3 && data[..3] == JPEG_MAGIC then Some(JpegImage)
    else if Slice(data, 0, 6) == GIF87 || Slice(data, 0, 6) == GIF89 then Some(GifImage)
    else if Slice(data, 0, 4) == RIFF && |data| >= 12 && data[8..12] == WEBP then Some(WebpImage)
    else None
  }

  lemma FourSpelled(b: Bytes)
    requires |b| == 4
    ensures (b == RIFF <==> Spells(b, "RIFF")) && (b == WEBP <==> Spells(b, "WEBP"))
  {
    assert b == [b[0], b[1], b[2], b[3]];
  }

  lemma SixSpelled(b: Bytes)
    requires |b| == 6
    ensures (b == GIF87 <==> Spells(b, "GIF87a")) && (b == GIF89 <==> Spells(b, "GIF89a"))
  {
    assert b == [b[0], b[1], b[2], b[3], b[4], b[5]];
  }

  lemma EightSpelled(b: Bytes)
    requires |b| == 8
    ensures b == PNG_MAGIC <==> b[0] == 0x89 && Spells(b[1..], "PNG\r\n\U{1a}\n")
  {
    assert b == [b[0], b[1], b[2], b[3], b[4], b[5], b[6], b[7]];
    assert b[1..] == [b[1], b[2], b[3], b[4], b[5], b[6], b[7]];
  }

  lemma ThreeSpelled(b: Bytes)
    requires |b| == 3
    ensures b == JPEG_MAGIC <==> b[0] == 0xFF && b[1] == 0xD8 && b[2] == 0xFF
  {
    assert b == [b[0], b[1], b[2]];
  }

  /** The four signatures: the PNG one, FF D8 FF, "GIF87a" or "GIF89a", and "RIFF" with "WEBP"
      at offset 8. */
  predicate IsPng(data: Bytes) { |data| >= 8 && data[0] == 0x89 && Spells(data[1..8], "PNG\r\n\U{1a}\n") }

  predicate IsJpeg(data: Bytes) { |data| >= 3 && data[0] == 0xFF && data[1] == 0xD8 && data[2] == 0xFF }

  predicate IsGif(data: Bytes) { |data| >= 6 && (Spells(data[..6], "GIF87a") || Spells(data[..6], "GIF89a")) }

  predicate IsWebp(data: Bytes) { |data| >= 12 && Spells(data[..4], "RIFF") && Spells(data[8..12], "WEBP") }

  lemma SignaturesFound(data: Bytes)
    ensures Slice(data, 0, 8) == PNG_MAGIC <==> IsPng(data)
    ensures |data| >= 3 && data[..3] == JPEG_MAGIC <==> IsJpeg(data)
    ensures Slice(data, 0, 6) == GIF87 || Slice(data, 0, 6) == GIF89 <==> IsGif(data)
    ensures Slice(data, 0, 4) == RIFF && |data| >= 12 && data[8..12] == WEBP <==> IsWebp(data)
  {
    if |data| >= 3 {
      ThreeSpelled(data[..3]);
    }
    if |data| >= 6 {
      SixSpelled(data[..6]);
    }
    if |data| >= 8 {
      EightSpelled(data[..8]);
      assert data[..8][1..] == data[1..8];
    }
    if |data| >= 12 {
      FourSpelled(data[..4]);
      FourSpelled(data[8..12]);
    }
  }

  lemma SignaturesDiffer(data: Bytes)
    ensures IsPng(data) ==> !IsJpeg(data) && !IsGif(data) && !IsWebp(data)
    ensures IsJpeg(data) ==> !IsGif(data) && !IsWebp(data)
    ensures IsGif(data) ==> !IsWebp(data)
  {
    if IsGif(data) {
      assert data[0] == data[..6][0];
    }
    if IsWebp(data) {
      assert data[0] == data[..4][0];
    }
  }

  /** An image is recognised by its signature alone, and everything else is none. */
  lemma SniffExact(data: Bytes)
    ensures (Sniff(data) == Some(PngImage) <==> IsPng(data)) && (Sniff(data) == Some(JpegImage) <==> IsJpeg(data))
    ensures (Sniff(data) == Some(GifImage) <==> IsGif(data)) && (Sniff(data) == Some(WebpImage) <==> IsWebp(data))
  {
    SignaturesFound(data);
    SignaturesDiffer(data);
  }

  /** Stripping never changes what an image is recognised as. */
  lemma StripKeepsType(data: Bytes)
    ensures Sniff(Strip(data)) == Sniff(data)
  {
    if PNG_MAGIC <= data {
      MagicIsPrefix(data);
      MagicIsPrefix(Strip(data));
    }
  }
}

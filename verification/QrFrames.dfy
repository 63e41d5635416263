// The panel's VPN links and the frames its QR codes carry: a link is
// base64url of a length and a deflated payload; the bytes of a link are cut
// into chunks, each framed with a magic number, the frame count, its index and
// its length, big-endian.
module QrFrames {
  import opened Powers
  import opened Numerals
  import opened Options
  import opened Base64Url

  const MAGIC: nat := 1984
  const CHUNK_BYTES: nat := 850
  const HEADER_BYTES: nat := 8
  const MAX_FRAMES: nat := 255
  const WORD: nat := 0x1_0000_0000
  const SCHEME := "vpn://"

  function BigEndian(n: nat, v: nat): (bytes: seq<Byte>)
    ensures |bytes| == n
  {
    ToDigits(256, n, v)
  }

  function Number(bytes: seq<Byte>): nat {
    FromDigits(256, bytes)
  }

  lemma PowerOf256(n: nat)
    requires n == 2 || n == 4
    ensures Pow(256, n) == if n == 2 then 0x1_0000 else WORD
  {
    assert Pow(256, 0) == 1 && Pow(256, 1) == 256 && Pow(256, 2) == 0x1_0000 && Pow(256, 3) == 0x100_0000;
  }

  lemma BigEndianReadsBack(n: nat, v: nat)
    requires v < Pow(256, n)
    ensures Number(BigEndian(n, v)) == v
  {
    DigitsRoundTrip(256, n, v);
  }

  // ---- Links ------------------------------------------------------------------------

  // Deflate and inflate undo one another; deflate never yields nothing.
  ghost predicate InversePair(deflate: seq<Byte> -> seq<Byte>, inflate: seq<Byte> -> Option<seq<Byte>>) {
    forall raw :: |deflate(raw)| > 0 && inflate(deflate(raw)) == Some(raw)
  }

  // None: the length does not fit its four bytes.
  function EncodeVpnPayload(raw: seq<Byte>, deflate: seq<Byte> -> seq<Byte>): Option<string> {
    if |raw| >= WORD then None else Some(SCHEME + ToBase64Url(BigEndian(4, |raw|) + deflate(raw)))
  }

  datatype Decoded = Payload(raw: seq<Byte>) | NotALink | TooShort | Corrupt | WrongLength

  function DecodeVpnLink(link: string, inflate: seq<Byte> -> Option<seq<Byte>>): Decoded {
    if !(SCHEME <= link) then NotALink
    else
      var payload := FromBase64(link[|SCHEME|..]);
      if |payload| < 5 then TooShort
      else
        match inflate(payload[4..])
        case None => Corrupt
        case Some(raw) => if |raw| == Number(payload[..4]) then Payload(raw) else WrongLength
  }

  lemma LinkBytes(raw: seq<Byte>, deflate: seq<Byte> -> seq<Byte>)
    requires |raw| < WORD
    ensures var link := EncodeVpnPayload(raw, deflate).value;
      && SCHEME <= link && FromBase64(link[|SCHEME|..]) == BigEndian(4, |raw|) + deflate(raw)
      && (forall c :: c in link[|SCHEME|..] ==> UrlSafe(c))
  {
    var bytes := BigEndian(4, |raw|) + deflate(raw);
    Base64UrlRoundTrip(bytes);
    assert (SCHEME + ToBase64Url(bytes))[|SCHEME|..] == ToBase64Url(bytes);
  }

  // A link reads back as the payload it was made from.
  lemma LinkRoundTrip(raw: seq<Byte>, deflate: seq<Byte> -> seq<Byte>, inflate: seq<Byte> -> Option<seq<Byte>>)
    requires InversePair(deflate, inflate) && |raw| < WORD
    ensures DecodeVpnLink(EncodeVpnPayload(raw, deflate).value, inflate) == Payload(raw)
  {
    LinkBytes(raw, deflate);
    PowerOf256(4);
    BigEndianReadsBack(4, |raw|);
    var bytes := BigEndian(4, |raw|) + deflate(raw);
    assert bytes[..4] == BigEndian(4, |raw|) && bytes[4..] == deflate(raw);
    assert |deflate(raw)| > 0 && inflate(deflate(raw)) == Some(raw);
  }

  // A payload gets a link unless its length passes four bytes.
  lemma EncodesIff(raw: seq<Byte>, deflate: seq<Byte> -> seq<Byte>)
    ensures EncodeVpnPayload(raw, deflate).Some? <==> |raw| < 0x1_0000_0000
  {}

  // What the decoder answers, with `bytes` what follows the scheme in base64: the
  // inflated rest if its length is the one announced, and each refusal.
  lemma DecoderAnswers(link: string, inflate: seq<Byte> -> Option<seq<Byte>>)
    ensures var answer := DecodeVpnLink(link, inflate);
      if !("vpn://" <= link) then answer == NotALink
      else
        var bytes := FromBase64(link[6..]);
        if |bytes| <= 4 then answer == TooShort
        else if inflate(bytes[4..]) == None then answer == Corrupt
        else
          var raw := inflate(bytes[4..]).value;
          answer ==
            if |raw| == bytes[0] as int * 0x100_0000 + bytes[1] as int * 0x1_0000 + bytes[2] as int * 0x100 + bytes[3] as int
            then Payload(raw) else WrongLength
  {
    if "vpn://" <= link && |FromBase64(link[6..])| > 4 {
      HighestFirst(FromBase64(link[6..])[..4]);
    }
  }

  predicate IsSpace(c: char) {
    c == ' ' || c == '\t' || c == '\n' || c == '\r'
  }

  function TrimStart(s: string): string {
    if s != "" && IsSpace(s[0]) then TrimStart(s[1..]) else s
  }

  function TrimEnd(s: string): string
    decreases |s|
  {
    if s != "" && IsSpace(s[|s| - 1]) then TrimEnd(s[..|s| - 1]) else s
  }

  function Lower(c: char): char {
    if 'A' <= c <= 'Z' then 'a' + (c - 'A') else c
  }

  // The scheme counts in any letter case.
  predicate HasScheme(s: string) {
    |s| >= |SCHEME| && forall i :: 0 <= i < |SCHEME| ==> Lower(s[i]) == SCHEME[i]
  }

  function PayloadOf(trimmed: string): string {
    if HasScheme(trimmed) then trimmed[|SCHEME|..] else trimmed
  }

  function DecodeVpnLinkBytes(link: string): Option<seq<Byte>> {
    var payload := PayloadOf(TrimEnd(TrimStart(link)));
    var data := FromBase64(Replace(Replace(payload, '-', '+'), '_', '/'));
    if data == [] then None else Some(data)
  }

  // The bytes framed for a link are the bytes the link encodes.
  lemma LinkBytesReadBack(raw: seq<Byte>, deflate: seq<Byte> -> seq<Byte>)
    requires |raw| < WORD
    ensures DecodeVpnLinkBytes(EncodeVpnPayload(raw, deflate).value) == Some(BigEndian(4, |raw|) + deflate(raw))
  {
    var link := EncodeVpnPayload(raw, deflate).value;
    LinkBytes(raw, deflate);
    assert link[..|SCHEME|] == SCHEME;
    assert forall i :: 0 <= i < |SCHEME| ==> link[i] == SCHEME[i] && Lower(SCHEME[i]) == SCHEME[i];
    assert !IsSpace(link[0]);
    assert !IsSpace(link[|link| - 1]) by {
      if |link| > |SCHEME| {
        assert link[|link| - 1] in link[|SCHEME|..];
      }
    }
    StandardCharactersSame(link[|SCHEME|..]);
  }

  // ---- What a pasted link may look like -----------------------------------------------

  ghost predicate Blank(s: string) {
    forall c :: c in s ==> c in {' ', '\t', '\n', '\r'}
  }

  lemma {:induction false} TrimStartBlank(pre: string, s: string)
    requires Blank(pre)
    ensures TrimStart(pre + s) == TrimStart(s)
    decreases |pre|
  {
    if pre == "" {
      assert pre + s == s;
    } else {
      assert pre[0] in pre && (pre + s)[0] == pre[0] && (pre + s)[1..] == pre[1..] + s;
      assert forall c :: c in pre[1..] ==> c in pre;
      TrimStartBlank(pre[1..], s);
    }
  }

  lemma {:induction false} TrimEndBlank(s: string, post: string)
    requires Blank(post)
    ensures TrimEnd(s + post) == TrimEnd(s)
    decreases |post|
  {
    if post == "" {
      assert s + post == s;
    } else {
      var last := |post| - 1;
      assert post[last] in post && (s + post)[|s| + last] == post[last];
      assert (s + post)[..|s| + last] == s + post[..last];
      assert forall c :: c in post[..last] ==> c in post;
      TrimEndBlank(s, post[..last]);
    }
  }

  lemma PlainTrims(s: string)
    requires s != "" && !IsSpace(s[0]) && !IsSpace(s[|s| - 1])
    ensures TrimEnd(TrimStart(s)) == s
  {}

  // The scheme in any letter case.
  ghost predicate SpellsScheme(q: string) {
    |q| == 6 && q[0] in {'v', 'V'} && q[1] in {'p', 'P'} && q[2] in {'n', 'N'} && q[3..] == "://"
  }

  lemma HasSchemeIff(s: string)
    ensures HasScheme(s) <==> |s| >= 6 && SpellsScheme(s[..6])
  {
    if |s| >= 6 {
      assert s[..6][3..] == s[3..6];
      assert forall i :: 0 <= i < 6 ==> s[..6][i] == s[i];
      if SpellsScheme(s[..6]) {
        assert s[3] == s[3..6][0] && s[4] == s[3..6][1] && s[5] == s[3..6][2];
      }
    }
  }

  // A link carries no bytes exactly if fewer than two base64 characters are left.
  lemma NoBytesIff(link: string)
    ensures DecodeVpnLinkBytes(link).None? <==>
      |Base64Url.Values(PayloadOf(TrimEnd(TrimStart(link))))| < 2
    ensures DecodeVpnLinkBytes(link).Some? ==>
      DecodeVpnLinkBytes(link).value == FromBase64(PayloadOf(TrimEnd(TrimStart(link))))
  {
    ValuesSame(PayloadOf(TrimEnd(TrimStart(link))));
  }

  // The bytes are the same with blanks around the link, and with the scheme in
  // whatever case, or left out.
  lemma PastedLinkReads(pre: string, q: string, payload: string, post: string)
    requires Blank(pre) && Blank(post) && (q == "" || SpellsScheme(q))
    requires payload != "" && !IsSpace(payload[0]) && !IsSpace(payload[|payload| - 1]) && !HasScheme(payload)
    ensures DecodeVpnLinkBytes(pre + (q + payload) + post) == DecodeVpnLinkBytes("vpn://" + payload)
  {
    PayloadWithin(pre, q, payload, post);
    PayloadWithin("", "vpn://", payload, "");
    assert "" + ("vpn://" + payload) + "" == "vpn://" + payload;
    SamePayload(pre + (q + payload) + post, "vpn://" + payload);
  }

  lemma SamePayload(link: string, other: string)
    requires PayloadOf(TrimEnd(TrimStart(link))) == PayloadOf(TrimEnd(TrimStart(other)))
    ensures DecodeVpnLinkBytes(link) == DecodeVpnLinkBytes(other)
  {}

  lemma PayloadWithin(pre: string, q: string, payload: string, post: string)
    requires Blank(pre) && Blank(post) && (q == "" || SpellsScheme(q))
    requires payload != "" && !IsSpace(payload[0]) && !IsSpace(payload[|payload| - 1]) && !HasScheme(payload)
    ensures PayloadOf(TrimEnd(TrimStart(pre + (q + payload) + post))) == payload
  {
    var s := q + payload;
    assert s[|s| - 1] == payload[|payload| - 1] && s[0] == if q == "" then payload[0] else q[0];
    TrimsTo(pre, s, post);
    PayloadAfter(q, payload);
  }

  lemma TrimsTo(pre: string, s: string, post: string)
    requires Blank(pre) && Blank(post) && s != "" && !IsSpace(s[0]) && !IsSpace(s[|s| - 1])
    ensures TrimEnd(TrimStart(pre + s + post)) == s
  {
    assert pre + s + post == pre + (s + post);
    TrimStartBlank(pre, s + post);
    assert TrimStart(s + post) == s + post;
    TrimEndBlank(s, post);
    PlainTrims(s);
  }

  lemma PayloadAfter(q: string, payload: string)
    requires (q == "" || SpellsScheme(q)) && !HasScheme(payload)
    ensures PayloadOf(q + payload) == payload
  {
    var s := q + payload;
    if q == "" {
      assert s == payload;
    } else {
      assert q[3] == q[3..][0] && q[4] == q[3..][1] && q[5] == q[3..][2];
      assert forall i :: 0 <= i < 6 ==> s[i] == q[i];
      assert s[6..] == payload;
    }
  }

  // ---- Frames -----------------------------------------------------------------------

  function Frame(count: nat, index: nat, chunk: seq<Byte>): seq<Byte>
    requires count < 256 && index < 256
  {
    BigEndian(2, MAGIC) + [count, index] + BigEndian(4, |chunk|) + chunk
  }

  // The header is written field by field into a buffer.
  method SerializeQrFrame(count: nat, index: nat, chunk: seq<Byte>) returns (frame: seq<Byte>)
    requires count < 256 && index < 256
    ensures frame == Frame(count, index, chunk)
  {
    var header := seq(HEADER_BYTES, _ => 0 as Byte);
    var magic, length := BigEndian(2, MAGIC), BigEndian(4, |chunk|);
    header := header[0 := magic[0]][1 := magic[1]];
    header := header[2 := count];
    header := header[3 := index];
    header := header[4 := length[0]][5 := length[1]][6 := length[2]][7 := length[3]];
    assert header == magic + [count, index] + length;
    frame := header + chunk;
  }

  // The layout, byte by byte: 0x07C0, the count, the index, the length with its
  // highest byte first, the chunk.
  lemma FrameLayout(count: nat, index: nat, chunk: seq<Byte>)
    requires count < 256 && index < 256 && |chunk| < 0x1_0000_0000
    ensures var f := Frame(count, index, chunk);
      && |f| == 8 + |chunk| && f[8..] == chunk
      && f[0] == 7 && f[1] == 0xC0 && f[2] == count && f[3] == index
      && f[4] as int * 0x100_0000 + f[5] as int * 0x1_0000 + f[6] as int * 0x100 + f[7] as int == |chunk|
  {
    var f := Frame(count, index, chunk);
    PowerOf256(2);
    PowerOf256(4);
    BigEndianReadsBack(2, MAGIC);
    BigEndianReadsBack(4, |chunk|);
    HighestFirst(BigEndian(4, |chunk|));
    TwoBytes(BigEndian(2, MAGIC));
    assert f[..2] == BigEndian(2, MAGIC) && f[4..8] == BigEndian(4, |chunk|);
    assert f[0] == f[..2][0] && f[1] == f[..2][1];
    assert f[4] == f[4..8][0] && f[5] == f[4..8][1] && f[6] == f[4..8][2] && f[7] == f[4..8][3];
  }

  lemma HighestFirst(b: seq<nat>)
    requires |b| == 4
    ensures FromDigits(256, b) == b[0] * 0x100_0000 + b[1] * 0x1_0000 + b[2] * 0x100 + b[3]
  {
    assert b[..3][..2] == b[..2] && b[..2][..1] == b[..1] && b[..1][..0] == [];
    assert FromDigits(256, b[..1]) == b[0];
    assert FromDigits(256, b[..2]) == b[0] * 256 + b[1];
    assert FromDigits(256, b[..3]) == (b[0] * 256 + b[1]) * 256 + b[2];
  }

  lemma TwoBytes(b: seq<nat>)
    requires |b| == 2 && b[0] < 256 && b[1] < 256 && FromDigits(256, b) == 1984
    ensures b[0] == 7 && b[1] == 0xC0
  {
    assert b[..1][..0] == [] && FromDigits(256, b[..1]) == b[0];
  }

  function Chunks(data: seq<Byte>, size: nat): (chunks: seq<seq<Byte>>)
    requires size > 0
    ensures forall i :: 0 <= i < |chunks| ==> 0 < |chunks[i]| <= size
  {
    if data == [] then [] else if |data| <= size then [data] else [data[..size]] + Chunks(data[size..], size)
  }

  function Concat(chunks: seq<seq<Byte>>): seq<Byte> {
    if chunks == [] then [] else chunks[0] + Concat(chunks[1..])
  }

  lemma {:induction false} ChunksJoin(data: seq<Byte>, size: nat)
    requires size > 0
    ensures Concat(Chunks(data, size)) == data
  {
    if |data| > size {
      ChunksJoin(data[size..], size);
      assert Chunks(data, size)[1..] == Chunks(data[size..], size);
      assert data == data[..size] + data[size..];
    } else if data != [] {
      assert [data][1..] == [];
    }
  }

  lemma CeilStep(n: nat, size: nat)
    requires n > size > 0
    ensures (n + size - 1) / size == (n - size + size - 1) / size + 1
  {
    var q, r := (n - 1) / size, (n - 1) % size;
    DivModUnique(n + size - 1, size, q + 1, r);
  }

  // As many chunks as the rounded-up quotient.
  lemma {:induction false} ChunksCount(data: seq<Byte>, size: nat)
    requires size > 0
    ensures |Chunks(data, size)| == (|data| + size - 1) / size
    decreases |data|
  {
    if data == [] {
      DivModUnique(size - 1, size, 0, size - 1);
    } else if |data| <= size {
      DivModUnique(|data| + size - 1, size, 1, |data| - 1);
    } else {
      ChunksCount(data[size..], size);
      CeilStep(|data|, size);
    }
  }

  function Text(chunks: seq<seq<Byte>>, i: nat): string
    requires i < |chunks| <= MAX_FRAMES
  {
    ToBase64Url(Frame(|chunks|, i, chunks[i]))
  }

  function Texts(chunks: seq<seq<Byte>>): seq<string>
    requires |chunks| <= MAX_FRAMES
  {
    seq(|chunks|, i requires 0 <= i < |chunks| => Text(chunks, i))
  }

  // None: no payload, a zero chunk size, too many frames, or a chunk longer than
  // its four length bytes can say.
  function QrFrameTexts(link: string, chunkBytes: nat): Option<seq<string>> {
    var data := DecodeVpnLinkBytes(link);
    if data.None? || chunkBytes == 0 then None
    else
      var chunks := Chunks(data.value, chunkBytes);
      if |chunks| > MAX_FRAMES || exists i :: 0 <= i < |chunks| && |chunks[i]| >= WORD then None
      else Some(Texts(chunks))
  }

  method BuildQrFrameTexts(link: string, chunkBytes: nat := CHUNK_BYTES) returns (r: Option<seq<string>>)
    ensures r == QrFrameTexts(link, chunkBytes)
  {
    var decoded := DecodeVpnLinkBytes(link);
    if decoded.None? || chunkBytes == 0 {
      return None;
    }
    ChunksCount(decoded.value, chunkBytes);
    var chunksCount := (|decoded.value| + chunkBytes - 1) / chunkBytes;
    if chunksCount > MAX_FRAMES {
      return None;
    }
    r := FrameChunks(decoded.value, chunkBytes, chunksCount);
  }

  method FrameChunks(data: seq<Byte>, chunkBytes: nat, chunksCount: nat) returns (r: Option<seq<string>>)
    requires chunkBytes > 0 && chunksCount == |Chunks(data, chunkBytes)| <= MAX_FRAMES
    ensures var chunks := Chunks(data, chunkBytes);
      r == if exists i :: 0 <= i < |chunks| && |chunks[i]| >= WORD then None else Some(Texts(chunks))
  {
    ghost var chunks := Chunks(data, chunkBytes);
    assert data[0..] == data;
    var frames: seq<string>, offset := [], 0;
    while offset < |data|
      invariant Progress(chunks, frames, data, chunkBytes, offset)
      decreases |data| - offset
    {
      NextChunk(chunks, frames, data, chunkBytes, offset);
      var chunkIndex := offset / chunkBytes;
      var chunk := data[offset..if offset + chunkBytes <= |data| then offset + chunkBytes else |data|];
      if |chunk| >= WORD {
        return None;
      }
      var frame := SerializeQrFrame(chunksCount, chunkIndex, chunk);
      frames := frames + [ToBase64Url(frame)];
      offset := offset + chunkBytes;
    }
    AllWritten(chunks, frames, data, chunkBytes, offset);
    r := Some(frames);
  }

  // The frames so far are those of the first chunks.
  ghost predicate Written(chunks: seq<seq<Byte>>, frames: seq<string>) {
    |frames| <= |chunks| <= MAX_FRAMES && forall i :: 0 <= i < |frames| ==> frames[i] == Text(chunks, i)
  }

  lemma WrittenOneMore(chunks: seq<seq<Byte>>, frames: seq<string>)
    requires Written(chunks, frames) && |frames| < |chunks|
    ensures Written(chunks, frames + [ToBase64Url(Frame(|chunks|, |frames|, chunks[|frames|]))])
  {
    assert Text(chunks, |frames|) == ToBase64Url(Frame(|chunks|, |frames|, chunks[|frames|]));
  }

  function Rest(data: seq<Byte>, size: nat, offset: nat): seq<seq<Byte>>
    requires size > 0
  {
    if offset < |data| then Chunks(data[offset..], size) else []
  }

  // After some frames the offset stands at the next chunk.
  ghost predicate Progress(chunks: seq<seq<Byte>>, frames: seq<string>, data: seq<Byte>, size: nat, offset: nat)
    requires size > 0
  {
    && Written(chunks, frames) && offset == |frames| * size
    && chunks[|frames|..] == Rest(data, size, offset)
    && forall i :: 0 <= i < |frames| ==> |chunks[i]| < WORD
  }

  lemma RestStep(data: seq<Byte>, size: nat, offset: nat)
    requires size > 0 && offset < |data|
    ensures Rest(data, size, offset) ==
      [data[offset..if offset + size <= |data| then offset + size else |data|]] + Rest(data, size, offset + size)
  {
    var rest := data[offset..];
    if |rest| > size {
      assert rest[..size] == data[offset..offset + size] && rest[size..] == data[offset + size..];
    } else {
      assert rest == data[offset..|data|];
    }
  }

  lemma NextOffset(k: nat, size: nat)
    requires size > 0
    ensures k * size / size == k && k * size + size == (k + 1) * size
  {
    DivModUnique(k * size, size, k, 0);
  }

  // One turn of the loop.
  lemma NextChunk(chunks: seq<seq<Byte>>, frames: seq<string>, data: seq<Byte>, size: nat, offset: nat)
    requires size > 0 && offset < |data| && Progress(chunks, frames, data, size, offset)
    ensures |frames| < |chunks| && offset / size == |frames|
    ensures chunks[|frames|] == data[offset..if offset + size <= |data| then offset + size else |data|]
    ensures |chunks[|frames|]| < WORD ==>
      Progress(chunks, frames + [ToBase64Url(Frame(|chunks|, |frames|, chunks[|frames|]))], data, size, offset + size)
  {
    var k := |frames|;
    NextOffset(k, size);
    RestStep(data, size, offset);
    assert chunks[k..][0] == chunks[k] && chunks[k..][1..] == chunks[k + 1..];
    WrittenOneMore(chunks, frames);
  }

  lemma AllWritten(chunks: seq<seq<Byte>>, frames: seq<string>, data: seq<Byte>, size: nat, offset: nat)
    requires size > 0 && offset >= |data| && Progress(chunks, frames, data, size, offset)
    ensures frames == Texts(chunks) && forall i :: 0 <= i < |chunks| ==> |chunks[i]| < WORD
  {
    assert |chunks[|frames|..]| == 0;
  }

  // When a link gets its frames: it carries bytes, the chunk size is positive, 255
  // chunks of it are enough, and no chunk is too long for its length field.
  lemma FramesIff(link: string, chunkBytes: nat)
    ensures QrFrameTexts(link, chunkBytes).Some? <==>
      && DecodeVpnLinkBytes(link).Some? && chunkBytes > 0
      && |DecodeVpnLinkBytes(link).value| <= 255 * chunkBytes
      && (chunkBytes < 0x1_0000_0000 || |DecodeVpnLinkBytes(link).value| < 0x1_0000_0000)
  {
    if DecodeVpnLinkBytes(link).Some? && chunkBytes > 0 {
      var data := DecodeVpnLinkBytes(link).value;
      ChunksCount(data, chunkBytes);
      EnoughChunks(|data|, chunkBytes, 255);
      FirstChunkIsLongest(data, chunkBytes);
    }
  }

  lemma EnoughChunks(n: nat, size: nat, limit: nat)
    requires size > 0
    ensures (n + size - 1) / size <= limit <==> n <= limit * size
  {
    var q, r := (n + size - 1) / size, (n + size - 1) % size;
    assert n + size - 1 == q * size + r;
    if q <= limit {
      MulGe(limit - q, size);
      assert (limit - q) * size == limit * size - q * size;
    } else {
      MulGe(q - limit - 1, size);
      assert (q - limit - 1) * size == q * size - limit * size - size;
    }
  }

  lemma FirstChunkIsLongest(data: seq<Byte>, size: nat)
    requires size > 0
    ensures forall i :: 0 <= i < |Chunks(data, size)| ==> |Chunks(data, size)[i]| <= |data|
    ensures data != [] ==> |Chunks(data, size)| > 0 && |Chunks(data, size)[0]| == if |data| <= size then |data| else size
    decreases |data|
  {
    if |data| > size {
      FirstChunkIsLongest(data[size..], size);
    }
  }

  // A link made from a payload gets its frames at every positive chunk size that
  // is large enough.
  lemma LinkGetsFrames(raw: seq<Byte>, deflate: seq<Byte> -> seq<Byte>, chunkBytes: nat)
    requires |raw| < WORD && 0 < chunkBytes < WORD && 4 + |deflate(raw)| <= 255 * chunkBytes
    ensures QrFrameTexts(EncodeVpnPayload(raw, deflate).value, chunkBytes).Some?
  {
    LinkBytesReadBack(raw, deflate);
    FramesIff(EncodeVpnPayload(raw, deflate).value, chunkBytes);
  }

  // ---- The scanner's side ---------------------------------------------------------------

  datatype Scanned = Scanned(count: nat, index: nat, chunk: seq<Byte>)

  // What a scanner accepts: the magic number and a chunk of the announced length.
  function ScanFrame(text: string): Option<Scanned> {
    var frame := FromBase64(text);
    if |frame| < HEADER_BYTES || Number(frame[..2]) != MAGIC || |frame| != HEADER_BYTES + Number(frame[4..8]) then None
    else Some(Scanned(frame[2], frame[3], frame[8..]))
  }

  lemma FrameScansBack(count: nat, index: nat, chunk: seq<Byte>)
    requires count < 256 && index < 256 && |chunk| < WORD
    ensures ScanFrame(ToBase64Url(Frame(count, index, chunk))) == Some(Scanned(count, index, chunk))
  {
    var frame := Frame(count, index, chunk);
    Base64UrlRoundTrip(frame);
    PowerOf256(2);
    PowerOf256(4);
    BigEndianReadsBack(2, MAGIC);
    BigEndianReadsBack(4, |chunk|);
    assert frame[..2] == BigEndian(2, MAGIC) && frame[4..8] == BigEndian(4, |chunk|);
    assert frame[2] == count && frame[3] == index && frame[8..] == chunk;
  }

  // The chunks by index, from the frames scanned so far.
  function Collect(texts: seq<string>): map<nat, seq<Byte>>
    decreases |texts|
  {
    if texts == [] then map[]
    else
      var got := Collect(texts[..|texts| - 1]);
      match ScanFrame(texts[|texts| - 1])
      case None => got
      case Some(f) => got[f.index := f.chunk]
  }

  function InSequence(got: map<nat, seq<Byte>>, n: nat): seq<Byte> {
    if n == 0 then [] else InSequence(got, n - 1) + if n - 1 in got then got[n - 1] else []
  }

  // Complete once every index below the announced count has been scanned.
  function Assemble(got: map<nat, seq<Byte>>, count: nat): Option<seq<Byte>> {
    if forall i :: 0 <= i < count ==> i in got then Some(InSequence(got, count)) else None
  }

  function Reassemble(texts: seq<string>): Option<seq<Byte>> {
    if texts == [] || ScanFrame(texts[0]).None? then None
    else Assemble(Collect(texts), ScanFrame(texts[0]).value.count)
  }

  lemma CollectOneMore(chunks: seq<seq<Byte>>, arrived: seq<string>) returns (k: nat)
    requires |chunks| <= MAX_FRAMES && (forall i :: 0 <= i < |chunks| ==> |chunks[i]| < WORD)
    requires arrived != [] && arrived[|arrived| - 1] in Texts(chunks)
    ensures k < |chunks| && Collect(arrived) == Collect(arrived[..|arrived| - 1])[k := chunks[k]]
    ensures forall i: nat :: i < |chunks| ==> (Text(chunks, i) == arrived[|arrived| - 1] <==> i == k)
  {
    k :| 0 <= k < |chunks| && Texts(chunks)[k] == arrived[|arrived| - 1];
    FrameScansBack(|chunks|, k, chunks[k]);
    forall i: nat | i < |chunks| ensures Text(chunks, i) == arrived[|arrived| - 1] <==> i == k {
      FrameScansBack(|chunks|, i, chunks[i]);
    }
  }

  // Whatever arrives among the frames of a link, each index holds its own chunk.
  lemma {:induction false} CollectedAreChunks(chunks: seq<seq<Byte>>, arrived: seq<string>)
    requires |chunks| <= MAX_FRAMES && forall i :: 0 <= i < |chunks| ==> |chunks[i]| < WORD
    requires forall t :: t in arrived ==> t in Texts(chunks)
    ensures forall i: nat :: i in Collect(arrived) <==> i < |chunks| && Text(chunks, i) in arrived
    ensures forall i: nat :: i in Collect(arrived) ==> Collect(arrived)[i] == chunks[i]
    decreases |arrived|
  {
    if arrived != [] {
      var init, last := arrived[..|arrived| - 1], arrived[|arrived| - 1];
      CollectedAreChunks(chunks, init);
      assert arrived == init + [last] && last in arrived;
      var k := CollectOneMore(chunks, arrived);
      forall i: nat | i < |chunks| ensures Text(chunks, i) in arrived <==> i == k || Text(chunks, i) in init {}
    }
  }

  lemma {:induction false} InSequenceIsConcat(chunks: seq<seq<Byte>>, got: map<nat, seq<Byte>>, n: nat)
    requires n <= |chunks| && forall i :: 0 <= i < |chunks| ==> i in got && got[i] == chunks[i]
    ensures InSequence(got, n) == Concat(chunks[..n])
  {
    if n > 0 {
      InSequenceIsConcat(chunks, got, n - 1);
      ConcatLast(chunks[..n]);
      assert chunks[..n][..n - 1] == chunks[..n - 1];
    } else {
      assert chunks[..0] == [];
    }
  }

  lemma {:induction false} ConcatAppend(chunks: seq<seq<Byte>>, last: seq<Byte>)
    ensures Concat(chunks + [last]) == Concat(chunks) + last
    decreases |chunks|
  {
    if chunks == [] {
      assert [last][1..] == [];
    } else {
      ConcatAppend(chunks[1..], last);
      assert (chunks + [last])[1..] == chunks[1..] + [last];
      Associates(chunks[0], Concat(chunks[1..]), last);
    }
  }

  lemma Associates(a: seq<Byte>, b: seq<Byte>, c: seq<Byte>)
    ensures a + (b + c) == (a + b) + c
  {}

  lemma ConcatLast(chunks: seq<seq<Byte>>)
    requires chunks != []
    ensures Concat(chunks) == Concat(chunks[..|chunks| - 1]) + chunks[|chunks| - 1]
  {
    assert chunks == chunks[..|chunks| - 1] + [chunks[|chunks| - 1]];
    ConcatAppend(chunks[..|chunks| - 1], chunks[|chunks| - 1]);
  }

  ghost predicate FramesOf(chunks: seq<seq<Byte>>, arrived: seq<string>) {
    && |chunks| <= MAX_FRAMES && (forall i :: 0 <= i < |chunks| ==> |chunks[i]| < WORD)
    && arrived != [] && forall t :: t in arrived ==> t in Texts(chunks)
  }

  lemma FirstArrival(chunks: seq<seq<Byte>>, arrived: seq<string>)
    requires FramesOf(chunks, arrived)
    ensures ScanFrame(arrived[0]).Some? && ScanFrame(arrived[0]).value.count == |chunks|
  {
    assert arrived[0] in Texts(chunks);
    var k :| 0 <= k < |chunks| && Texts(chunks)[k] == arrived[0];
    FrameScansBack(|chunks|, k, chunks[k]);
  }

  lemma AllArrived(chunks: seq<seq<Byte>>, arrived: seq<string>)
    requires FramesOf(chunks, arrived)
    requires forall i :: 0 <= i < |chunks| ==> Text(chunks, i) in arrived
    ensures Reassemble(arrived) == Some(Concat(chunks))
  {
    CollectedAreChunks(chunks, arrived);
    FirstArrival(chunks, arrived);
    AssembleAll(chunks, Collect(arrived));
  }

  lemma AssembleAll(chunks: seq<seq<Byte>>, got: map<nat, seq<Byte>>)
    requires forall i :: 0 <= i < |chunks| ==> i in got && got[i] == chunks[i]
    ensures Assemble(got, |chunks|) == Some(Concat(chunks))
  {
    InSequenceIsConcat(chunks, got, |chunks|);
    assert chunks[..|chunks|] == chunks;
  }

  lemma OneMissing(chunks: seq<seq<Byte>>, arrived: seq<string>, i: nat)
    requires FramesOf(chunks, arrived) && i < |chunks| && Text(chunks, i) !in arrived
    ensures Reassemble(arrived).None?
  {
    CollectedAreChunks(chunks, arrived);
    FirstArrival(chunks, arrived);
    assert i !in Collect(arrived);
  }

  // Frames arriving in any order, any number of times each: the link's bytes are
  // reassembled exactly when every frame has arrived.
  lemma FramesReassembleIff(link: string, chunkBytes: nat, arrived: seq<string>)
    requires QrFrameTexts(link, chunkBytes).Some? && arrived != []
    requires forall t :: t in arrived ==> t in QrFrameTexts(link, chunkBytes).value
    ensures if forall t :: t in QrFrameTexts(link, chunkBytes).value ==> t in arrived
            then Reassemble(arrived) == DecodeVpnLinkBytes(link)
            else Reassemble(arrived).None?
  {
    var data := DecodeVpnLinkBytes(link).value;
    var chunks := Chunks(data, chunkBytes);
    ChunksJoin(data, chunkBytes);
    assert forall i :: 0 <= i < |chunks| ==> Texts(chunks)[i] == Text(chunks, i);
    if forall t :: t in Texts(chunks) ==> t in arrived {
      forall i | 0 <= i < |chunks| ensures Text(chunks, i) in arrived {
        assert Texts(chunks)[i] in Texts(chunks);
      }
      AllArrived(chunks, arrived);
    } else {
      var t :| t in Texts(chunks) && t !in arrived;
      var i :| 0 <= i < |chunks| && Texts(chunks)[i] == t;
      OneMissing(chunks, arrived, i);
    }
  }

  // Each index is on exactly one frame, and count and index fit their byte.
  lemma FramesAreIndexed(link: string, chunkBytes: nat, i: nat)
    requires QrFrameTexts(link, chunkBytes).Some? && i < |QrFrameTexts(link, chunkBytes).value|
    ensures var texts := QrFrameTexts(link, chunkBytes).value;
      && 0 < |texts| <= MAX_FRAMES && ScanFrame(texts[i]).Some?
      && ScanFrame(texts[i]).value.count == |texts| && ScanFrame(texts[i]).value.index == i
  {
    var chunks := Chunks(DecodeVpnLinkBytes(link).value, chunkBytes);
    FrameScansBack(|chunks|, i, chunks[i]);
  }

  // From payload to payload through the codes: the frames of a link, scanned in
  // any order, inflate to what the link was made from.
  lemma ScannedLinkCarriesPayload(raw: seq<Byte>, chunkBytes: nat, arrived: seq<string>,
                                  deflate: seq<Byte> -> seq<Byte>, inflate: seq<Byte> -> Option<seq<Byte>>)
    requires InversePair(deflate, inflate) && |raw| < WORD && arrived != []
    requires QrFrameTexts(EncodeVpnPayload(raw, deflate).value, chunkBytes).Some?
    requires forall t :: t in arrived <==> t in QrFrameTexts(EncodeVpnPayload(raw, deflate).value, chunkBytes).value
    ensures Reassemble(arrived).Some? && |Reassemble(arrived).value| > 4
    ensures Number(Reassemble(arrived).value[..4]) == |raw|
    ensures inflate(Reassemble(arrived).value[4..]) == Some(raw)
  {
    var link := EncodeVpnPayload(raw, deflate).value;
    FramesReassembleIff(link, chunkBytes, arrived);
    LinkBytesReadBack(raw, deflate);
    PowerOf256(4);
    BigEndianReadsBack(4, |raw|);
    var bytes := BigEndian(4, |raw|) + deflate(raw);
    assert bytes[..4] == BigEndian(4, |raw|) && bytes[4..] == deflate(raw);
    assert |deflate(raw)| > 0 && inflate(deflate(raw)) == Some(raw);
  }
}

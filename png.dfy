/** The PNG half of png-tavern-parser.ts: the signature check, the chunk walk, and the decoding
    of the three textual chunk kinds (tEXt, zTXt, iTXt) into keyword/text entries.

    The UTF-8 decoder and the deflate decompressor are parameters (`Decoders`). A chunk type
    is compared by its four bytes: the source decodes them as UTF-8 and compares the result with
    an ASCII name, and four bytes decode to those four ASCII characters exactly when they are
    the characters' own bytes (a byte outside ASCII never decodes to an ASCII character). */
module PngText {
  import opened Wrappers
  import opened ImportErrors

  type byte = x: int | 0 <= x < 256
  type Bytes = seq<byte>

  const Signature: Bytes := [137, 80, 78, 71, 13, 10, 26, 10]
  /** "tEXt" */
  const TextTag: Bytes := [116, 69, 88, 116]
  /** "zTXt" */
  const ZTextTag: Bytes := [122, 84, 88, 116]
  /** "iTXt" */
  const ITextTag: Bytes := [105, 84, 88, 116]
  /** "IEND" */
  const EndTag: Bytes := [73, 69, 78, 68]

  const Two32: nat := 0x1_0000_0000

  /** The two byte-level primitives the parser is given: `TextDecoder.decode` and the
      `DecompressionStream('deflate')` round trip, which may reject its input. */
  datatype Decoders = Decoders(utf8: Bytes -> string, inflate: Bytes -> Result<Bytes, string>)

  datatype TextEntry = TextEntry(keyword: string, text: string)

  // ---- big-endian lengths ----

  /** `DataView.getUint32(offset, false)` */
  function ReadU32BE(buf: Bytes, offset: nat): (n: nat)
    requires offset + 4 <= |buf|
    ensures n < Two32
  {
    ((buf[offset] as int * 0x100 + buf[offset + 1]) * 0x100 + buf[offset + 2]) * 0x100 + buf[offset + 3]
  }

  /** The four bytes a writer puts in front of a chunk of n data bytes. */
  function EncodeU32BE(n: nat): (b: Bytes)
    requires n < Two32
    ensures |b| == 4
  {
    [n / 0x100 / 0x100 / 0x100, n / 0x100 / 0x100 % 0x100, n / 0x100 % 0x100, n % 0x100]
  }

  lemma {:induction false} ReadEncodeU32(n: nat)
    requires n < Two32
    ensures ReadU32BE(EncodeU32BE(n), 0) == n
  {
    var b := EncodeU32BE(n);
    Split256(n / 0x100 / 0x100);
    Split256(n / 0x100);
    Split256(n);
    assert (b[0] as int * 0x100 + b[1]) * 0x100 + b[2] == n / 0x100;
  }

  lemma {:induction false} EncodeReadU32(buf: Bytes, offset: nat)
    requires offset + 4 <= |buf|
    ensures EncodeU32BE(ReadU32BE(buf, offset)) == buf[offset..offset + 4]
  {
    var hi := buf[offset] as int * 0x100 + buf[offset + 1];
    var mid := hi * 0x100 + buf[offset + 2];
    var n := ReadU32BE(buf, offset);
    Join256(mid, buf[offset + 3]);
    Join256(hi, buf[offset + 2]);
    Join256(buf[offset], buf[offset + 1]);
  }

  lemma Split256(n: nat)
    ensures n == n / 0x100 * 0x100 + n % 0x100
  {
  }

  lemma Join256(hi: nat, lo: nat)
    requires lo < 0x100
    ensures (hi * 0x100 + lo) / 0x100 == hi && (hi * 0x100 + lo) % 0x100 == lo
  {
  }

  // ---- the signature ----

  /** `isPngSignature`: reading an eight-byte view of a shorter buffer throws a RangeError;
      otherwise the answer is whether the first eight bytes are the PNG signature. */
  function IsPngSignature(buf: Bytes): (r: Result<bool, Error>)
    ensures r.Failure? <==> |buf| < 8
    ensures r.Failure? ==> r.error == RangeError
    ensures r == Success(true) <==> 8 <= |buf| && buf[..8] == Signature
  {
    if |buf| < 8 then Failure(RangeError) else Success(buf[..8] == Signature)
  }

  // ---- the chunk walk ----

  /** A chunk as the walk sees it: its type bytes and its data. The CRC is never read. */
  datatype Chunk = Chunk(tag: Bytes, data: Bytes)

  /** A whole chunk header and its whole data start at offset: the loop goes on
      (`offset + 12 <= length`) and does not break on an overlong length. */
  predicate Framed(buf: Bytes, offset: nat) {
    offset + 12 <= |buf| && offset + 8 + ReadU32BE(buf, offset) <= |buf|
  }

  function ChunkAt(buf: Bytes, offset: nat): (c: Chunk)
    requires Framed(buf, offset)
    ensures |c.tag| == 4
    ensures |c.data| == ReadU32BE(buf, offset) && offset + 8 + |c.data| <= |buf|
  {
    Chunk(buf[offset + 4..offset + 8], buf[offset + 8..offset + 8 + ReadU32BE(buf, offset)])
  }

  /** Past the data and the four CRC bytes. */
  function NextOffset(buf: Bytes, offset: nat): (next: nat)
    requires Framed(buf, offset)
    ensures next == offset + 12 + |ChunkAt(buf, offset).data|
  {
    offset + 8 + ReadU32BE(buf, offset) + 4
  }

  /** The chunks the walk visits from offset: each framed chunk in turn, up to and including the
      first IEND; a truncated header or an overlong length ends the walk. */
  function Chunks(buf: Bytes, offset: nat): (cs: seq<Chunk>)
    decreases |buf| - offset
  {
    if !Framed(buf, offset) then []
    else if ChunkAt(buf, offset).tag == EndTag then [ChunkAt(buf, offset)]
    else [ChunkAt(buf, offset)] + Chunks(buf, NextOffset(buf, offset))
  }

  /** The walk stops at the first IEND: no chunk but the last one it visits is IEND. */
  lemma {:induction false} EndOnlyLast(buf: Bytes, offset: nat, i: nat)
    requires i + 1 < |Chunks(buf, offset)|
    ensures Chunks(buf, offset)[i].tag != EndTag
    decreases |buf| - offset
  {
    var rest := Chunks(buf, NextOffset(buf, offset));
    assert Chunks(buf, offset) == [ChunkAt(buf, offset)] + rest;
    if i > 0 {
      EndOnlyLast(buf, NextOffset(buf, offset), i - 1);
    }
  }

  // ---- the three textual chunk kinds ----

  /** `data.indexOf(x)`: the first position holding x. */
  function IndexOf(s: Bytes, x: byte): (r: Option<nat>)
    ensures r.Some? ==> r.value < |s| && s[r.value] == x && x !in s[..r.value]
    ensures r.None? <==> x !in s
  {
    if s == [] then None
    else if s[0] == x then Some(0)
    else match IndexOf(s[1..], x)
      case None => None
      case Some(i) =>
        assert s[..i + 1] == [s[0]] + s[1..][..i];
        Some(i + 1)
  }

  /** tEXt: the keyword up to the first NUL and the text after it; without a NUL, nothing. */
  function DecodeText(data: Bytes, dec: Decoders): (r: Option<TextEntry>)
    ensures r.Some? ==> exists nul :: (0 <= nul < |data| && data[nul] == 0 && 0 !in data[..nul]
      && r.value == TextEntry(dec.utf8(data[..nul]), dec.utf8(data[nul + 1..])))
  {
    match IndexOf(data, 0)
    case None => None
    case Some(nul) => Some(TextEntry(dec.utf8(data[..nul]), dec.utf8(data[nul + 1..])))
  }

  /** zTXt: a keyword, a NUL, a method byte and at least one compressed byte. Method 0 is
      inflated; any other method yields nothing; a rejected stream fails the whole walk. */
  function DecodeZText(data: Bytes, dec: Decoders): (r: Result<Option<TextEntry>, Error>)
    ensures r.Failure? ==> r.error.InflateFailed?
    ensures r != Success(None) <==>
      IndexOf(data, 0).Some? && |data| > IndexOf(data, 0).value + 2 && data[IndexOf(data, 0).value + 1] == 0
  {
    match IndexOf(data, 0)
    case None => Success(None)
    case Some(nul) =>
      if |data| <= nul + 2 || data[nul + 1] != 0 then Success(None)
      else match dec.inflate(data[nul + 2..])
        case Failure(reason) => Failure(InflateFailed(reason))
        case Success(inflated) => Success(Some(TextEntry(dec.utf8(data[..nul]), dec.utf8(inflated))))
  }

  /** Where the `readStr` scan from p stops: the first NUL at or after p, the end of the data
      when there is none, and p itself when p is already past the end. */
  function NulFrom(data: Bytes, p: nat): (q: nat)
    ensures p <= q
    ensures p <= |data| ==> q <= |data|
    ensures q < |data| ==> data[q] == 0
    decreases |data| - p
  {
    if p < |data| && data[p] != 0 then NulFrom(data, p + 1) else p
  }

  /** The scan from the start passes over no NUL. */
  lemma NulFreeScan(data: Bytes)
    ensures 0 !in data[..NulFrom(data, 0)]
  {
    forall i | 0 <= i < NulFrom(data, 0)
      ensures data[i] != 0
    {
      NulFromIsFirst(data, 0, i);
    }
  }

  /** With no NUL at or after p, the scan runs to the end (or stays at p, when past it). */
  lemma {:induction false} ScanToEnd(data: Bytes, p: nat)
    requires forall i :: p <= i < |data| ==> data[i] != 0
    ensures NulFrom(data, p) == if p <= |data| then |data| else p
    decreases |data| - p
  {
    if p < |data| {
      ScanToEnd(data, p + 1);
    }
  }

  /** No NUL lies between p and where the scan stops. */
  lemma {:induction false} NulFromIsFirst(data: Bytes, p: nat, i: nat)
    requires p <= i < NulFrom(data, p)
    ensures i < |data| && data[i] != 0
    decreases |data| - p
  {
    if i > p {
      NulFromIsFirst(data, p + 1, i);
    }
  }

  function Min(a: nat, b: nat): nat {
    if a <= b then a else b
  }

  /** `data.subarray(from, to)`: both ends are clamped to the length, and a range that ends
      before it starts is empty. */
  function Sub(data: Bytes, from: nat, to: nat): (r: Bytes)
    ensures from <= to <= |data| ==> r == data[from..to]
    ensures |data| <= from ==> r == []
  {
    if Min(from, |data|) <= Min(to, |data|) then data[Min(from, |data|)..Min(to, |data|)] else []
  }

  /** `data[p]`: None is `undefined`, read past the end. */
  function ByteAt(data: Bytes, p: nat): (r: Option<byte>)
    ensures r.Some? <==> p < |data|
  {
    if p < |data| then Some(data[p]) else None
  }

  /** iTXt: a keyword, the compression flag and method bytes, a language tag and a translated
      keyword (each NUL-terminated), then the text. The text is inflated when the flag is 1
      and the method 0, and taken as it is otherwise. A missing terminator is not an error: the
      field runs to the end and every later field is empty. */
  function DecodeIText(data: Bytes, dec: Decoders): (r: Result<TextEntry, Error>)
    ensures r.Success? ==> r.value.keyword == dec.utf8(data[..NulFrom(data, 0)])
    ensures r.Failure? ==>
      r.error.InflateFailed? && ITextLayout(data).flag == Some(1) && ITextLayout(data).compMethod == Some(0)
  {
    var fields := ITextLayout(data);
    ITextEntry(dec.utf8(fields.keyword), fields.flag, fields.compMethod, fields.remaining, dec)
  }

  /** The raw fields of an iTXt chunk: the keyword bytes, the flag and method bytes (None past
      the end), and the bytes after the translated keyword's NUL. */
  datatype ITextFields = ITextFields(keyword: Bytes, flag: Option<byte>, compMethod: Option<byte>, remaining: Bytes)

  /** The three `readStr` scans: the language tag starts three bytes after the keyword's NUL,
      past the flag and method bytes. */
  function ITextLayout(data: Bytes): (r: ITextFields)
    ensures |r.keyword| <= |data| && r.keyword == data[..|r.keyword|] && 0 !in r.keyword
    ensures |r.keyword| < |data| ==> data[|r.keyword|] == 0
  {
    NulFreeScan(data);
    var keywordEnd := NulFrom(data, 0);
    var languageEnd := NulFrom(data, keywordEnd + 3);
    var translatedEnd := NulFrom(data, languageEnd + 1);
    ITextFields(Sub(data, 0, keywordEnd), ByteAt(data, keywordEnd + 1), ByteAt(data, keywordEnd + 2),
                Sub(data, translatedEnd + 1, |data|))
  }

  /** The entry of an iTXt chunk from its keyword, its flag and method bytes and the bytes after
      its last field. */
  function ITextEntry(keyword: string, flag: Option<byte>, compMethod: Option<byte>, remaining: Bytes,
                      dec: Decoders): (r: Result<TextEntry, Error>)
    ensures r.Failure? <==> flag == Some(1) && compMethod == Some(0) && dec.inflate(remaining).Failure?
    ensures r.Failure? ==> r.error == InflateFailed(dec.inflate(remaining).error)
    ensures r.Success? ==> r.value.keyword == keyword
    ensures r.Success? && flag == Some(1) && compMethod == Some(0) ==>
      r.value.text == dec.utf8(dec.inflate(remaining).value)
    ensures !(flag == Some(1) && compMethod == Some(0)) ==> r == Success(TextEntry(keyword, dec.utf8(remaining)))
  {
    if flag == Some(1) && compMethod == Some(0) then
      match dec.inflate(remaining)
      case Failure(reason) => Failure(InflateFailed(reason))
      case Success(inflated) => Success(TextEntry(keyword, dec.utf8(inflated)))
    else
      Success(TextEntry(keyword, dec.utf8(remaining)))
  }

  /** What one chunk contributes: an entry, nothing, or the failure that ends the walk. */
  function DecodeChunk(c: Chunk, dec: Decoders): (r: Result<Option<TextEntry>, Error>)
    ensures r.Failure? ==> r.error.InflateFailed?
  {
    if c.tag == TextTag then Success(DecodeText(c.data, dec))
    else if c.tag == ZTextTag then DecodeZText(c.data, dec)
    else if c.tag == ITextTag then
      match DecodeIText(c.data, dec)
      case Failure(e) => Failure(e)
      case Success(entry) => Success(Some(entry))
    else Success(None)
  }

  /** The entries of the chunks in order; the first failing chunk fails the whole. */
  function DecodeAll(cs: seq<Chunk>, dec: Decoders): (r: Result<seq<TextEntry>, Error>)
    ensures r.Failure? ==> r.error.InflateFailed?
  {
    if cs == [] then Success([])
    else match DecodeChunk(cs[0], dec)
      case Failure(e) => Failure(e)
      case Success(entry) =>
        match DecodeAll(cs[1..], dec)
        case Failure(e) => Failure(e)
        case Success(rest) => Success(OptionToSeq(entry) + rest)
  }

  function OptionToSeq<T>(o: Option<T>): (s: seq<T>)
    ensures o.None? ==> s == []
    ensures o.Some? ==> s == [o.value]
  {
    if o.Some? then [o.value] else []
  }

  /** `extractPngText`: the signature check, then the entries of the chunks after it. */
  function TextEntries(buf: Bytes, dec: Decoders): (r: Result<seq<TextEntry>, Error>)
    ensures |buf| < 8 ==> r == Failure(RangeError)
    ensures 8 <= |buf| && buf[..8] != Signature ==> r == Failure(NotPng)
    ensures r.Failure? ==> r.error.RangeError? || r.error.NotPng? || r.error.InflateFailed?
  {
    match IsPngSignature(buf)
    case Failure(e) => Failure(e)
    case Success(ok) => if !ok then Failure(NotPng) else DecodeAll(Chunks(buf, 8), dec)
  }

  /** texts in front of the entries of r, or the failure of r. */
  function Then(texts: seq<TextEntry>, r: Result<seq<TextEntry>, Error>): Result<seq<TextEntry>, Error> {
    match r
    case Failure(e) => Failure(e)
    case Success(rest) => Success(texts + rest)
  }

  // ---- the parser's loops ----

  /** `readStr`: scans from p to the next NUL and steps over it. */
  method ReadStr(data: Bytes, p: nat, dec: Decoders) returns (s: string, next: nat)
    ensures next == NulFrom(data, p) + 1
    ensures s == dec.utf8(Sub(data, p, NulFrom(data, p)))
  {
    var q := p;
    while q < |data| && data[q] != 0
      invariant p <= q && NulFrom(data, q) == NulFrom(data, p)
      decreases |data| - q
    {
      q := q + 1;
    }
    s := dec.utf8(Sub(data, p, q));
    next := q + 1;
  }

  /** The iTXt branch of the chunk loop. */
  method ReadITextFields(data: Bytes, dec: Decoders) returns (r: Result<TextEntry, Error>)
    ensures r == DecodeIText(data, dec)
  {
    var keyword, p := ReadStr(data, 0, dec);
    var flag := ByteAt(data, p);
    p := p + 1;
    var compMethod := ByteAt(data, p);
    p := p + 1;
    var _, afterLanguage := ReadStr(data, p, dec);
    var _, afterTranslated := ReadStr(data, afterLanguage, dec);
    var remaining := Sub(data, afterTranslated, |data|);
    ITextFieldsAt(data, NulFrom(data, 0), afterLanguage - 1, afterTranslated - 1);
    if flag == Some(1) && compMethod == Some(0) {
      var inflated := dec.inflate(remaining);
      if inflated.Failure? {
        return Failure(InflateFailed(inflated.error));
      }
      r := Success(TextEntry(keyword, dec.utf8(inflated.value)));
    } else {
      r := Success(TextEntry(keyword, dec.utf8(remaining)));
    }
  }

  /** The branch of the chunk loop for one chunk: tEXt and zTXt are decoded in place, iTXt
      by `ReadITextFields`, and every other type is passed over. */
  method DecodeChunkData(tag: Bytes, data: Bytes, dec: Decoders) returns (r: Result<Option<TextEntry>, Error>)
    ensures r == DecodeChunk(Chunk(tag, data), dec)
  {
    if tag == TextTag {
      r := Success(DecodeText(data, dec));
    } else if tag == ZTextTag {
      r := DecodeZText(data, dec);
    } else if tag == ITextTag {
      var entry := ReadITextFields(data, dec);
      if entry.Failure? {
        return Failure(entry.error);
      }
      r := Success(Some(entry.value));
    } else {
      r := Success(None);
    }
  }

  /** `extractPngText`: walks the chunks after the signature, collecting the text entries. */
  method ExtractPngText(buf: Bytes, dec: Decoders) returns (r: Result<seq<TextEntry>, Error>)
    ensures r == TextEntries(buf, dec)
  {
    if |buf| < 8 {
      return Failure(RangeError);
    }
    if buf[..8] != Signature {
      return Failure(NotPng);
    }
    var texts: seq<TextEntry> := [];
    var offset: nat := 8;
    ghost var ended := false;
    assert Then(texts, DecodeAll(Chunks(buf, offset), dec)) == TextEntries(buf, dec) by {
      match DecodeAll(Chunks(buf, offset), dec)
      case Failure(_) =>
      case Success(rest) => assert texts + rest == rest;
    }
    while offset + 12 <= |buf|
      invariant !ended
      invariant Then(texts, DecodeAll(Chunks(buf, offset), dec)) == TextEntries(buf, dec)
      decreases |buf| - offset
    {
      var length := ReadU32BE(buf, offset);
      var tag := buf[offset + 4..offset + 8];
      var dataEnd := offset + 8 + length;
      if dataEnd > |buf| {
        WalkStops(buf, offset, texts, dec);
        break;
      }
      var data := buf[offset + 8..dataEnd];
      assert ChunkAt(buf, offset) == Chunk(tag, data);
      var entry := DecodeChunkData(tag, data, dec);
      if entry.Failure? {
        WalkFails(buf, offset, texts, dec);
        return Failure(entry.error);
      }
      WalkAdvances(buf, offset, texts, dec);
      assert entry == DecodeChunk(ChunkAt(buf, offset), dec);
      assert NextOffset(buf, offset) == dataEnd + 4;
      texts := texts + OptionToSeq(entry.value);
      offset := dataEnd + 4;
      if tag == EndTag {
        ended := true;
        break;
      }
    }
    if !ended {
      WalkStops(buf, offset, texts, dec);
    }
    r := Success(texts);
  }

  /** Where no chunk is framed the walk ends with the entries collected so far. */
  lemma WalkStops(buf: Bytes, offset: nat, texts: seq<TextEntry>, dec: Decoders)
    requires !Framed(buf, offset)
    ensures Then(texts, DecodeAll(Chunks(buf, offset), dec)) == Success(texts)
  {
    ThenNothing(texts);
  }

  /** A chunk that fails to decode fails the walk. */
  lemma WalkFails(buf: Bytes, offset: nat, texts: seq<TextEntry>, dec: Decoders)
    requires Framed(buf, offset) && DecodeChunk(ChunkAt(buf, offset), dec).Failure?
    ensures Then(texts, DecodeAll(Chunks(buf, offset), dec)) == Failure(DecodeChunk(ChunkAt(buf, offset), dec).error)
  {
    WalkStep(buf, offset, dec);
  }

  /** A chunk that decodes adds its entry, if any, and the walk goes on past it unless it is
      IEND. */
  lemma WalkAdvances(buf: Bytes, offset: nat, texts: seq<TextEntry>, dec: Decoders)
    requires Framed(buf, offset) && DecodeChunk(ChunkAt(buf, offset), dec).Success?
    ensures var more := texts + OptionToSeq(DecodeChunk(ChunkAt(buf, offset), dec).value);
      Then(texts, DecodeAll(Chunks(buf, offset), dec)) ==
        if ChunkAt(buf, offset).tag == EndTag then Success(more)
        else Then(more, DecodeAll(Chunks(buf, NextOffset(buf, offset)), dec))
  {
    var found := OptionToSeq(DecodeChunk(ChunkAt(buf, offset), dec).value);
    var later := if ChunkAt(buf, offset).tag == EndTag then Success([])
                 else DecodeAll(Chunks(buf, NextOffset(buf, offset)), dec);
    WalkStep(buf, offset, dec);
    ThenAssoc(texts, found, later);
    ThenNothing(texts + found);
  }

  /** One step of the walk: a framed chunk's entry, then the entries of the chunks after it
      unless it is IEND. */
  lemma WalkStep(buf: Bytes, offset: nat, dec: Decoders)
    requires Framed(buf, offset)
    ensures DecodeChunk(ChunkAt(buf, offset), dec).Failure? ==>
      DecodeAll(Chunks(buf, offset), dec) == Failure(DecodeChunk(ChunkAt(buf, offset), dec).error)
    ensures DecodeChunk(ChunkAt(buf, offset), dec).Success? ==>
      DecodeAll(Chunks(buf, offset), dec) == Then(OptionToSeq(DecodeChunk(ChunkAt(buf, offset), dec).value),
        if ChunkAt(buf, offset).tag == EndTag then Success([]) else DecodeAll(Chunks(buf, NextOffset(buf, offset)), dec))
  {
    var c := ChunkAt(buf, offset);
    var rest := if c.tag == EndTag then [] else Chunks(buf, NextOffset(buf, offset));
    assert Chunks(buf, offset) == [c] + rest;
    DecodeAllCons(c, rest, dec);
  }

  lemma ThenAssoc(a: seq<TextEntry>, b: seq<TextEntry>, r: Result<seq<TextEntry>, Error>)
    ensures Then(a, Then(b, r)) == Then(a + b, r)
  {
    if r.Success? {
      assert a + (b + r.value) == (a + b) + r.value;
    }
  }

  lemma ThenNothing(texts: seq<TextEntry>)
    ensures Then(texts, Success([])) == Success(texts)
  {
    assert texts + [] == texts;
  }

  lemma DecodeAllCons(c: Chunk, rest: seq<Chunk>, dec: Decoders)
    ensures DecodeChunk(c, dec).Failure? ==> DecodeAll([c] + rest, dec) == Failure(DecodeChunk(c, dec).error)
    ensures DecodeChunk(c, dec).Success? ==>
      DecodeAll([c] + rest, dec) == Then(OptionToSeq(DecodeChunk(c, dec).value), DecodeAll(rest, dec))
  {
    assert ([c] + rest)[1..] == rest;
  }

  // ---- what the decoders and the walk promise ----

  /** Any buffer that starts with the signature passes the check. */
  lemma SignatureAccepted(rest: Bytes)
    ensures IsPngSignature(Signature + rest) == Success(true)
  {
    assert (Signature + rest)[..8] == Signature;
  }

  /** A tEXt chunk written as keyword, NUL, text reads back as that keyword and text. */
  lemma {:induction false} TextRoundTrip(keyword: Bytes, text: Bytes, dec: Decoders)
    requires 0 !in keyword
    ensures DecodeText(keyword + [0] + text, dec) == Some(TextEntry(dec.utf8(keyword), dec.utf8(text)))
  {
    var data := keyword + [0] + text;
    assert data == keyword + ([0] + text);
    FirstNulAfter(keyword, [0] + text);
    assert data[..|keyword|] == keyword && data[|keyword| + 1..] == text;
  }

  /** A tEXt chunk yields an entry exactly when its data holds a NUL. */
  lemma TextNeedsNul(data: Bytes, dec: Decoders)
    ensures DecodeText(data, dec).Some? <==> 0 in data
  {
  }

  /** A zTXt chunk written as keyword, NUL, method 0 and a non-empty stream reads back as the
      keyword and the inflated stream, or fails with the decompressor's reason. */
  lemma {:induction false} ZTextRoundTrip(keyword: Bytes, stream: Bytes, dec: Decoders)
    requires 0 !in keyword && stream != []
    ensures dec.inflate(stream).Success? ==>
      DecodeZText(keyword + [0, 0] + stream, dec) == Success(Some(TextEntry(dec.utf8(keyword), dec.utf8(dec.inflate(stream).value))))
    ensures dec.inflate(stream).Failure? ==>
      DecodeZText(keyword + [0, 0] + stream, dec) == Failure(InflateFailed(dec.inflate(stream).error))
  {
    var data := keyword + [0, 0] + stream;
    assert data == keyword + ([0, 0] + stream);
    FirstNulAfter(keyword, [0, 0] + stream);
    assert data[..|keyword|] == keyword && data[|keyword| + 2..] == stream;
  }

  /** A zTXt chunk with a method other than 0, or with no compressed byte, yields nothing and
      never reaches the decompressor. */
  lemma {:induction false} ZTextSkipped(keyword: Bytes, compMethod: byte, stream: Bytes, dec: Decoders)
    requires 0 !in keyword && (compMethod != 0 || stream == [])
    ensures DecodeZText(keyword + [0, compMethod] + stream, dec) == Success(None)
  {
    var data := keyword + [0, compMethod] + stream;
    assert data == keyword + ([0, compMethod] + stream);
    FirstNulAfter(keyword, [0, compMethod] + stream);
  }

  /** The data of an iTXt chunk as a writer lays it out. */
  function ITextData(keyword: Bytes, flag: byte, compMethod: byte, language: Bytes, translated: Bytes,
                     text: Bytes): Bytes {
    keyword + ([0, flag, compMethod] + (language + ([0] + (translated + ([0] + text)))))
  }

  /** An iTXt chunk written field by field reads back as its keyword, its flag and method,
      and its text. */
  lemma ITextRoundTrip(keyword: Bytes, flag: byte, compMethod: byte, language: Bytes,
                       translated: Bytes, text: Bytes, dec: Decoders)
    requires 0 !in keyword && 0 !in language && 0 !in translated
    ensures DecodeIText(ITextData(keyword, flag, compMethod, language, translated, text), dec)
         == ITextEntry(dec.utf8(keyword), Some(flag), Some(compMethod), text, dec)
  {
    ITextLayoutOf(ITextData(keyword, flag, compMethod, language, translated, text),
                  keyword, flag, compMethod, language, translated, text);
  }

  /** The three scans over an iTXt chunk written field by field find its fields. */
  lemma ITextLayoutOf(data: Bytes, keyword: Bytes, flag: byte, compMethod: byte, language: Bytes,
                      translated: Bytes, text: Bytes)
    requires data == ITextData(keyword, flag, compMethod, language, translated, text)
    requires 0 !in keyword && 0 !in language && 0 !in translated
    ensures ITextLayout(data) == ITextFields(keyword, Some(flag), Some(compMethod), text)
  {
    var k := |keyword|;
    var l := k + 3 + |language|;
    var t := l + 1 + |translated|;
    ITextHeader(data, keyword, flag, compMethod, language + ([0] + (translated + ([0] + text))));
    ITextTrailer(data, k + 3, l, t, language, translated, text);
    ITextFieldsAt(data, k, l, t);
  }

  /** The keyword field and the two bytes after its NUL. */
  lemma ITextHeader(data: Bytes, keyword: Bytes, flag: byte, compMethod: byte, rest: Bytes)
    requires data == keyword + ([0, flag, compMethod] + rest) && 0 !in keyword
    ensures NulFrom(data, 0) == |keyword| && Sub(data, 0, |keyword|) == keyword
    ensures ByteAt(data, |keyword| + 1) == Some(flag) && ByteAt(data, |keyword| + 2) == Some(compMethod)
    ensures data[|keyword| + 3..] == rest
  {
    assert data[0..] == data;
    SkipField(data, 0, |keyword|, keyword, [0, flag, compMethod] + rest);
    assert data[..|keyword|] == keyword;
  }

  /** The language and translated-keyword fields, then the text. */
  lemma ITextTrailer(data: Bytes, p: nat, l: nat, t: nat, language: Bytes, translated: Bytes, text: Bytes)
    requires p <= |data| && data[p..] == language + ([0] + (translated + ([0] + text)))
    requires 0 !in language && 0 !in translated
    requires l == p + |language| && t == l + 1 + |translated|
    ensures NulFrom(data, p) == l
    ensures NulFrom(data, l + 1) == t
    ensures Sub(data, t + 1, |data|) == text
  {
    var tail := translated + ([0] + text);
    SkipField(data, p, l, language, [0] + tail);
    assert ([0] + tail)[1..] == tail;
    SkipField(data, l + 1, t, translated, [0] + text);
    assert ([0] + text)[1..] == text;
    assert data[t + 1..] == text;
  }

  /** The iTXt fields in terms of where the three NUL scans stop. */
  lemma ITextFieldsAt(data: Bytes, k: nat, l: nat, t: nat)
    requires NulFrom(data, 0) == k && NulFrom(data, k + 3) == l && NulFrom(data, l + 1) == t
    ensures ITextLayout(data) == ITextFields(Sub(data, 0, k), ByteAt(data, k + 1), ByteAt(data, k + 2), Sub(data, t + 1, |data|))
  {
  }

  /** An iTXt chunk without any NUL is all keyword, with an empty text. */
  lemma ITextWithoutNul(data: Bytes, dec: Decoders)
    requires 0 !in data
    ensures DecodeIText(data, dec) == Success(TextEntry(dec.utf8(data), dec.utf8([])))
  {
    assert data[..|data|] == data;
  }

  /** An iTXt chunk whose keyword ends in a NUL but whose language tag or translated keyword
      does not: the scans run to the end, and the remainder (inflated or not) is empty. With an
      unterminated language tag the range below is empty. */
  lemma ITextUnterminatedTail(data: Bytes, dec: Decoders)
    requires NulFrom(data, 0) < |data|
    requires forall i :: NulFrom(data, NulFrom(data, 0) + 3) + 1 <= i < |data| ==> data[i] != 0
    ensures ITextLayout(data).remaining == []
    ensures DecodeIText(data, dec) == ITextEntry(dec.utf8(data[..NulFrom(data, 0)]), ByteAt(data, NulFrom(data, 0) + 1),
                                                 ByteAt(data, NulFrom(data, 0) + 2), [], dec)
  {
    var k := NulFrom(data, 0);
    var l := NulFrom(data, k + 3);
    ScanToEnd(data, l + 1);
  }

  /** What one chunk yields by its type: a tEXt chunk one entry exactly when it holds a NUL, an
      iTXt chunk always one entry (unless inflating fails), any other type but zTXt nothing. */
  lemma ChunkYield(c: Chunk, dec: Decoders)
    ensures c.tag == TextTag ==> DecodeChunk(c, dec).Success? && (DecodeChunk(c, dec).value.Some? <==> 0 in c.data)
    ensures c.tag == ITextTag && DecodeChunk(c, dec).Success? ==> DecodeChunk(c, dec).value.Some?
    ensures c.tag != TextTag && c.tag != ZTextTag && c.tag != ITextTag ==> DecodeChunk(c, dec) == Success(None)
  {
    TextNeedsNul(c.data, dec);
  }

  /** Walking chunk lists one after the other: entries in order, the first failure wins. */
  lemma {:induction false} DecodeAllAppend(a: seq<Chunk>, b: seq<Chunk>, dec: Decoders)
    ensures DecodeAll(a + b, dec) ==
      if DecodeAll(a, dec).Failure? then DecodeAll(a, dec) else Then(DecodeAll(a, dec).value, DecodeAll(b, dec))
  {
    if a == [] {
      assert a + b == b;
      if DecodeAll(b, dec).Success? {
        assert [] + DecodeAll(b, dec).value == DecodeAll(b, dec).value;
      }
    } else {
      assert a + b == [a[0]] + (a[1..] + b);
      assert a == [a[0]] + a[1..];
      DecodeAllCons(a[0], a[1..] + b, dec);
      DecodeAllCons(a[0], a[1..], dec);
      DecodeAllAppend(a[1..], b, dec);
      if DecodeChunk(a[0], dec).Success? && DecodeAll(a[1..], dec).Success? {
        ThenAssoc(OptionToSeq(DecodeChunk(a[0], dec).value), DecodeAll(a[1..], dec).value, DecodeAll(b, dec));
      }
    }
  }

  // ---- chunk serialisation ----

  /** A chunk as a writer lays it out: the length bytes, the chunk itself, and a CRC the walk
      never reads. */
  datatype Piece = Piece(length: Bytes, chunk: Chunk, crc: Bytes)

  predicate WellFormed(p: Piece) {
    |p.length| == 4 && ReadU32BE(p.length, 0) == |p.chunk.data| && |p.chunk.tag| == 4 && |p.crc| == 4
  }

  /** Every chunk of fewer than 2^32 data bytes can be written, with any CRC. */
  lemma PieceFor(c: Chunk, crc: Bytes)
    requires |c.tag| == 4 && |crc| == 4 && |c.data| < Two32
    ensures WellFormed(Piece(EncodeU32BE(|c.data|), c, crc))
  {
    ReadEncodeU32(|c.data|);
  }

  function Encode(p: Piece): (b: Bytes)
    requires WellFormed(p)
    ensures |b| == 12 + |p.chunk.data|
  {
    p.length + (p.chunk.tag + (p.chunk.data + p.crc))
  }

  function Serialize(ps: seq<Piece>): (b: Bytes)
    requires forall i :: 0 <= i < |ps| ==> WellFormed(ps[i])
  {
    if ps == [] then [] else Encode(ps[0]) + Serialize(ps[1..])
  }

  function ChunksOf(ps: seq<Piece>): (cs: seq<Chunk>)
  {
    if ps == [] then [] else [ps[0].chunk] + ChunksOf(ps[1..])
  }

  /** The walk from an offset sees what a walk of the bytes from there on sees: framing only
      looks ahead of the offset. */
  lemma ChunksFromHere(buf: Bytes, n: nat)
    requires n <= |buf|
    ensures Chunks(buf, n) == Chunks(buf[n..], 0)
  {
    ChunksShifted(buf, n, 0);
  }

  lemma {:induction false} ChunksShifted(buf: Bytes, n: nat, k: nat)
    requires n <= |buf|
    ensures Chunks(buf, n + k) == Chunks(buf[n..], k)
    decreases |buf| - n - k
  {
    var s := buf[n..];
    FramedShifted(buf, n, k);
    if Framed(s, k) && ChunkAt(s, k).tag != EndTag {
      var next := NextOffset(s, k);
      assert Chunks(buf, n + k) == [ChunkAt(s, k)] + Chunks(buf, n + next);
      assert Chunks(s, k) == [ChunkAt(s, k)] + Chunks(s, next);
      ChunksShifted(buf, n, next);
    }
  }

  lemma FramedShifted(buf: Bytes, n: nat, k: nat)
    requires n <= |buf|
    ensures Framed(buf, n + k) == Framed(buf[n..], k)
    ensures Framed(buf, n + k) ==> ChunkAt(buf, n + k) == ChunkAt(buf[n..], k)
    ensures Framed(buf, n + k) ==> NextOffset(buf, n + k) == n + NextOffset(buf[n..], k)
  {
    if n + k + 12 <= |buf| {
      SameU32(buf, n + k, buf[n..], k);
    }
  }

  /** An encoded chunk in front of any bytes is read back, and the walk goes on with those bytes
      unless the chunk is IEND. */
  lemma {:induction false} EncodedFirst(p: Piece, tail: Bytes)
    requires WellFormed(p)
    ensures Chunks(Encode(p) + tail, 0) ==
      if p.chunk.tag == EndTag then [p.chunk] else [p.chunk] + Chunks(tail, 0)
  {
    var c := p.chunk;
    var b := Encode(p) + tail;
    var len := |c.data|;
    FieldsInFront(b, p.length, c.tag, c.data, p.crc + tail);
    assert b == p.length + c.tag + c.data + (p.crc + tail);
    ChunkFromFields(b, 0, p.length, c);
    ChunksFromHere(b, 12 + len);
    assert b[12 + len..] == tail;
  }

  lemma FieldsInFront(b: Bytes, length: Bytes, tag: Bytes, data: Bytes, rest: Bytes)
    requires b == length + tag + data + rest && |length| == 4 && |tag| == 4
    ensures b[0..4] == length && b[4..8] == tag && b[8..8 + |data|] == data
  {
  }

  /** Length bytes, type bytes and data found in place frame the chunk they describe. */
  lemma ChunkFromFields(buf: Bytes, n: nat, length: Bytes, c: Chunk)
    requires |length| == 4 && |c.tag| == 4 && ReadU32BE(length, 0) == |c.data|
    requires n + 12 + |c.data| <= |buf|
    requires buf[n..n + 4] == length && buf[n + 4..n + 8] == c.tag
    requires buf[n + 8..n + 8 + |c.data|] == c.data
    ensures Framed(buf, n) && ChunkAt(buf, n) == c && NextOffset(buf, n) == n + 12 + |c.data|
  {
    SameU32(buf, n, length, 0);
  }

  /** Chunks encoded one after another are walked one after another, as long as none is IEND. */
  lemma {:induction false} SerializedChunks(ps: seq<Piece>, tail: Bytes)
    requires forall i :: 0 <= i < |ps| ==> WellFormed(ps[i]) && ps[i].chunk.tag != EndTag
    ensures Chunks(Serialize(ps) + tail, 0) == ChunksOf(ps) + Chunks(tail, 0)
    decreases |ps|
  {
    if ps == [] {
      assert Serialize(ps) + tail == tail;
      assert ChunksOf(ps) + Chunks(tail, 0) == Chunks(tail, 0);
    } else {
      var p := ps[0];
      var rest := Serialize(ps[1..]);
      assert WellFormed(p) && p.chunk.tag != EndTag;
      SerializedChunks(ps[1..], tail);
      FirstThenRest(p, rest + tail, ChunksOf(ps[1..]) + Chunks(tail, 0));
      SerializeCons(ps, tail);
      assert ChunksOf(ps) == [p.chunk] + ChunksOf(ps[1..]);
      Assoc([p.chunk], ChunksOf(ps[1..]), Chunks(tail, 0));
    }
  }

  lemma FirstThenRest(p: Piece, after: Bytes, later: seq<Chunk>)
    requires WellFormed(p) && p.chunk.tag != EndTag && Chunks(after, 0) == later
    ensures Chunks(Encode(p) + after, 0) == [p.chunk] + later
  {
    EncodedFirst(p, after);
  }

  lemma SerializeCons(ps: seq<Piece>, tail: Bytes)
    requires ps != [] && forall i :: 0 <= i < |ps| ==> WellFormed(ps[i])
    ensures Serialize(ps) + tail == Encode(ps[0]) + (Serialize(ps[1..]) + tail)
  {
    Assoc(Encode(ps[0]), Serialize(ps[1..]), tail);
  }

  lemma Assoc<T>(a: seq<T>, b: seq<T>, c: seq<T>)
    ensures (a + b) + c == a + (b + c)
  {
  }

  /** A PNG file of chunks closed by IEND: the text entries are those of its chunks, in file
      order, and whatever follows IEND is never read. */
  lemma {:induction false} EntriesOfSerialized(ps: seq<Piece>, end: Piece, post: Bytes, dec: Decoders)
    requires forall i :: 0 <= i < |ps| ==> WellFormed(ps[i]) && ps[i].chunk.tag != EndTag
    requires WellFormed(end) && end.chunk.tag == EndTag
    ensures TextEntries(Signature + Serialize(ps) + Encode(end) + post, dec) == DecodeAll(ChunksOf(ps), dec)
  {
    var after := Encode(end) + post;
    var chunks := Serialize(ps) + after;
    var buf := Signature + Serialize(ps) + Encode(end) + post;
    assert buf == Signature + chunks;
    assert buf[..8] == Signature && buf[8..] == chunks;
    ChunksFromHere(buf, 8);
    SerializedChunks(ps, after);
    EncodedFirst(end, post);
    EntriesOfChunks(buf, ChunksOf(ps), end.chunk, dec);
  }

  /** Bytes after the last whole chunk that do not frame another one (fewer than 12 bytes, or a
      length running past the end) end the walk without an error. */
  lemma TruncatedTailIgnored(ps: seq<Piece>, tail: Bytes, dec: Decoders)
    requires forall i :: 0 <= i < |ps| ==> WellFormed(ps[i]) && ps[i].chunk.tag != EndTag
    requires !Framed(tail, 0)
    ensures TextEntries(Signature + Serialize(ps) + tail, dec) == DecodeAll(ChunksOf(ps), dec)
  {
    var chunks := Serialize(ps) + tail;
    var buf := Signature + Serialize(ps) + tail;
    assert buf == Signature + chunks;
    assert buf[..8] == Signature && buf[8..] == chunks;
    ChunksFromHere(buf, 8);
    SerializedChunks(ps, tail);
    assert Chunks(tail, 0) == [];
    assert ChunksOf(ps) + [] == ChunksOf(ps);
    WalkEntries(buf, ChunksOf(ps), dec);
  }

  lemma WalkEntries(buf: Bytes, cs: seq<Chunk>, dec: Decoders)
    requires |buf| >= 8 && buf[..8] == Signature && Chunks(buf, 8) == cs
    ensures TextEntries(buf, dec) == DecodeAll(cs, dec)
  {
  }

  /** A last chunk whose CRC is cut off is still decoded, as long as its header and data are all
      there and fill at least 12 bytes. */
  lemma MissingCrcDecoded(length: Bytes, c: Chunk)
    requires |length| == 4 && |c.tag| == 4 && ReadU32BE(length, 0) == |c.data| && 4 <= |c.data|
    ensures Chunks(length + c.tag + c.data, 0) == [c]
  {
    var buf := length + c.tag + c.data;
    assert buf[0..4] == length && buf[4..8] == c.tag && buf[8..8 + |c.data|] == c.data;
    SameU32(buf, 0, length, 0);
    assert Framed(buf, 0) && ChunkAt(buf, 0) == c;
    assert !Framed(buf, NextOffset(buf, 0));
  }

  lemma EndYieldsNothing(end: Chunk, dec: Decoders)
    requires end.tag == EndTag
    ensures DecodeAll([end], dec) == Success([])
  {
    assert end.tag[0] != TextTag[0] && end.tag[0] != ZTextTag[0] && end.tag[0] != ITextTag[0];
    assert DecodeChunk(end, dec) == Success(None);
    DecodeAllCons(end, [], dec);
    assert [end] + [] == [end];
    assert DecodeAll([], dec) == Success([]);
    ThenNothing([]);
  }

  lemma EntriesOfChunks(buf: Bytes, cs: seq<Chunk>, end: Chunk, dec: Decoders)
    requires |buf| >= 8 && buf[..8] == Signature && end.tag == EndTag
    requires Chunks(buf, 8) == cs + [end]
    ensures TextEntries(buf, dec) == DecodeAll(cs, dec)
  {
    DecodeAllAppend(cs, [end], dec);
    EndYieldsNothing(end, dec);
    if DecodeAll(cs, dec).Success? {
      ThenNothing(DecodeAll(cs, dec).value);
    }
  }

  // ---- helpers ----

  /** The first NUL of a NUL-free prefix followed by a NUL is at the end of the prefix. */
  lemma FirstNulAfter(prefix: Bytes, rest: Bytes)
    requires 0 !in prefix && rest != [] && rest[0] == 0
    ensures IndexOf(prefix + rest, 0) == Some(|prefix|)
  {
    var s := prefix + rest;
    assert s[|prefix|] == 0;
    assert s[..|prefix|] == prefix;
  }

  /** A scan from p over a NUL-free field that is followed by a NUL stops at that NUL, and
      what follows the NUL is the rest. */
  lemma {:induction false} SkipField(data: Bytes, p: nat, q: nat, field: Bytes, rest: Bytes)
    requires p <= |data| && data[p..] == field + rest && rest != [] && rest[0] == 0 && 0 !in field
    requires q == p + |field|
    ensures NulFrom(data, p) == q
    ensures data[q + 1..] == rest[1..]
    decreases |field|
  {
    assert data[p] == (field + rest)[0];
    if field == [] {
      assert data[p + 1..] == data[p..][1..];
    } else {
      assert data[p] != 0 && p < |data|;
      assert NulFrom(data, p) == NulFrom(data, p + 1);
      assert data[p + 1..] == field[1..] + rest;
      SkipField(data, p + 1, q, field[1..], rest);
    }
  }


  lemma SameU32(a: Bytes, i: nat, b: Bytes, j: nat)
    requires i + 4 <= |a| && j + 4 <= |b| && a[i..i + 4] == b[j..j + 4]
    ensures ReadU32BE(a, i) == ReadU32BE(b, j)
  {
    assert a[i] == a[i..i + 4][0] && a[i + 1] == a[i..i + 4][1];
    assert a[i + 2] == a[i..i + 4][2] && a[i + 3] == a[i..i + 4][3];
  }
}

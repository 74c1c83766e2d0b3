/** `parseCharacterFile`: a JSON file is parsed and classified directly; any other file is read
    as a PNG, and its text entries are searched for a card, `chara` entries first. */
module Importer {
  import opened Wrappers
  import opened ImportErrors
  import opened JsValues
  import opened Cards
  import opened TavernCards
  import opened PngText

  const JsonMediaType: string := "application/json"
  const JsonExtension: string := ".json"
  const CharaKeyword: string := "chara"

  /** An uploaded file: its name, its media type, and its bytes. `file.text()` is the UTF-8
      decoding of the bytes. */
  datatype CardFile = CardFile(name: string, mediaType: string, bytes: Bytes)

  /** The JSON path is taken on the media type or on the extension, in any letter case. */
  predicate IsJsonFile(f: CardFile): (b: bool)
    ensures b <==> (f.mediaType == JsonMediaType
      || (|f.name| >= |JsonExtension| && Lower(f.name[|f.name| - |JsonExtension|..]) == JsonExtension))
  {
    f.mediaType == JsonMediaType || EndsWith(Lower(f.name), JsonExtension)
  }

  /** `e.keyword.toLowerCase() === 'chara'`: the keyword is "chara" in any letter case. */
  predicate IsChara(e: TextEntry): (b: bool)
    ensures b <==> |e.keyword| == |CharaKeyword| && forall i :: 0 <= i < |e.keyword| ==> LowerChar(e.keyword[i]) == CharaKeyword[i]
  {
    Lower(e.keyword) == CharaKeyword
  }

  // ---- candidate order ----

  /** The texts of the entries, in file order. */
  function Texts(es: seq<TextEntry>): (ts: seq<string>)
    ensures |ts| == |es| && forall i :: 0 <= i < |es| ==> ts[i] == es[i].text
  {
    if es == [] then [] else [es[0].text] + Texts(es[1..])
  }

  /** The texts of the `chara` entries, in file order. */
  function CharaTexts(es: seq<TextEntry>): (r: seq<string>)
    ensures forall t :: t in r <==> exists i :: 0 <= i < |es| && IsChara(es[i]) && es[i].text == t
  {
    if es == [] then []
    else (if IsChara(es[0]) then [es[0].text] else []) + CharaTexts(es[1..])
  }

  /** The texts of the other entries, in file order. */
  function OtherTexts(es: seq<TextEntry>): (r: seq<string>)
    ensures forall t :: t in r <==> exists i :: 0 <= i < |es| && !IsChara(es[i]) && es[i].text == t
  {
    if es == [] then []
    else (if IsChara(es[0]) then [] else [es[0].text]) + OtherTexts(es[1..])
  }

  /** Filtering a concatenation filters each part: the `chara` texts keep file order. */
  lemma {:induction false} CharaTextsAppend(a: seq<TextEntry>, b: seq<TextEntry>)
    ensures CharaTexts(a + b) == CharaTexts(a) + CharaTexts(b)
  {
    if a != [] {
      assert (a + b)[0] == a[0] && (a + b)[1..] == a[1..] + b;
      CharaTextsAppend(a[1..], b);
    } else {
      assert a + b == b;
    }
  }

  /** The same for the other texts: they keep file order too. */
  lemma {:induction false} OtherTextsAppend(a: seq<TextEntry>, b: seq<TextEntry>)
    ensures OtherTexts(a + b) == OtherTexts(a) + OtherTexts(b)
  {
    if a != [] {
      assert (a + b)[0] == a[0] && (a + b)[1..] == a[1..] + b;
      OtherTextsAppend(a[1..], b);
    } else {
      assert a + b == b;
    }
  }

  /** The candidate texts: every `chara` entry, then every other entry. */
  function Candidates(es: seq<TextEntry>): (r: seq<string>)
    ensures multiset(r) == multiset(Texts(es))
  {
    CandidatesArePermutation(es);
    CharaTexts(es) + OtherTexts(es)
  }

  /** The candidates are the entries' texts, reordered: none is lost or repeated. */
  lemma {:induction false} CandidatesArePermutation(es: seq<TextEntry>)
    ensures multiset(CharaTexts(es) + OtherTexts(es)) == multiset(Texts(es))
  {
    if es != [] {
      var head := [es[0].text];
      CandidatesArePermutation(es[1..]);
      assert Texts(es) == head + Texts(es[1..]);
      if IsChara(es[0]) {
        assert CharaTexts(es) == head + CharaTexts(es[1..]);
        assert OtherTexts(es) == OtherTexts(es[1..]);
      } else {
        assert CharaTexts(es) == CharaTexts(es[1..]);
        assert OtherTexts(es) == head + OtherTexts(es[1..]);
      }
    }
  }

  /** Without a `chara` entry the candidates are in file order. */
  lemma {:induction false} NoCharaKeepsFileOrder(es: seq<TextEntry>)
    requires forall i :: 0 <= i < |es| ==> !IsChara(es[i])
    ensures Candidates(es) == Texts(es)
  {
    NoCharaTexts(es);
    OthersWithoutChara(es);
    assert Candidates(es) == [] + OtherTexts(es);
  }

  lemma {:induction false} NoCharaTexts(es: seq<TextEntry>)
    requires forall i :: 0 <= i < |es| ==> !IsChara(es[i])
    ensures CharaTexts(es) == []
  {
    if es != [] {
      NoCharaTexts(es[1..]);
    }
  }

  lemma {:induction false} OthersWithoutChara(es: seq<TextEntry>)
    requires forall i :: 0 <= i < |es| ==> !IsChara(es[i])
    ensures OtherTexts(es) == Texts(es)
  {
    if es != [] {
      OthersWithoutChara(es[1..]);
      assert Texts(es) == [es[0].text] + Texts(es[1..]);
    }
  }

  /** The first candidate is the first `chara` entry's text, wherever that entry stands. */
  lemma FirstCharaComesFirst(es: seq<TextEntry>, i: nat)
    requires i < |es| && IsChara(es[i]) && forall j :: 0 <= j < i ==> !IsChara(es[j])
    ensures Candidates(es) != [] && Candidates(es)[0] == es[i].text
  {
    FirstCharaText(es, i);
  }

  lemma {:induction false} FirstCharaText(es: seq<TextEntry>, i: nat)
    requires i < |es| && IsChara(es[i]) && forall j :: 0 <= j < i ==> !IsChara(es[j])
    ensures CharaTexts(es) != [] && CharaTexts(es)[0] == es[i].text
    decreases i
  {
    if i == 0 {
      assert CharaTexts(es) == [es[0].text] + CharaTexts(es[1..]);
    } else {
      FirstCharaText(es[1..], i - 1);
      assert CharaTexts(es) == CharaTexts(es[1..]);
    }
  }

  // ---- the search ----

  /** The first of the values that classifies as a card. */
  function CardIn(values: seq<Json>): (r: Option<Json>)
    ensures r.Some? ==> IsCard(r.value) && r.value in values
    ensures r.Some? ==> exists i :: (0 <= i < |values| && values[i] == r.value
      && forall j :: 0 <= j < i ==> !IsCard(values[j]))
    ensures r.None? <==> forall i :: 0 <= i < |values| ==> !IsCard(values[i])
  {
    if values == [] then None
    else if IsCard(values[0]) then Some(values[0])
    else
      var r := CardIn(values[1..]);
      assert r.Some? ==> exists i :: (0 <= i < |values| && values[i] == r.value
        && forall j :: 0 <= j < i ==> !IsCard(values[j])) by {
        if r.Some? {
          var i :| 0 <= i < |values[1..]| && values[1..][i] == r.value
            && forall j :: 0 <= j < i ==> !IsCard(values[1..][j]);
          assert forall j :: 0 <= j < i + 1 ==> !IsCard(values[j]) by {
            forall j | 0 <= j < i + 1
              ensures !IsCard(values[j])
            {
              if j > 0 {
                assert values[j] == values[1..][j - 1];
              }
            }
          }
        }
      }
      r
  }

  /** What one parsed candidate offers: itself if it classifies, else the first of its direct
      values (or elements) that does. Nothing is looked at further down. */
  function CardOf(j: Json): (r: Option<Json>)
    ensures r.Some? ==> IsCard(r.value)
    ensures IsCard(j) ==> r == Some(j)
    ensures !IsCard(j) && IsObjectLike(j) ==> r == CardIn(ObjectValues(j))
    ensures !IsCard(j) && !IsObjectLike(j) ==> r.None?
  {
    if !Truthy(j) then None
    else if IsCard(j) then Some(j)
    else if IsObjectLike(j) then (ObjectLikeIsArrayOrObject(j); CardIn(ObjectValues(j)))
    else None
  }

  /** The card the candidate texts offer: that of the first one that offers any. */
  function FirstCard(texts: seq<string>, parse: string -> Option<Json>): (r: Option<Json>)
    ensures r.Some? ==> IsCard(r.value)
  {
    if texts == [] then None
    else if CardOf(SafeParseJson(texts[0], parse)).Some? then CardOf(SafeParseJson(texts[0], parse))
    else FirstCard(texts[1..], parse)
  }

  /** The search finds nothing exactly when no candidate offers a card. */
  lemma {:induction false} FirstCardNone(texts: seq<string>, parse: string -> Option<Json>)
    ensures FirstCard(texts, parse).None? <==>
      forall i :: 0 <= i < |texts| ==> CardOf(SafeParseJson(texts[i], parse)).None?
  {
    if texts != [] {
      FirstCardNone(texts[1..], parse);
      if FirstCard(texts, parse).None? {
        forall i | 0 <= i < |texts|
          ensures CardOf(SafeParseJson(texts[i], parse)).None?
        {
          if i > 0 {
            assert texts[i] == texts[1..][i - 1];
          }
        }
      } else if CardOf(SafeParseJson(texts[0], parse)).None? {
        var i :| 0 <= i < |texts[1..]| && CardOf(SafeParseJson(texts[1..][i], parse)).Some?;
        assert texts[i + 1] == texts[1..][i];
      }
    }
  }

  /** Otherwise it finds the card of the first candidate that offers one: candidate `i`
      offers it and no candidate before `i` offers any. */
  lemma {:induction false} FirstCardIsFirst(texts: seq<string>, parse: string -> Option<Json>)
    requires FirstCard(texts, parse).Some?
    ensures exists i :: (0 <= i < |texts|
      && FirstCard(texts, parse) == CardOf(SafeParseJson(texts[i], parse))
      && forall j :: 0 <= j < i ==> CardOf(SafeParseJson(texts[j], parse)).None?)
  {
    if CardOf(SafeParseJson(texts[0], parse)).Some? {
      assert FirstCard(texts, parse) == CardOf(SafeParseJson(texts[0], parse));
    } else {
      FirstCardIsFirst(texts[1..], parse);
      var i :| 0 <= i < |texts[1..]|
        && FirstCard(texts[1..], parse) == CardOf(SafeParseJson(texts[1..][i], parse))
        && forall j :: 0 <= j < i ==> CardOf(SafeParseJson(texts[1..][j], parse)).None?;
      forall j | 0 <= j < i + 1
        ensures CardOf(SafeParseJson(texts[j], parse)).None?
      {
        if j > 0 {
          assert texts[j] == texts[1..][j - 1];
        }
      }
      assert texts[i + 1] == texts[1..][i];
    }
  }

  /** Searching two lists one after the other searches the second only if the first offers
      nothing. */
  lemma {:induction false} FirstCardAppend(a: seq<string>, b: seq<string>, parse: string -> Option<Json>)
    ensures FirstCard(a + b, parse) == if FirstCard(a, parse).Some? then FirstCard(a, parse) else FirstCard(b, parse)
  {
    if a == [] {
      assert a + b == b;
    } else {
      assert (a + b)[0] == a[0];
      assert (a + b)[1..] == a[1..] + b;
      FirstCardAppend(a[1..], b, parse);
    }
  }

  /** A card in a `chara` entry wins over any card in any other entry. */
  lemma CharaEntriesWin(es: seq<TextEntry>, parse: string -> Option<Json>)
    ensures FirstCard(Candidates(es), parse) ==
      if FirstCard(CharaTexts(es), parse).Some? then FirstCard(CharaTexts(es), parse)
      else FirstCard(OtherTexts(es), parse)
  {
    FirstCardAppend(CharaTexts(es), OtherTexts(es), parse);
  }

  /** A card two levels down is not found: `{outer: {inner: card}}` offers nothing. */
  lemma NestedCardIsMissed(c: CardV1)
    ensures var inner := JObject(Member("inner", V1ToJson(c), NoMembers));
      CardOf(JObject(Member("outer", inner, NoMembers))).None?
  {
    var inner := JObject(Member("inner", V1ToJson(c), NoMembers));
    var outer := JObject(Member("outer", inner, NoMembers));
    ClassifiersOnShape(inner);
    ClassifiersOnShape(outer);
    assert Lookup(inner.members, Cards.Keys.Name).None?;
    assert !IsCard(inner);
    assert Values(outer.members) == [inner] + Values(NoMembers);
    assert CardIn([inner]) == CardIn([]);
  }

  // ---- parseCharacterFile ----

  /** The outcome of importing f: `avatarUrl` is the object URL made for f, `parse` is
      `JSON.parse`. */
  function Import(f: CardFile, avatarUrl: string, dec: Decoders, parse: string -> Option<Json>): (r: Result<Booth, Error>)
    ensures r.Success? ==> r.value.avatarUrl == avatarUrl && IsCard(r.value.rawCard)
    ensures r.Failure? && (r.error == InvalidJson || r.error == NotACard) ==> IsJsonFile(f)
    ensures r.Failure? && (r.error.NoCardInPng? || r.error.NotPng? || r.error.RangeError? || r.error.InflateFailed?) ==>
      !IsJsonFile(f)
    ensures IsJsonFile(f) ==>
      var j := SafeParseJson(dec.utf8(f.bytes), parse);
      && (r == Failure(InvalidJson) <==> !Truthy(j))
      && (r == Failure(NotACard) <==> Truthy(j) && !IsCard(j))
      && (IsCard(j) ==> r == MapToBooth(j, avatarUrl))
    ensures !IsJsonFile(f) && TextEntries(f.bytes, dec).Failure? ==> r == Failure(TextEntries(f.bytes, dec).error)
    ensures !IsJsonFile(f) && TextEntries(f.bytes, dec).Success? ==>
      var card := FirstCard(Candidates(TextEntries(f.bytes, dec).value), parse);
      && (r == Failure(NoCardInPng) <==> card.None?)
      && (card.Some? ==> r == MapToBooth(card.value, avatarUrl))
  {
    if IsJsonFile(f) then
      var j := SafeParseJson(dec.utf8(f.bytes), parse);
      if !Truthy(j) then Failure(InvalidJson)
      else if IsCard(j) then MapToBooth(j, avatarUrl)
      else Failure(NotACard)
    else
      match TextEntries(f.bytes, dec)
      case Failure(e) => Failure(e)
      case Success(entries) =>
        match FirstCard(Candidates(entries), parse)
        case None => Failure(NoCardInPng)
        case Some(card) => MapToBooth(card, avatarUrl)
  }

  /** `parseCharacterFile`, with its two search loops. */
  method ParseCharacterFile(f: CardFile, avatarUrl: string, dec: Decoders, parse: string -> Option<Json>)
    returns (r: Result<Booth, Error>)
    ensures r == Import(f, avatarUrl, dec, parse)
  {
    if f.mediaType == JsonMediaType || EndsWith(Lower(f.name), JsonExtension) {
      var j := SafeParseJson(dec.utf8(f.bytes), parse);
      if !Truthy(j) {
        return Failure(InvalidJson);
      }
      if IsV2Card(j) || IsV1Card(j) {
        return MapToBooth(j, avatarUrl);
      }
      return Failure(NotACard);
    }
    var extracted := ExtractPngText(f.bytes, dec);
    if extracted.Failure? {
      return Failure(extracted.error);
    }
    var candidates := Candidates(extracted.value);
    var i := 0;
    while i < |candidates|
      invariant i <= |candidates|
      invariant FirstCard(candidates[i..], parse) == FirstCard(candidates, parse)
      decreases |candidates| - i
    {
      assert candidates[i..][1..] == candidates[i + 1..];
      var j := SafeParseJson(candidates[i], parse);
      if Truthy(j) {
        if IsV2Card(j) || IsV1Card(j) {
          return MapToBooth(j, avatarUrl);
        }
        if IsObjectLike(j) {
          ObjectLikeIsArrayOrObject(j);
          var values := ObjectValues(j);
          var k := 0;
          while k < |values|
            invariant k <= |values|
            invariant CardIn(values[k..]) == CardIn(values)
            decreases |values| - k
          {
            assert values[k..][1..] == values[k + 1..];
            if IsV2Card(values[k]) || IsV1Card(values[k]) {
              return MapToBooth(values[k], avatarUrl);
            }
            k := k + 1;
          }
        }
      }
      i := i + 1;
    }
    return Failure(NoCardInPng);
  }

  // ---- end to end ----

  /** A JSON file holding a typed V1 card imports as that card's booth. */
  lemma JsonV1FileImports(f: CardFile, c: CardV1, avatarUrl: string, dec: Decoders, parse: string -> Option<Json>)
    requires IsJsonFile(f) && parse(dec.utf8(f.bytes)) == Some(V1ToJson(c))
    ensures Import(f, avatarUrl, dec, parse) == Success(V1Booth(c, avatarUrl))
  {
    V1ToJsonRead(c, ProtoKey);
    V1ToJsonRead(c, ConstructorKey);
    SanitizeKeepsClean(V1ToJson(c));
    V1CardImports(c, avatarUrl);
  }

  /** A PNG file whose one text chunk is keyed `chara` and holds a typed V2 card imports as
      that card's booth, whatever follows its IEND chunk. */
  lemma PngV2FileImports(f: CardFile, keyword: Bytes, text: Bytes, length: Bytes, crc: Bytes, end: Piece,
                         post: Bytes, c: CardV2, avatarUrl: string, dec: Decoders, parse: string -> Option<Json>)
    requires !IsJsonFile(f)
    requires 0 !in keyword && Lower(dec.utf8(keyword)) == CharaKeyword
    requires parse(dec.utf8(text)) == Some(V2ToJson(c))
    requires WellFormed(Piece(length, Chunk(TextTag, keyword + [0] + text), crc))
    requires WellFormed(end) && end.chunk.tag == EndTag
    requires f.bytes == Signature + Serialize([Piece(length, Chunk(TextTag, keyword + [0] + text), crc)]) + Encode(end) + post
    ensures Import(f, avatarUrl, dec, parse) == Success(V2Booth(c, avatarUrl))
  {
    var entry := TextEntry(dec.utf8(keyword), dec.utf8(text));
    OneTextPiece(f.bytes, keyword, text, length, crc, end, post, dec);
    assert Candidates([entry]) == [dec.utf8(text)] by {
      assert IsChara(entry);
      assert [entry][1..] == [];
      assert CharaTexts([entry]) == [dec.utf8(text)] + CharaTexts([]);
      assert OtherTexts([entry]) == [] + OtherTexts([]);
    }
    V2TextIsFound(dec.utf8(text), c, parse);
    V2CardImports(c, avatarUrl);
  }

  /** The PNG of that shape holds exactly the one text entry. */
  lemma OneTextPiece(buf: Bytes, keyword: Bytes, text: Bytes, length: Bytes, crc: Bytes, end: Piece,
                     post: Bytes, dec: Decoders)
    requires 0 !in keyword
    requires WellFormed(Piece(length, Chunk(TextTag, keyword + [0] + text), crc))
    requires WellFormed(end) && end.chunk.tag == EndTag
    requires buf == Signature + Serialize([Piece(length, Chunk(TextTag, keyword + [0] + text), crc)]) + Encode(end) + post
    ensures TextEntries(buf, dec) == Success([TextEntry(dec.utf8(keyword), dec.utf8(text))])
  {
    var p := Piece(length, Chunk(TextTag, keyword + [0] + text), crc);
    assert p.chunk.tag != EndTag by {
      assert p.chunk.tag[0] != EndTag[0];
    }
    EntriesOfSerialized([p], end, post, dec);
    TextRoundTrip(keyword, text, dec);
    OneTextChunk(p.chunk, TextEntry(dec.utf8(keyword), dec.utf8(text)), dec);
    assert ChunksOf([p]) == [p.chunk];
  }

  /** A text that parses to a typed V2 card offers that card. */
  lemma V2TextIsFound(text: string, c: CardV2, parse: string -> Option<Json>)
    requires parse(text) == Some(V2ToJson(c))
    ensures FirstCard([text], parse) == Some(V2ToJson(c))
  {
    V2ToJsonRead(c, ProtoKey);
    V2ToJsonRead(c, ConstructorKey);
    SanitizeKeepsClean(V2ToJson(c));
    V2CardImports(c, "");
  }

  lemma OneTextChunk(chunk: Chunk, entry: TextEntry, dec: Decoders)
    requires chunk.tag == TextTag && DecodeText(chunk.data, dec) == Some(entry)
    ensures DecodeAll([chunk], dec) == Success([entry])
  {
    DecodeAllCons(chunk, [], dec);
    assert [chunk] + [] == [chunk];
    ThenNothing([entry]);
  }
}

# Character-card import and the character registry, in Dafny

This project models the part of the role-play chat front end that turns an uploaded file into a
character record, and the in-memory store that keeps those records.

- **PNG text extraction** (`PngText`, png.dfy). The importer checks the eight-byte PNG signature.
  It then walks the `length | type | data | crc` chunks from offset 8 and stops at the first
  `IEND`, at a truncated header or at a length that runs past the end. It decodes `tEXt`, `zTXt`
  and `iTXt` chunks into keyword/text entries. The CRC is never read.
  - The walk is a pure function (`Chunks`, `DecodeAll`, `TextEntries`).
  - The source's loops are methods proved equal to it: the cursor loop of `extractPngText` and the
    `readStr` scan of the iTXt branch.
  - A serialiser of chunk sequences shows which PNGs yield which entries.
- **JSON cards** (`JsValues`, `Cards`, `TavernCards`). JSON values follow JavaScript truthiness
  and `typeof` (`typeof null` is `"object"`).
  - `safeParseJson` deletes the top-level `__proto__` and `constructor` keys.
  - `isV2Card`/`isV1Card` classify; `mapToBooth` normalises a card into a booth record.
  - A V2 card with `data: null` passes `isV2Card`. `mapToBooth` then fails with a TypeError,
    modelled as the `NullCardData` error.
  - The typed card schemas are datatypes, with the JSON object each one is.
- **The importer** (`Importer`). `parseCharacterFile` takes the JSON path on the media type or
  the `.json` extension. Otherwise it reads the PNG entries.
  - Candidates are ordered `chara` first, then the rest. The first candidate that is a card wins,
    or, failing that, one of its direct values that is.
  - It ends with one of three messages.
  - Its two search loops are a method proved equal to the function `Import`.
- **The registry** (`CharacterRegistry`, registry.dfy). `CharacterService` is a class over a map
  from name to record. Beside the map it keeps the keys in insertion order, the order a JavaScript
  `Map` enumerates them in.
  - Methods add (both overloads), remove (both overloads) and snapshot.
  - `currentCharacter` looks up a current-name field that starts as `""` and that no method
    changes. As an Angular `computed` signal it keeps the value of its first read: neither that
    field nor the `Map` is ever seen to change, so later reads return the same value.

The external primitives are parameters:
- the UTF-8 decoder and the deflate decompressor: `Decoders`, a pair of functions; the
  decompressor may fail;
- `JSON.parse`: a function `string -> Option<Json>`, where None is a thrown SyntaxError;
- the object URL: a string.

A chunk type is compared by its four bytes. The source decodes them as UTF-8 and compares the
result with a four-letter ASCII name. Four bytes decode to those four characters exactly when they
are those characters' bytes.

Where the source and its own tests disagree, the model follows the code: the tests expect a
first-added character to become current, and call a `setCurrentCharacter` that the service does
not have.

The code never catches an inflate failure: a rejected zTXt or iTXt stream ends the import with the
decompressor's error. It has no base64 fallback for text entries.

## Model

| member | source | states |
|---|---|---|
| PngText.ReadU32BE | src/app/shared/utils/png-tavern-parser.ts:6-8 | a big-endian 32-bit read is below 2^32 |
| PngText.ReadEncodeU32 | src/app/shared/utils/png-tavern-parser.ts:6-8 | reading back the four bytes written for n gives n |
| PngText.EncodeReadU32 | src/app/shared/utils/png-tavern-parser.ts:6-8 | writing the value read from four bytes gives those bytes back |
| PngText.IsPngSignature | src/app/shared/utils/png-tavern-parser.ts:10-14 | fails with a RangeError exactly when fewer than 8 bytes exist; accepts exactly when the first 8 bytes are 137 80 78 71 13 10 26 10 |
| PngText.SignatureAccepted | src/app/shared/utils/png-tavern-parser.ts:10-14 | any buffer starting with the signature is accepted |
| PngText.ChunkAt | src/app/shared/utils/png-tavern-parser.ts:41-47 | a framed chunk's data holds exactly the big-endian length's bytes and lies inside the buffer; its type is four bytes |
| PngText.NextOffset | src/app/shared/utils/png-tavern-parser.ts:91 | the cursor advances by exactly 12 plus the data length, which is why the walk ends |
| PngText.EndOnlyLast | src/app/shared/utils/png-tavern-parser.ts:92 | the walk stops after the first IEND: no chunk before the last visited one is IEND |
| PngText.TruncatedTailIgnored | src/app/shared/utils/png-tavern-parser.ts:40-45 | trailing bytes too short for a header, or with a length past the end, end the walk without an error |
| PngText.MissingCrcDecoded | src/app/shared/utils/png-tavern-parser.ts:40-47 | a last chunk whose CRC bytes are cut off is still visited when it has at least 4 data bytes (so that header and data fill the 12 bytes the loop guard asks for) |
| PngText.IndexOf | src/app/shared/utils/png-tavern-parser.ts:50 | `indexOf`: the first position holding the byte, or none exactly when the byte is absent |
| PngText.DecodeText | src/app/shared/utils/png-tavern-parser.ts:49-55 | an entry is split at a NUL with no NUL before it: keyword before, text after |
| PngText.DecodeZText | src/app/shared/utils/png-tavern-parser.ts:56-66 | a zTXt chunk yields an entry or fails exactly when it has a NUL, at least two bytes after it, and method byte 0; it fails only through the inflater |
| PngText.DecodeIText | src/app/shared/utils/png-tavern-parser.ts:67-89 | the keyword is the data up to the first NUL; the chunk fails only through the inflater, and only when the flag is 1 and the method 0 |
| PngText.ITextLayout | src/app/shared/utils/png-tavern-parser.ts:69-82 | the keyword field is the longest NUL-free prefix of the data, followed by a NUL or the end |
| PngText.ITextUnterminatedTail | src/app/shared/utils/png-tavern-parser.ts:70-88 | when the keyword ends in a NUL but the language tag, or the translated keyword after a terminated language tag, does not, the scans run to the end and the remainder, inflated or raw, is empty |
| PngText.TextRoundTrip | src/app/shared/utils/png-tavern-parser.ts:49-55 | a tEXt chunk `keyword NUL text` reads back as that keyword and text, split at the first NUL |
| PngText.TextNeedsNul | src/app/shared/utils/png-tavern-parser.ts:49-55 | a tEXt chunk yields an entry exactly when it holds a NUL |
| PngText.ZTextRoundTrip | src/app/shared/utils/png-tavern-parser.ts:56-66 | a method-0 zTXt chunk yields the inflated text, or fails the parse with the inflater's error |
| PngText.ZTextSkipped | src/app/shared/utils/png-tavern-parser.ts:56-66 | a zTXt chunk with another method byte, or with no compressed byte, yields nothing |
| PngText.NulFrom | src/app/shared/utils/png-tavern-parser.ts:70-76 | the `readStr` scan stops at a NUL or at the end, never before its start |
| PngText.ScanToEnd | src/app/shared/utils/png-tavern-parser.ts:72 | with no NUL ahead, the scan stops at the end of the data, or where it started when already past it |
| PngText.NulFromIsFirst | src/app/shared/utils/png-tavern-parser.ts:72 | every byte the scan passes over is a non-NUL byte of the data |
| PngText.ReadStr | src/app/shared/utils/png-tavern-parser.ts:70-76 | the loop returns the decoded bytes up to the first NUL and the position just past it |
| PngText.ByteAt | src/app/shared/utils/png-tavern-parser.ts:78-79 | `data[p++]` reads a byte exactly when p is inside the data, and undefined past it |
| PngText.Sub | src/app/shared/utils/png-tavern-parser.ts:73 | `subarray` clamps: an in-range slice is the slice, a start past the end is empty |
| PngText.ITextEntry | src/app/shared/utils/png-tavern-parser.ts:83-88 | the remainder is inflated exactly when flag is 1 and method is 0, and only that can fail; otherwise the raw remainder is the text |
| PngText.ReadITextFields | src/app/shared/utils/png-tavern-parser.ts:67-89 | the iTXt branch with its three scans computes the iTXt entry of the chunk data |
| PngText.ITextRoundTrip | src/app/shared/utils/png-tavern-parser.ts:67-89 | an iTXt chunk written field by field reads back as its keyword, flag, method and text |
| PngText.ITextLayoutOf | src/app/shared/utils/png-tavern-parser.ts:77-82 | the three scans recover the keyword, flag, method and text of a chunk laid out field by field |
| PngText.ITextWithoutNul | src/app/shared/utils/png-tavern-parser.ts:67-89 | with no NUL the whole data is the keyword and the text is empty, with no error |
| PngText.ChunkYield | src/app/shared/utils/png-tavern-parser.ts:49-89 | tEXt yields one entry exactly when it holds a NUL, iTXt always one unless inflating fails, any other type but zTXt none |
| PngText.DecodeChunk | src/app/shared/utils/png-tavern-parser.ts:49-89 | a chunk fails only by an inflate failure |
| PngText.DecodeAll | src/app/shared/utils/png-tavern-parser.ts:40-93 | decoding a chunk list fails only by an inflate failure |
| PngText.DecodeAllAppend | src/app/shared/utils/png-tavern-parser.ts:37 | entries come out in chunk order: the entries of a + b are those of a, then those of b, and a failure in a stops the walk |
| PngText.TextEntries | src/app/shared/utils/png-tavern-parser.ts:32-95 | fewer than 8 bytes fail with a RangeError and a wrong signature with "Not a PNG file", before any chunk is read; otherwise only inflating can fail |
| PngText.ExtractPngText | src/app/shared/utils/png-tavern-parser.ts:32-95 | the cursor loop with its early break on IEND returns exactly the entries, or the failure, of the chunk walk |
| PngText.WalkStops | src/app/shared/utils/png-tavern-parser.ts:40-45 | where no chunk is framed the walk ends, without an error, with the entries collected so far |
| PngText.WalkFails | src/app/shared/utils/png-tavern-parser.ts:63 | a chunk whose inflating fails fails the whole walk with that error |
| PngText.WalkAdvances | src/app/shared/utils/png-tavern-parser.ts:91-92 | a decoded chunk appends its entry, if any, and the walk goes on past its CRC unless it is IEND |
| PngText.DecodeChunkData | src/app/shared/utils/png-tavern-parser.ts:49-89 | the per-type branch of the loop body computes the chunk's decoding |
| PngText.PieceFor | src/app/shared/utils/png-tavern-parser.ts:41-44 | every chunk of fewer than 2^32 data bytes can be framed with its big-endian length |
| PngText.SerializedChunks | src/app/shared/utils/png-tavern-parser.ts:40-93 | chunks written one after another are visited one after another, in order, up to what follows |
| PngText.EntriesOfSerialized | src/app/shared/utils/png-tavern-parser.ts:32-95 | a PNG of signature, chunks, IEND and any trailing bytes yields the entries of those chunks; nothing after IEND is read |
| PngText.EntriesOfChunks | src/app/shared/utils/png-tavern-parser.ts:91-94 | a walk ending in IEND yields the entries of the chunks before it |
| ImportErrors.Message | src/app/shared/utils/png-tavern-parser.ts:16-192 | the importer's own message for each error, as thrown at :33, :166, :168 and :192; an inflate failure carries the decompressor's reason; the RangeError and TypeError carry the engine's |
| ImportErrors.ImportMessagesDistinct | src/app/shared/utils/png-tavern-parser.ts:166-192 | the three importer messages are different from each other |
| JsValues.Truthy | src/app/shared/utils/png-tavern-parser.ts:166 | falsy exactly for null, false, 0 and "" (a missing property is never a parsed value) |
| JsValues.Prop | src/app/shared/utils/png-tavern-parser.ts:116-155 | only an object yields a property; an array or a primitive reads undefined for every key the importer reads |
| JsValues.TypeOf | src/app/shared/utils/png-tavern-parser.ts:116-118 | `typeof` is "object" exactly for null, arrays and objects, "string" for strings, "undefined" for a missing property |
| JsValues.ObjectLikeIsArrayOrObject | src/app/shared/utils/png-tavern-parser.ts:185 | `j && typeof j === 'object'` holds exactly for arrays and objects |
| JsValues.ObjectValues | src/app/shared/utils/png-tavern-parser.ts:186 | `Object.values` of an array is its elements and of an object its member values in order |
| JsValues.DeleteKey | src/app/shared/utils/png-tavern-parser.ts:104-105 | `delete o[k]` removes k and changes no other property, nor the value's kind or truthiness |
| JsValues.WithoutAbsentKey | src/app/shared/utils/png-tavern-parser.ts:104-105 | deleting an absent key changes nothing |
| JsValues.Lower | src/app/shared/utils/png-tavern-parser.ts:163 | `toLowerCase` maps each character, and keeps the length |
| Cards.V1ToJsonRead | src/app/shared/models/character-booth.model.ts:1-8 | every property of a typed V1 card reads back as its field, and any other property as undefined |
| Cards.V2ToJsonRead | src/app/shared/models/character-booth.model.ts:10-24 | every property of a typed V2 card reads back as its field, `spec` as "chara_card_v2" |
| Cards.V2DataRead | src/app/shared/models/character-booth.model.ts:13-23 | every property of a V2 card's data reads back as its V1 field or its extra |
| Cards.V1ToJsonConforms | src/app/shared/models/character-booth.model.ts:1-8 | a typed V1 card has the declared V1 shape |
| Cards.V2ToJsonConforms | src/app/shared/models/character-booth.model.ts:10-24 | a typed V2 card has the declared V2 shape |
| Cards.V2DataConforms | src/app/shared/models/character-booth.model.ts:13-23 | a typed V2 data part has the declared shape |
| TavernCards.Sanitize | src/app/shared/utils/png-tavern-parser.ts:100-106 | on a truthy object or array, removes `__proto__` and `constructor` and keeps every other property; any other value is untouched |
| TavernCards.SafeParseJson | src/app/shared/utils/png-tavern-parser.ts:97-111 | a parse error gives null; otherwise the sanitised parse |
| TavernCards.SafeParseTruthy | src/app/shared/utils/png-tavern-parser.ts:97-111 | the result is truthy exactly when the text parses to a truthy value |
| TavernCards.SanitizeKeepsClean | src/app/shared/utils/png-tavern-parser.ts:100-106 | a value without those two keys comes through unchanged |
| TavernCards.IsV2Card | src/app/shared/utils/png-tavern-parser.ts:113-120 | only an object with `spec` "chara_card_v2" and a present `data` that is null, an array or an object passes |
| TavernCards.IsV1Card | src/app/shared/utils/png-tavern-parser.ts:122-128 | only a value whose five required fields are all present strings passes |
| TavernCards.IsCard | src/app/shared/utils/png-tavern-parser.ts:167 | a value either classifier accepts is an object |
| TavernCards.BoothDescription | src/app/shared/utils/png-tavern-parser.ts:136 | never null: the description, the personality, or "" |
| TavernCards.ClassifiersOnShape | src/app/shared/utils/png-tavern-parser.ts:113-128 | isV2Card holds exactly for an object with `spec` "chara_card_v2" and a null, array or object `data`; isV1Card exactly for an object whose five required fields are strings |
| TavernCards.DescriptionFallback | src/app/shared/utils/png-tavern-parser.ts:136 | description falls back to personality and then to "" only past null or undefined, never past "" |
| TavernCards.Fields | src/app/shared/utils/png-tavern-parser.ts:131-132 | the fields are read from `data` for a V2 card and from the card itself otherwise |
| TavernCards.MapToBooth | src/app/shared/utils/png-tavern-parser.ts:130-157 | fails exactly on a V2 card with null data; otherwise copies each field from its source property, passes avatarUrl and the card through, and leaves the V2 extras unset for a V1 card |
| TavernCards.V1CardImports | src/app/shared/utils/png-tavern-parser.ts:148-156 | a typed V1 card is V1 and not V2, and becomes the booth of its fields |
| TavernCards.V2CardImports | src/app/shared/utils/png-tavern-parser.ts:131-146 | a typed V2 card is V2 and becomes the booth of its data fields |
| TavernCards.ConformingV2Imports | src/app/shared/utils/png-tavern-parser.ts:130-147 | any value of the V2 type is classified V2 and becomes a booth of the declared booth type |
| TavernCards.ConformingV1Imports | src/app/shared/utils/png-tavern-parser.ts:148-156 | any value of the V1 type is classified V1 and, unless also V2, becomes a booth of the declared type |
| TavernCards.NullDataIsAccepted | src/app/shared/utils/png-tavern-parser.ts:113-120 | `{spec: 'chara_card_v2', data: null}` passes isV2Card and then fails in mapToBooth |
| TavernCards.EmptyDataIsAccepted | src/app/shared/utils/png-tavern-parser.ts:113-146 | `{spec: 'chara_card_v2', data: {}}` imports as a booth without a name, outside the declared booth type |
| Importer.Texts | src/app/shared/utils/png-tavern-parser.ts:179 | the texts of the entries, one per entry, in order |
| Importer.IsJsonFile | src/app/shared/utils/png-tavern-parser.ts:163 | the JSON path is taken exactly for the JSON media type or a name whose last five characters lower to ".json" |
| Importer.IsChara | src/app/shared/utils/png-tavern-parser.ts:177 | the keyword equals "chara" in any letter case: five characters, each lowering to the letter of "chara" |
| Importer.CharaTexts | src/app/shared/utils/png-tavern-parser.ts:177 | a text is listed exactly when some `chara` entry holds it |
| Importer.OtherTexts | src/app/shared/utils/png-tavern-parser.ts:178 | a text is listed exactly when some entry not keyed `chara` holds it |
| Importer.Candidates | src/app/shared/utils/png-tavern-parser.ts:176-179 | the candidates are a permutation of the entries' texts |
| Importer.CharaTextsAppend | src/app/shared/utils/png-tavern-parser.ts:177 | the `chara` texts of a + b are those of a then those of b: the group keeps file order |
| Importer.OtherTextsAppend | src/app/shared/utils/png-tavern-parser.ts:178 | the other texts of a + b are those of a then those of b: the group keeps file order |
| Importer.CandidatesArePermutation | src/app/shared/utils/png-tavern-parser.ts:176-179 | the candidates are the entries' texts reordered, none lost or repeated |
| Importer.NoCharaKeepsFileOrder | src/app/shared/utils/png-tavern-parser.ts:176-179 | without a `chara` entry the candidates are in file order |
| Importer.FirstCharaComesFirst | src/app/shared/utils/png-tavern-parser.ts:177 | the first `chara` entry's text is the first candidate, wherever it stands |
| Importer.CardIn | src/app/shared/utils/png-tavern-parser.ts:186-188 | the result is the first value that is a card: it is at some index with no card before it; none is found exactly when no value is a card |
| Importer.CardOf | src/app/shared/utils/png-tavern-parser.ts:183-189 | a candidate that is a card offers itself; an array or object that is not offers the first card among its direct values; anything else offers nothing |
| Importer.FirstCard | src/app/shared/utils/png-tavern-parser.ts:181-190 | anything the search finds is a card |
| Importer.FirstCardNone | src/app/shared/utils/png-tavern-parser.ts:181-192 | the search finds nothing exactly when no candidate offers a card |
| Importer.FirstCardIsFirst | src/app/shared/utils/png-tavern-parser.ts:181-190 | a found card is that of a candidate no earlier candidate of which offers one |
| Importer.FirstCardAppend | src/app/shared/utils/png-tavern-parser.ts:181-190 | searching a + b looks at b only when a offers nothing |
| Importer.CharaEntriesWin | src/app/shared/utils/png-tavern-parser.ts:176-190 | a card in a `chara` entry wins over a card in any other entry |
| Importer.NestedCardIsMissed | src/app/shared/utils/png-tavern-parser.ts:185-188 | a card two levels down is not found |
| Importer.Import | src/app/shared/utils/png-tavern-parser.ts:159-193 | on the JSON path: "invalid JSON" exactly when the sanitised parse is falsy, "not a card" exactly when it is truthy and no card, else the booth of that card; on the PNG path: the extraction's error, or "no card in PNG" exactly when the search finds none, else the booth of the card found; a success carries the object URL |
| Importer.ParseCharacterFile | src/app/shared/utils/png-tavern-parser.ts:159-193 | the dispatch and the two search loops with early returns compute `Import` |
| Importer.JsonV1FileImports | src/app/shared/utils/png-tavern-parser.ts:163-167 | a JSON file holding a typed V1 card imports as that card's booth |
| Importer.PngV2FileImports | src/app/shared/utils/png-tavern-parser.ts:171-184 | a PNG with one `chara` tEXt chunk holding a typed V2 card imports as that card's booth, whatever follows IEND |
| CharacterRegistry.Inserted | src/app/core/services/character.service.ts:28 | `set` puts a new key last and keeps a present key in place |
| CharacterRegistry.Erased | src/app/core/services/character.service.ts:38 | `delete` drops exactly that key and keeps the others |
| CharacterRegistry.Snapshot | src/app/core/services/character.service.ts:18 | one value per listed key, the value stored under it, in key order |
| CharacterRegistry.ErasedKeepsOrder | src/app/core/services/character.service.ts:38 | deleting the key at position i leaves the keys before and after it in their order |
| CharacterRegistry.ErasedKeepsDistinct | src/app/core/services/character.service.ts:38 | deleting keeps every key listed once |
| CharacterRegistry.InsertedLists | src/app/core/services/character.service.ts:28-30 | after `set` the key order lists the map's keys, each once |
| CharacterRegistry.ErasedLists | src/app/core/services/character.service.ts:38-40 | after `delete` the key order lists the map's keys, each once |
| CharacterRegistry.ListingSize | src/app/core/services/character.service.ts:8 | the key order has one entry per stored key |
| CharacterRegistry.OverwriteKeepsCount | src/app/core/services/character.service.ts:28-30 | adding under a present key keeps the count and the key order |
| CharacterRegistry.OverwriteReplacesInPlace | src/app/core/services/character.service.ts:28-30 | adding under a present key replaces only that entry of the snapshot |
| CharacterRegistry.AddAppendsToSnapshot | src/app/core/services/character.service.ts:28-30 | adding a new key adds one entry, last in the snapshot, and keeps the others |
| CharacterRegistry.RemoveAbsentIsNoOp | src/app/core/services/character.service.ts:36-42 | removing an absent key changes neither the map nor the key order |
| CharacterRegistry.SnapshotCoversStore | src/app/core/services/character.service.ts:17-19 | the snapshot has one entry per key and holds every stored value |
| CharacterRegistry.CharacterService.constructor | src/app/core/services/character.service.ts:8-9 | the store starts empty with current name "" |
| CharacterRegistry.CharacterService.CurrentCharacter | src/app/core/services/character.service.ts:11 | what the computation looks up: the record under the current name, none exactly when that key is absent |
| CharacterRegistry.CharacterService.ReadCurrentCharacter | src/app/core/services/character.service.ts:9-11 | the first read computes the lookup and keeps it; every later read returns the kept value; the store is unchanged |
| CharacterRegistry.CharacterService.GetCharacter | src/app/core/services/character.service.ts:13-15 | the stored record, none (undefined) exactly when the key is absent |
| CharacterRegistry.CharacterService.GetCharacters | src/app/core/services/character.service.ts:17-19 | a new array holding the snapshot, one entry per key |
| CharacterRegistry.CharacterService.AddCharacter | src/app/core/services/character.service.ts:29-30 | stores the record under its own name, keeps every other entry and the current name |
| CharacterRegistry.CharacterService.AddCharacterNamed | src/app/core/services/character.service.ts:27-28 | stores the record under the given name whatever its own, keeps every other entry and the current name |
| CharacterRegistry.CharacterService.RemoveCharacter | src/app/core/services/character.service.ts:37-38 | deletes that key only, if present, and keeps the current name |
| CharacterRegistry.CharacterService.RemoveCharacterOf | src/app/core/services/character.service.ts:39-40 | deletes the record's name only, if present |
| CharacterRegistry.CurrentIsStale | src/app/core/services/character.service.ts:11 | after a read, storing a record under the current name leaves what `currentCharacter()` returns unchanged |

## Left out

- UTF-8 decoding, deflate decompression and `JSON.parse` are parameters, not implementations. Results hold for every choice of them.
- `inflateDeflate`'s own "not supported by this browser" error is one more failure of the decompressor parameter.
- `URL.createObjectURL`, `file.text()` and `file.arrayBuffer()` are left out: the object URL is a parameter, and the file's name, media type and bytes are its fields.
- The CRC is never checked by the source, and is not modelled beyond its four bytes.
- Asynchrony (`await`) is left out: each step is modelled as its result.
- `safeParseJson` deletes keys from the parsed object in place. The model returns the object without them; nothing else holds a reference to it.
- `Object.values` follows the object's member order as given: JavaScript's moving of integer-like keys to the front is not modelled.
- Numbers are `real`: only their truthiness (non-zero) matters to the importer, and NaN is not modelled.
- Property reads see own properties only; inherited ones such as `toString` are not modelled.
- CharacterRegistry.CharacterService.AddCharacter: requires the record's `name` to be a string, as the TypeScript type declares. A record whose runtime name is not a string, and the `Map` key it would then use, is not modelled.
- CharacterRegistry.CharacterService.RemoveCharacterOf: requires a string name, for the same reason.
- The registry compares keys as strings and records as values; object identity of the stored records is not modelled.
- CharacterRegistry.CharacterService.CurrentCharacter: states only the value the `computed` callback looks up. The signal's memo is ReadCurrentCharacter, which returns the first read's value for the service's lifetime; change notification to other signals and effects is left out.
- Cards.ConformsV1, Cards.ConformsV2Data, Cards.ConformsV2 and Cards.ConformsBooth carry no contract of their own: they are the declared shapes of `TavernCardV1`, `TavernCardV2` and its `data`, and `CharacterBoothModel` (src/app/shared/models/character-booth.model.ts:1-38); the Conforms lemmas and the Conforming imports are stated with them.
- PngText.Framed (the loop guard and the length check) carries no contract of its own; it is the definition the walk lemmas are stated with.
- PngText.Chunks and PngText.ChunksOf carry no contract of their own; what they promise is stated in the lemmas about them (EndOnlyLast, SerializedChunks, EntriesOfSerialized).

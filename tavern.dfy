/** The card-level half of png-tavern-parser.ts: parsing and sanitising JSON text, recognising
    the two Tavern card schemas, and normalising a recognised card into a booth record. */
module TavernCards {
  import opened Wrappers
  import opened ImportErrors
  import opened JsValues
  import Keys
  import opened Cards

  /** The two own properties the sanitiser deletes. */
  const ProtoKey: string := "__proto__"
  const ConstructorKey: string := "constructor"

  /** The fields `isV1Card` requires to be strings, in the order it checks them. */
  const V1RequiredKeys: seq<string> := [Keys.Name, Keys.Description, Keys.Scenario, Keys.FirstMes, Keys.MesExample]

  // ---- safeParseJson ----

  /** The shallow sanitising step: an array or object loses its own `__proto__` and
      `constructor` properties; any other value is returned as it is. The value comes fresh
      from `JSON.parse` and nothing else holds it, so the deletes are modelled on the value. */
  function Sanitize(v: Json): (r: Json)
    ensures IsObjectLike(v) ==> Prop(r, ProtoKey).None? && Prop(r, ConstructorKey).None?
    ensures forall k :: k != ProtoKey && k != ConstructorKey ==> Prop(r, k) == Prop(v, k)
    ensures !IsObjectLike(v) ==> r == v
    ensures Truthy(r) == Truthy(v) && (r.JObject? <==> v.JObject?) && (r.JArray? <==> v.JArray?)
  {
    if IsObjectLike(v) then DeleteKey(DeleteKey(v, ProtoKey), ConstructorKey) else v
  }

  /** `safeParseJson`: `parse` is `JSON.parse`, None where it throws; a throw gives null. */
  function SafeParseJson(text: string, parse: string -> Option<Json>): (r: Json)
    ensures parse(text).None? ==> r == JNull
    ensures parse(text).Some? ==> r == Sanitize(parse(text).value)
  {
    match parse(text)
    case None => JNull
    case Some(v) => Sanitize(v)
  }

  /** Only a parse failure or a falsy parsed value makes the result falsy. */
  lemma SafeParseTruthy(text: string, parse: string -> Option<Json>)
    ensures Truthy(SafeParseJson(text, parse)) <==> parse(text).Some? && Truthy(parse(text).value)
  {
  }

  /** A parsed value without the two properties comes back unchanged. */
  lemma SanitizeKeepsClean(v: Json)
    requires Prop(v, ProtoKey).None? && Prop(v, ConstructorKey).None?
    ensures Sanitize(v) == v
  {
    if v.JObject? {
      WithoutAbsentKey(v.members, ProtoKey);
      WithoutAbsentKey(v.members, ConstructorKey);
    }
  }

  // ---- the classifiers ----

  /** `isV2Card`: a truthy object whose `spec` is the V2 tag and whose `data` has type object
      (which null has as well). */
  predicate IsV2Card(x: Json): (b: bool)
    ensures b ==> x.JObject? && Prop(x, Keys.Spec) == Some(JString(SpecTag))
    ensures b ==> Prop(x, Keys.Data).Some? && !Prop(x, Keys.Data).value.JString?
    ensures b ==> (Prop(x, Keys.Data).value.JNull? || IsObjectLike(Prop(x, Keys.Data).value))
  {
    && IsObjectLike(x)
    && Prop(x, Keys.Spec) == Some(JString(SpecTag))
    && TypeOf(Prop(x, Keys.Data)) == "object"
  }

  /** `isV1Card`: a truthy object whose five required fields are all strings. */
  predicate IsV1Card(x: Json): (b: bool)
    ensures b ==> forall i :: 0 <= i < |V1RequiredKeys| ==>
      Prop(x, V1RequiredKeys[i]).Some? && Prop(x, V1RequiredKeys[i]).value.JString?
  {
    && IsObjectLike(x)
    && forall i :: 0 <= i < |V1RequiredKeys| ==> TypeOf(Prop(x, V1RequiredKeys[i])) == "string"
  }

  /** What the importer accepts as a card. */
  predicate IsCard(x: Json): (b: bool)
    ensures b ==> x.JObject?
  {
    assert IsV1Card(x) ==> TypeOf(Prop(x, V1RequiredKeys[0])) == "string";
    IsV2Card(x) || IsV1Card(x)
  }

  /** The classifiers in terms of the value's shape: only an object can be a card, since an
      array has none of the properties read. */
  lemma ClassifiersOnShape(x: Json)
    ensures IsV2Card(x) <==>
      x.JObject? && Lookup(x.members, Keys.Spec) == Some(JString(SpecTag)) && Lookup(x.members, Keys.Data).Some?
      && (Lookup(x.members, Keys.Data).value.JNull? || Lookup(x.members, Keys.Data).value.JArray?
          || Lookup(x.members, Keys.Data).value.JObject?)
    ensures IsV1Card(x) <==>
      x.JObject? && StringProp(x, Keys.Name) && StringProp(x, Keys.Description) && StringProp(x, Keys.Scenario)
      && StringProp(x, Keys.FirstMes) && StringProp(x, Keys.MesExample)
  {
    if IsV1Card(x) {
      assert TypeOf(Prop(x, V1RequiredKeys[0])) == "string" && TypeOf(Prop(x, V1RequiredKeys[1])) == "string";
      assert TypeOf(Prop(x, V1RequiredKeys[2])) == "string" && TypeOf(Prop(x, V1RequiredKeys[3])) == "string";
      assert TypeOf(Prop(x, V1RequiredKeys[4])) == "string";
    }
    if x.JObject? && StringProp(x, Keys.Name) && StringProp(x, Keys.Description) && StringProp(x, Keys.Scenario)
      && StringProp(x, Keys.FirstMes) && StringProp(x, Keys.MesExample) {
      forall i | 0 <= i < |V1RequiredKeys|
        ensures TypeOf(Prop(x, V1RequiredKeys[i])) == "string"
      {
      }
    }
  }

  // ---- mapToBooth ----

  /** `a ?? b`: a, unless it is null or undefined. */
  function Nullish(a: Option<Json>, b: Json): Json {
    if a.Some? && !a.value.JNull? then a.value else b
  }

  /** `src.description ?? src.personality ?? ''` */
  function BoothDescription(src: Json): (r: Json)
    ensures !r.JNull?
    ensures r == JString("") || Prop(src, Keys.Description) == Some(r) || Prop(src, Keys.Personality) == Some(r)
  {
    Nullish(Prop(src, Keys.Description), Nullish(Prop(src, Keys.Personality), JString("")))
  }

  /** The description falls through only a null or missing value, never an empty string. */
  lemma DescriptionFallback(src: Json)
    ensures Prop(src, Keys.Description).Some? && !Prop(src, Keys.Description).value.JNull? ==>
      BoothDescription(src) == Prop(src, Keys.Description).value
    ensures ((Prop(src, Keys.Description).None? || Prop(src, Keys.Description).value.JNull?)
             && Prop(src, Keys.Personality).Some? && !Prop(src, Keys.Personality).value.JNull?) ==>
      BoothDescription(src) == Prop(src, Keys.Personality).value
    ensures ((Prop(src, Keys.Description).None? || Prop(src, Keys.Description).value.JNull?)
             && (Prop(src, Keys.Personality).None? || Prop(src, Keys.Personality).value.JNull?)) ==>
      BoothDescription(src) == JString("")
    ensures Prop(src, Keys.Description) == Some(JString("")) ==> BoothDescription(src) == JString("")
  {
  }

  /** The object a card's fields are read from: `data` for a V2 card, the card itself otherwise. */
  function Fields(card: Json): (src: Json)
    requires IsCard(card)
    ensures IsV2Card(card) ==> Some(src) == Prop(card, Keys.Data)
    ensures !IsV2Card(card) ==> src == card
  {
    if IsV2Card(card) then Prop(card, Keys.Data).value else card
  }

  /** `mapToBooth`. Reading a field of `data: null` throws a TypeError. */
  function MapToBooth(card: Json, avatarUrl: string): (r: Result<Booth, Error>)
    requires IsCard(card)
    ensures r.Failure? <==> IsV2Card(card) && Prop(card, Keys.Data) == Some(JNull)
    ensures r.Failure? ==> r.error == NullCardData
    ensures r.Success? ==> r.value.avatarUrl == avatarUrl && r.value.rawCard == card
    ensures r.Success? ==>
      && r.value.name == Prop(Fields(card), Keys.Name)
      && r.value.description == BoothDescription(Fields(card))
      && r.value.scenario == Prop(Fields(card), Keys.Scenario)
      && r.value.greeting == Prop(Fields(card), Keys.FirstMes)
      && r.value.examples == Prop(Fields(card), Keys.MesExample)
    ensures r.Success? && IsV2Card(card) ==>
      && r.value.systemPrompt == Prop(Fields(card), Keys.SystemPrompt)
      && r.value.postHistory == Prop(Fields(card), Keys.PostHistoryInstructions)
      && r.value.tags == Prop(Fields(card), Keys.Tags)
      && r.value.creator == Prop(Fields(card), Keys.Creator)
      && r.value.version == Prop(Fields(card), Keys.CharacterVersion)
    ensures !IsV2Card(card) ==>
      && r.Success?
      && r.value.systemPrompt.None? && r.value.postHistory.None? && r.value.tags.None?
      && r.value.creator.None? && r.value.version.None?
  {
    if IsV2Card(card) then
      var d := Prop(card, Keys.Data).value;
      if d.JNull? then Failure(NullCardData)
      else Success(Booth(
        Prop(d, Keys.Name), avatarUrl, BoothDescription(d),
        Prop(d, Keys.Scenario), Prop(d, Keys.FirstMes), Prop(d, Keys.MesExample),
        Prop(d, Keys.SystemPrompt), Prop(d, Keys.PostHistoryInstructions), Prop(d, Keys.Tags),
        Prop(d, Keys.Creator), Prop(d, Keys.CharacterVersion), card))
    else
      Success(Booth(
        Prop(card, Keys.Name), avatarUrl, BoothDescription(card),
        Prop(card, Keys.Scenario), Prop(card, Keys.FirstMes), Prop(card, Keys.MesExample),
        None, None, None, None, None, card))
  }

  // ---- typed cards through the classifier and the mapping ----

  /** The booth a typed V1 card should become. */
  function V1Booth(c: CardV1, avatarUrl: string): Booth {
    Booth(Some(JString(c.name)), avatarUrl, JString(c.description),
          Some(JString(c.scenario)), Some(JString(c.firstMes)), Some(JString(c.mesExample)),
          None, None, None, None, None, V1ToJson(c))
  }

  /** The booth a typed V2 card should become. */
  function V2Booth(c: CardV2, avatarUrl: string): Booth {
    var d := c.data;
    Booth(Some(JString(d.base.name)), avatarUrl, JString(d.base.description),
          Some(JString(d.base.scenario)), Some(JString(d.base.firstMes)), Some(JString(d.base.mesExample)),
          OptString(d.systemPrompt), OptString(d.postHistoryInstructions), OptStrings(d.tags),
          OptString(d.creator), OptString(d.characterVersion), V2ToJson(c))
  }

  /** A typed V1 card is recognised as V1 only, and becomes its booth. */
  lemma V1CardImports(c: CardV1, avatarUrl: string)
    ensures IsV1Card(V1ToJson(c)) && !IsV2Card(V1ToJson(c))
    ensures MapToBooth(V1ToJson(c), avatarUrl) == Success(V1Booth(c, avatarUrl))
  {
    var x := V1ToJson(c);
    V1ToJsonRead(c, Keys.Spec);
    V1ToJsonConforms(c);
    ClassifiersOnShape(x);
    V1ToJsonRead(c, Keys.Name);
    V1ToJsonRead(c, Keys.Description);
    V1ToJsonRead(c, Keys.Scenario);
    V1ToJsonRead(c, Keys.FirstMes);
    V1ToJsonRead(c, Keys.MesExample);
  }

  /** A typed V2 card is recognised as V2, and becomes its booth. */
  lemma V2CardImports(c: CardV2, avatarUrl: string)
    ensures IsV2Card(V2ToJson(c))
    ensures MapToBooth(V2ToJson(c), avatarUrl) == Success(V2Booth(c, avatarUrl))
  {
    var x := V2ToJson(c);
    var d := c.data;
    V2ToJsonRead(c, Keys.Spec);
    V2ToJsonRead(c, Keys.Data);
    V2DataRead(d, Keys.Name);
    V2DataRead(d, Keys.Description);
    V2DataRead(d, Keys.Scenario);
    V2DataRead(d, Keys.FirstMes);
    V2DataRead(d, Keys.MesExample);
    V2DataRead(d, Keys.SystemPrompt);
    V2DataRead(d, Keys.PostHistoryInstructions);
    V2DataRead(d, Keys.Tags);
    V2DataRead(d, Keys.Creator);
    V2DataRead(d, Keys.CharacterVersion);
  }

  /** Any value of type TavernCardV2 is recognised and becomes a well-typed booth. */
  lemma ConformingV2Imports(x: Json, avatarUrl: string)
    requires ConformsV2(x)
    ensures IsV2Card(x) && MapToBooth(x, avatarUrl).Success?
    ensures ConformsBooth(MapToBooth(x, avatarUrl).value)
  {
    var d := Prop(x, Keys.Data).value;
    assert d.JObject?;
    var b := MapToBooth(x, avatarUrl).value;
    assert b.description == Prop(d, Keys.Description).value;
  }

  /** Any value of type TavernCardV1 is recognised; unless it also passes as V2, it becomes a
      well-typed booth. */
  lemma ConformingV1Imports(x: Json, avatarUrl: string)
    requires ConformsV1(x)
    ensures IsV1Card(x)
    ensures !IsV2Card(x) ==> MapToBooth(x, avatarUrl).Success? && ConformsBooth(MapToBooth(x, avatarUrl).value)
  {
    ClassifiersOnShape(x);
    if !IsV2Card(x) {
      var b := MapToBooth(x, avatarUrl).value;
      assert b.description == Prop(x, Keys.Description).value;
    }
  }

  /** `{spec: 'chara_card_v2', data: null}` passes the V2 check, and mapping it throws. */
  lemma NullDataIsAccepted()
    ensures var x := JObject(Member(Keys.Spec, JString(SpecTag), Member(Keys.Data, JNull, NoMembers)));
      IsV2Card(x) && MapToBooth(x, "").Failure?
  {
    var x := JObject(Member(Keys.Spec, JString(SpecTag), Member(Keys.Data, JNull, NoMembers)));
    assert Prop(x, Keys.Data) == Some(JNull);
  }

  /** `{spec: 'chara_card_v2', data: {}}` passes the V2 check and becomes a booth without a
      name: the check does not look inside `data`. */
  lemma EmptyDataIsAccepted(avatarUrl: string)
    ensures var x := JObject(Member(Keys.Spec, JString(SpecTag), Member(Keys.Data, JObject(NoMembers), NoMembers)));
      IsV2Card(x) && MapToBooth(x, avatarUrl).Success?
      && MapToBooth(x, avatarUrl).value.name.None? && !ConformsBooth(MapToBooth(x, avatarUrl).value)
  {
    var x := JObject(Member(Keys.Spec, JString(SpecTag), Member(Keys.Data, JObject(NoMembers), NoMembers)));
    assert Prop(x, Keys.Data) == Some(JObject(NoMembers));
  }
}

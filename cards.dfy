/** The property names of the Tavern card schemas. */
module Keys {
  const Name: string := "name"
  const Description: string := "description"
  const Personality: string := "personality"
  const Scenario: string := "scenario"
  const FirstMes: string := "first_mes"
  const MesExample: string := "mes_example"
  const CreatorNotes: string := "creator_notes"
  const SystemPrompt: string := "system_prompt"
  const PostHistoryInstructions: string := "post_history_instructions"
  const AlternateGreetings: string := "alternate_greetings"
  const Tags: string := "tags"
  const Creator: string := "creator"
  const CharacterVersion: string := "character_version"
  const CharacterBook: string := "character_book"
  const Extensions: string := "extensions"
  const Spec: string := "spec"
  const SpecVersion: string := "spec_version"
  const Data: string := "data"
}

/** The record shapes of character-booth.model.ts: the two Tavern card schemas, as typed
    datatypes together with the JSON object each one is, and the normalised booth record.
    The importer does not validate a card beyond its classification, so the booth's optional
    fields hold whatever JavaScript value was read; the `Conforms…` predicates say when a
    value has the declared TypeScript shape. */
module Cards {
  import opened Wrappers
  import opened JsValues
  import Keys

  const SpecTag: string := "chara_card_v2"

  /** TavernCardV1: five required strings and an optional personality. */
  datatype CardV1 = CardV1(
    name: string,
    description: string,
    personality: Option<string>,
    scenario: string,
    firstMes: string,
    mesExample: string)

  /** The `data` member of TavernCardV2: the V1 fields plus optional extras. */
  datatype CardV2Data = CardV2Data(
    base: CardV1,
    creatorNotes: Option<string>,
    systemPrompt: Option<string>,
    postHistoryInstructions: Option<string>,
    alternateGreetings: Option<seq<string>>,
    tags: Option<seq<string>>,
    creator: Option<string>,
    characterVersion: Option<string>,
    characterBook: Option<Json>,
    extensions: Option<Members>)

  /** TavernCardV2; its `spec` member is always the literal SpecTag. */
  datatype CardV2 = CardV2(specVersion: Option<string>, data: CardV2Data)

  /** CharacterBoothModel. A field the source declares optional is None when it is unset or
      was read as `undefined`. */
  datatype Booth = Booth(
    name: Option<Json>,
    avatarUrl: string,
    description: Json,
    scenario: Option<Json>,
    greeting: Option<Json>,
    examples: Option<Json>,
    systemPrompt: Option<Json>,
    postHistory: Option<Json>,
    tags: Option<Json>,
    creator: Option<Json>,
    version: Option<Json>,
    rawCard: Json)

  // ---- the JSON object each typed card is ----

  function Strings(ss: seq<string>): (r: seq<Json>)
    ensures |r| == |ss| && forall i :: 0 <= i < |ss| ==> r[i] == JString(ss[i])
  {
    seq(|ss|, i requires 0 <= i < |ss| => JString(ss[i]))
  }

  function OptString(v: Option<string>): Option<Json> {
    if v.Some? then Some(JString(v.value)) else None
  }

  function OptStrings(v: Option<seq<string>>): Option<Json> {
    if v.Some? then Some(JArray(Strings(v.value))) else None
  }

  function OptObject(v: Option<Members>): Option<Json> {
    if v.Some? then Some(JObject(v.value)) else None
  }

  /** The V1 members of c, in declaration order, in front of ms. */
  function V1MembersThen(c: CardV1, ms: Members): Members {
    Put(Keys.Name, JString(c.name),
    Put(Keys.Description, JString(c.description),
    PutOpt(Keys.Personality, OptString(c.personality),
    Put(Keys.Scenario, JString(c.scenario),
    Put(Keys.FirstMes, JString(c.firstMes),
    Put(Keys.MesExample, JString(c.mesExample), ms))))))
  }

  /** The V2-only members of d, in declaration order. */
  function V2ExtraMembers(d: CardV2Data): Members {
    PutOpt(Keys.CreatorNotes, OptString(d.creatorNotes),
    PutOpt(Keys.SystemPrompt, OptString(d.systemPrompt),
    PutOpt(Keys.PostHistoryInstructions, OptString(d.postHistoryInstructions),
    PutOpt(Keys.AlternateGreetings, OptStrings(d.alternateGreetings),
    PutOpt(Keys.Tags, OptStrings(d.tags),
    PutOpt(Keys.Creator, OptString(d.creator),
    PutOpt(Keys.CharacterVersion, OptString(d.characterVersion),
    PutOpt(Keys.CharacterBook, d.characterBook,
    PutOpt(Keys.Extensions, OptObject(d.extensions), NoMembers)))))))))
  }

  /** The members of the `data` object of a typed V2 card. */
  function V2DataMembers(d: CardV2Data): Members {
    V1MembersThen(d.base, V2ExtraMembers(d))
  }

  /** The JSON object a typed V1 card is. */
  function V1ToJson(c: CardV1): Json {
    JObject(V1MembersThen(c, NoMembers))
  }

  /** The JSON object a typed V2 card is. */
  function V2ToJson(c: CardV2): Json {
    JObject(Put(Keys.Spec, JString(SpecTag),
            PutOpt(Keys.SpecVersion, OptString(c.specVersion),
            Put(Keys.Data, JObject(V2DataMembers(c.data)), NoMembers))))
  }

  // ---- the declared TypeScript shapes, as predicates on values ----

  predicate StringProp(x: Json, k: string) {
    Prop(x, k).Some? && Prop(x, k).value.JString?
  }

  predicate OptStringProp(x: Json, k: string) {
    Prop(x, k).None? || Prop(x, k).value.JString?
  }

  predicate IsStringArray(j: Json) {
    j.JArray? && forall i :: 0 <= i < |j.items| ==> j.items[i].JString?
  }

  predicate OptStringArrayProp(x: Json, k: string) {
    Prop(x, k).None? || IsStringArray(Prop(x, k).value)
  }

  /** A value of type TavernCardV1. */
  predicate ConformsV1(x: Json) {
    && x.JObject?
    && StringProp(x, Keys.Name) && StringProp(x, Keys.Description) && OptStringProp(x, Keys.Personality)
    && StringProp(x, Keys.Scenario) && StringProp(x, Keys.FirstMes) && StringProp(x, Keys.MesExample)
  }

  /** A value of type `TavernCardV2['data']`. */
  predicate ConformsV2Data(d: Json) {
    && ConformsV1(d)
    && OptStringProp(d, Keys.CreatorNotes) && OptStringProp(d, Keys.SystemPrompt)
    && OptStringProp(d, Keys.PostHistoryInstructions)
    && OptStringArrayProp(d, Keys.AlternateGreetings) && OptStringArrayProp(d, Keys.Tags)
    && OptStringProp(d, Keys.Creator) && OptStringProp(d, Keys.CharacterVersion)
    && (Prop(d, Keys.Extensions).None? || Prop(d, Keys.Extensions).value.JObject?)
  }

  /** A value of type TavernCardV2. */
  predicate ConformsV2(x: Json) {
    && x.JObject?
    && Prop(x, Keys.Spec) == Some(JString(SpecTag))
    && OptStringProp(x, Keys.SpecVersion)
    && Prop(x, Keys.Data).Some? && ConformsV2Data(Prop(x, Keys.Data).value)
  }

  predicate IsOptString(v: Option<Json>) {
    v.None? || v.value.JString?
  }

  /** A value of type CharacterBoothModel: `rawCard` is a V1 or a V2 card. */
  predicate ConformsBooth(b: Booth) {
    && b.name.Some? && b.name.value.JString?
    && b.description.JString?
    && IsOptString(b.scenario) && IsOptString(b.greeting) && IsOptString(b.examples)
    && IsOptString(b.systemPrompt) && IsOptString(b.postHistory)
    && (b.tags.None? || IsStringArray(b.tags.value))
    && IsOptString(b.creator) && IsOptString(b.version)
    && (ConformsV1(b.rawCard) || ConformsV2(b.rawCard))
  }

  // ---- reading the typed cards back ----

  /** Property k of a typed V1 card as JavaScript reads it; None is `undefined`. */
  function V1Prop(c: CardV1, k: string): Option<Json> {
    if k == Keys.Name then Some(JString(c.name))
    else if k == Keys.Description then Some(JString(c.description))
    else if k == Keys.Personality then OptString(c.personality)
    else if k == Keys.Scenario then Some(JString(c.scenario))
    else if k == Keys.FirstMes then Some(JString(c.firstMes))
    else if k == Keys.MesExample then Some(JString(c.mesExample))
    else None
  }

  /** Property k of the V2-only part of a typed `data` object. */
  function V2ExtraProp(d: CardV2Data, k: string): Option<Json> {
    if k == Keys.CreatorNotes then OptString(d.creatorNotes)
    else if k == Keys.SystemPrompt then OptString(d.systemPrompt)
    else if k == Keys.PostHistoryInstructions then OptString(d.postHistoryInstructions)
    else if k == Keys.AlternateGreetings then OptStrings(d.alternateGreetings)
    else if k == Keys.Tags then OptStrings(d.tags)
    else if k == Keys.Creator then OptString(d.creator)
    else if k == Keys.CharacterVersion then OptString(d.characterVersion)
    else if k == Keys.CharacterBook then d.characterBook
    else if k == Keys.Extensions then OptObject(d.extensions)
    else None
  }

  /** Property k of a typed `data` object. */
  function V2DataProp(d: CardV2Data, k: string): Option<Json> {
    if V1Prop(d.base, k).Some? then V1Prop(d.base, k) else V2ExtraProp(d, k)
  }

  /** Property k of a typed V2 card. */
  function V2Prop(c: CardV2, k: string): Option<Json> {
    if k == Keys.Spec then Some(JString(SpecTag))
    else if k == Keys.SpecVersion then OptString(c.specVersion)
    else if k == Keys.Data then Some(JObject(V2DataMembers(c.data)))
    else None
  }

  /** A key the V1 members of c hold reads from them; any other key reads through to ms. */
  lemma V1MembersRead(c: CardV1, ms: Members, k: string)
    ensures Lookup(V1MembersThen(c, ms), k) == if V1Prop(c, k).Some? then V1Prop(c, k) else Lookup(ms, k)
  {
  }

  lemma V2ExtraMembersRead(d: CardV2Data, k: string)
    ensures Lookup(V2ExtraMembers(d), k) == V2ExtraProp(d, k)
  {
    // the last four members first, then the five in front of them
    var meta := PutOpt(Keys.Creator, OptString(d.creator),
      PutOpt(Keys.CharacterVersion, OptString(d.characterVersion),
      PutOpt(Keys.CharacterBook, d.characterBook,
      PutOpt(Keys.Extensions, OptObject(d.extensions), NoMembers))));
    assert Lookup(meta, k) == if k in {Keys.Creator, Keys.CharacterVersion, Keys.CharacterBook, Keys.Extensions} then V2ExtraProp(d, k) else None;
  }

  /** Reading a property of the JSON object of a typed V1 card reads the card. */
  lemma V1ToJsonRead(c: CardV1, k: string)
    ensures Prop(V1ToJson(c), k) == V1Prop(c, k)
  {
    V1MembersRead(c, NoMembers, k);
  }

  /** Reading a property of the `data` object of a typed V2 card reads the card's data. */
  lemma V2DataRead(d: CardV2Data, k: string)
    ensures Lookup(V2DataMembers(d), k) == V2DataProp(d, k)
  {
    V1MembersRead(d.base, V2ExtraMembers(d), k);
    V2ExtraMembersRead(d, k);
  }

  /** Reading a property of the JSON object of a typed V2 card reads the card. */
  lemma V2ToJsonRead(c: CardV2, k: string)
    ensures Prop(V2ToJson(c), k) == V2Prop(c, k)
  {
  }

  /** Every typed V1 card is a value of type TavernCardV1. */
  lemma V1ToJsonConforms(c: CardV1)
    ensures ConformsV1(V1ToJson(c))
  {
    forall k ensures Prop(V1ToJson(c), k) == V1Prop(c, k) {
      V1ToJsonRead(c, k);
    }
  }

  /** The data object of every typed V2 card is a value of type `TavernCardV2['data']`. */
  lemma V2DataConforms(d: CardV2Data)
    ensures ConformsV2Data(JObject(V2DataMembers(d)))
  {
    var j := JObject(V2DataMembers(d));
    forall k ensures Prop(j, k) == V2DataProp(d, k) {
      V2DataRead(d, k);
    }
    ReadsLikeV2Data(d, j);
  }

  lemma ReadsLikeV2Data(d: CardV2Data, j: Json)
    requires j.JObject? && forall k :: Prop(j, k) == V2DataProp(d, k)
    ensures ConformsV2Data(j)
  {
    assert Prop(j, Keys.Name) == Some(JString(d.base.name));
    assert Prop(j, Keys.Description) == Some(JString(d.base.description));
    assert Prop(j, Keys.Personality) == OptString(d.base.personality);
    assert Prop(j, Keys.Scenario) == Some(JString(d.base.scenario));
    assert Prop(j, Keys.FirstMes) == Some(JString(d.base.firstMes));
    assert Prop(j, Keys.MesExample) == Some(JString(d.base.mesExample));
    assert Prop(j, Keys.CreatorNotes) == OptString(d.creatorNotes);
    assert Prop(j, Keys.SystemPrompt) == OptString(d.systemPrompt);
    assert Prop(j, Keys.PostHistoryInstructions) == OptString(d.postHistoryInstructions);
    assert Prop(j, Keys.AlternateGreetings) == OptStrings(d.alternateGreetings);
    assert Prop(j, Keys.Tags) == OptStrings(d.tags);
    assert Prop(j, Keys.Creator) == OptString(d.creator);
    assert Prop(j, Keys.CharacterVersion) == OptString(d.characterVersion);
    assert Prop(j, Keys.Extensions) == OptObject(d.extensions);
  }

  /** Every typed V2 card is a value of type TavernCardV2. */
  lemma V2ToJsonConforms(c: CardV2)
    ensures ConformsV2(V2ToJson(c))
  {
    V2DataConforms(c.data);
    forall k ensures Prop(V2ToJson(c), k) == V2Prop(c, k) {
      V2ToJsonRead(c, k);
    }
  }
}

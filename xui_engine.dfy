/**
 * The phrase-resolution state machine of the current translation service
 * (projects/rpx-xui-translation, rpx-translation.service.ts), on values.
 *
 * A `State` holds what the service object holds: the current language, the latest value of
 * every phrase's channel (the `BehaviorSubject` of `phrases`, with `known` giving the order
 * of `Object.keys(phrases)`), the per-language pending lists (`requesting`), the single
 * shared debounce timer (`requestTimerSubscription`, as the language its callback captured),
 * the batched requests sent and not yet answered, the language cookie and the values the
 * language stream emitted, and the cached-translation table.
 *
 * Every asynchronous step is an explicit event: `Translate` (the store query answers at once),
 * `Fire` (the debounce timer runs out and the batch is posted) and `Complete` (the answer to
 * one posted batch arrives, or the request fails).
 */
module XuiEngine {
  import opened Wrappers
  import opened Seqs
  import opened Text
  import CaseMatching
  import Db

  const English: string := "en"
  /** `YesOrNoValue.YES`. */
  const YesValue: string := "Yes"
  const InProgressMarker: string := " [Translation in progress]"

  /** `TranslatedData`: the translation, with optional translations of "Yes" and "No". */
  datatype Data = Data(translation: string, yes: Option<string>, no: Option<string>)

  /** One value of the `translations` object of a response: a bare string or structured data. */
  datatype Entry = Plain(text: string) | Structured(data: Data)

  /** A posted batch: its language and the phrases the request carried. */
  datatype Request = Request(lang: string, phrases: seq<string>)

  /** The configuration the engine reads: the validity window (ms) and the test mode flag. */
  datatype Config = Config(validity: nat, testMode: bool)

  datatype State = State(
    language: string,
    cookie: Option<string>,
    languageLog: seq<string>,
    known: seq<string>,
    channels: map<string, Data>,
    requesting: map<string, seq<string>>,
    timer: Option<string>,
    inFlight: seq<Request>,
    store: seq<Db.Record<Data>>,
    nextId: nat)

  /** `{translation: phrase}`: the seed of a new channel and the value published under English. */
  function Identity(phrase: string): Data
  {
    Data(phrase, None, None)
  }

  /** The provisional value published while a phrase waits for its batch. */
  function InProgress(phrase: string): Data
  {
    Data(phrase + InProgressMarker, Some("Yes" + InProgressMarker), Some("No" + InProgressMarker))
  }

  /** `requesting[lang]`, or nothing when the language was never loaded. */
  function Pending(s: State, lang: string): seq<string>
  {
    if lang in s.requesting then s.requesting[lang] else []
  }

  /** A well-formed pending list: no duplicates, no empty phrase, only phrases with a channel. */
  predicate Queued(channels: map<string, Data>, pending: seq<string>)
  {
    Distinct(pending) && forall p :: p in pending ==> p in channels && p != ""
  }

  /**
   * What every reachable state satisfies: one channel per known phrase and no phrase known
   * twice, pending lists without duplicates or the empty phrase and only of known phrases, a
   * pending list for every language a timer or a request refers to, a non-empty one for the
   * language the timer is armed for and a non-empty batch in every request (so no call goes out
   * with an empty phrase list), a well-formed table.
   */
  ghost predicate Inv(s: State)
  {
    && Distinct(s.known)
    && (forall p :: p in s.channels <==> p in s.known)
    && (forall l :: l in s.requesting ==> Queued(s.channels, s.requesting[l]))
    && (s.timer.Some? ==> s.timer.value in s.requesting && s.requesting[s.timer.value] != [])
    && (forall r :: r in s.inFlight ==> r.lang in s.requesting && r.phrases != [])
    && Db.StoreOk(s.store, s.nextId)
  }

  /**
   * The service as constructed: English, unless the language cookie names another language,
   * which is then set; with no (or an empty) cookie, English is written to it.
   */
  function Start(persisted: Option<string>, store: seq<Db.Record<Data>>, nextId: nat, now: int): State
  {
    var base := State(English, persisted, [English], [], map[], map[], None, [], store, nextId);
    if persisted.Some? && persisted.value != "" then SetLanguage(base, persisted.value, now)
    else base.(cookie := Some(English))
  }

  /** `load`: queue the phrase for its language's next batch and re-arm the shared timer. */
  function Load(s: State, phrase: string, lang: string): State
  {
    if lang == English then
      s.(channels := s.channels[phrase := Data(phrase, Some("Yes"), Some("No"))])
    else
      var pending := Pending(s, lang);
      if phrase in pending || phrase == "" then s.(requesting := s.requesting[lang := pending])
      else s.(requesting := s.requesting[lang := pending + [phrase]], timer := Some(lang))
  }

  /** `db.translations.delete(t.id!)`; a row without an id deletes nothing. */
  function Evict(store: seq<Db.Record<Data>>, t: Db.Record<Data>): seq<Db.Record<Data>>
  {
    match t.id
    case Some(id) => Db.Delete(store, id)
    case None => store
  }

  /** Create the phrase's channel, seeded with the phrase itself, unless it exists. */
  function Register(s: State, phrase: string): State
  {
    if phrase in s.channels then s
    else s.(known := s.known + [phrase], channels := s.channels[phrase := Identity(phrase)])
  }

  /** `translate`: publish the best value known now, and queue the phrase when that is not final. */
  function Translate(s: State, phrase: string, now: int): State
  {
    var s1 := Register(s, phrase);
    if s.language == English then s1.(channels := s1.channels[phrase := Identity(phrase)])
    else Refresh(s1, phrase, now)
  }

  /**
   * The non-English half of `translate`: the oldest stored row for the phrase is published when
   * it has not expired; otherwise it is deleted, the in-progress value published and the phrase
   * loaded.
   */
  function Refresh(s: State, phrase: string, now: int): State
  {
    var lang := s.language;
    var hit := Db.Lookup(s.store, phrase, lang);
    if hit.Some? && !Db.IsExpired(hit.value, now) then
      s.(channels := s.channels[phrase := hit.value.translation])
    else
      var store := if hit.Some? then Evict(s.store, hit.value) else s.store;
      Load(s.(store := store, channels := s.channels[phrase := InProgress(phrase)]), phrase, lang)
  }

  /** The value `translate` publishes for a phrase under `lang`, given the stored rows. */
  function Published(store: seq<Db.Record<Data>>, phrase: string, lang: string, now: int): Data
  {
    if lang == English then Identity(phrase)
    else
      var hit := Db.Lookup(store, phrase, lang);
      if hit.Some? && !Db.IsExpired(hit.value, now) then hit.value.translation else InProgress(phrase)
  }

  /** `Object.keys(phrases).forEach((phrase) => this.translate(phrase))`. */
  function Retranslate(s: State, phrases: seq<string>, now: int): State
    decreases |phrases|
  {
    if phrases == [] then s else Retranslate(Translate(s, phrases[0], now), phrases[1..], now)
  }

  /** The `language` setter. */
  function SetLanguage(s: State, lang: string, now: int): State
  {
    if lang == s.language then s
    else Retranslate(s.(language := lang, cookie := Some(lang), languageLog := s.languageLog + [lang]), s.known, now)
  }

  /** `getTranslatedData`: an existing channel is returned as it is, otherwise `translate`. */
  function GetTranslatedData(s: State, phrase: string, now: int): State
  {
    if phrase in s.channels then s else Translate(s, phrase, now)
  }

  /** The timer runs out: the language's pending list is posted as one batch. */
  function Fire(s: State): State
    requires s.timer.Some?
  {
    var lang := s.timer.value;
    s.(timer := None, inFlight := s.inFlight + [Request(lang, Pending(s, lang))])
  }

  /** A bare string becomes `{translation: s}`; structured data passes through. */
  function ToData(e: Entry): Data
  {
    match e
    case Plain(t) => Data(t, None, None)
    case Structured(d) => d
  }

  function Normalize(es: seq<(string, Entry)>): seq<(string, Data)>
  {
    seq(|es|, k requires 0 <= k < |es| => (es[k].0, ToData(es[k].1)))
  }

  /** The value a phrase gets when its batch fails. */
  function FallbackData(phrase: string, testMode: bool): Data
  {
    if testMode then Data("[Test translation for " + phrase + "]", None, None) else Data(phrase, None, None)
  }

  function Fallback(phrases: seq<string>, testMode: bool): seq<(string, Data)>
  {
    seq(|phrases|, k requires 0 <= k < |phrases| => (phrases[k], FallbackData(phrases[k], testMode)))
  }

  /** The translations a completed batch publishes: the response's, or the fallback of the pending list. */
  function Outcome(s: State, cfg: Config, lang: string, response: Option<seq<(string, Entry)>>): seq<(string, Data)>
  {
    match response
    case Some(es) => Normalize(es)
    case None => Fallback(Pending(s, lang), cfg.testMode)
  }

  /** `toAdd`: a record per published translation, valid until `validity`. */
  function Records(results: seq<(string, Data)>, lang: string, validity: int): seq<Db.Record<Data>>
  {
    seq(|results|, k requires 0 <= k < |results| => Db.Create(results[k].0, lang, results[k].1, validity))
  }

  /**
   * The answer to the `i`-th posted batch arrives (`None`: the request failed). Its results
   * are published and added to the table, and then the language's pending list is emptied
   * and the timer slot nulled — whatever was queued or armed since the batch was posted.
   */
  function Complete(s: State, cfg: Config, i: nat, response: Option<seq<(string, Entry)>>, now: int): State
    requires i < |s.inFlight|
  {
    var lang := s.inFlight[i].lang;
    var results := Outcome(s, cfg, lang, response);
    var added := Records(results, lang, now + cfg.validity);
    s.(channels := Publish(s.channels, results),
       store := s.store + Db.Stamp(added, s.nextId),
       nextId := s.nextId + |added|,
       requesting := s.requesting[lang := []],
       timer := None,
       inFlight := s.inFlight[..i] + s.inFlight[i + 1..])
  }

  /** A response the service can process: an object (distinct keys) whose keys all have channels. */
  predicate ResponseFits(s: State, es: seq<(string, Entry)>)
  {
    Distinct(Keys(es)) && forall k :: 0 <= k < |es| ==> es[k].0 in s.channels
  }

  /** The string `getTranslationWithYesOrNo$` picks before matching case: the variant, or the value itself. */
  function Chosen(d: Data, value: string): string
  {
    var variant := if Lower(value) == Lower(YesValue) then d.yes else d.no;
    if variant.Some? && variant.value != "" then variant.value else value
  }

  /**
   * `getTranslationWithYesOrNo$` on the phrase's current data: the chosen variant with the
   * case of `value`'s first character.
   */
  function YesOrNo(d: Data, value: string): (r: string)
    ensures |r| == |Chosen(d, value)| && Lower(r) == Lower(Chosen(d, value))
    ensures value == [] ==> r == Chosen(d, value)
    ensures value != [] && r != [] && CaseMatching.UpperStable(value[0]) ==>
              CaseMatching.UpperStable(r[0]) && r[1..] == Chosen(d, value)[1..]
    ensures value != [] && !CaseMatching.UpperStable(value[0]) ==> r == Lower(Chosen(d, value))
  {
    CaseMatching.MatchCase(value, Chosen(d, value))
  }
}

/**
 * The phrase-resolution state machine of the older translation service
 * (projects/rpx-translation, rpx-translation.service.ts), on values.
 *
 * It is the current service's machine with plain strings for translations: no "yes"/"no"
 * variants, no English branch in `load`, no guard against the empty phrase, no test mode, no
 * language cookie and no language stream. A failed batch publishes every pending phrase as
 * its own translation.
 */
module LegacyEngine {
  import opened Wrappers
  import opened Seqs
  import Db

  const English: string := "en"
  const InProgressMarker: string := " [Translation in progress]"

  /** A posted batch: its language and the phrases the request carried. */
  datatype Request = Request(lang: string, phrases: seq<string>)

  datatype State = State(
    language: string,
    known: seq<string>,
    channels: map<string, string>,
    requesting: map<string, seq<string>>,
    timer: Option<string>,
    inFlight: seq<Request>,
    store: seq<Db.Record<string>>,
    nextId: nat)

  function InProgress(phrase: string): string
  {
    phrase + InProgressMarker
  }

  function Pending(s: State, lang: string): seq<string>
  {
    if lang in s.requesting then s.requesting[lang] else []
  }

  /** A well-formed pending list: no duplicates, only phrases with a channel. */
  predicate Queued(channels: map<string, string>, pending: seq<string>)
  {
    Distinct(pending) && forall p :: p in pending ==> p in channels
  }

  /**
   * What every reachable state satisfies: one subject per known phrase and no phrase known
   * twice, pending lists without duplicates and only of known phrases, a non-empty pending list
   * for the language the timer is armed for and a non-empty batch in every request, a
   * well-formed table.
   */
  ghost predicate Inv(s: State)
  {
    && Distinct(s.known)
    && (forall p :: p in s.channels <==> p in s.known)
    && (forall l :: l in s.requesting ==> Queued(s.channels, s.requesting[l]))
    && (s.timer.Some? ==> Pending(s, s.timer.value) != [])
    && (forall r :: r in s.inFlight ==> r.phrases != [])
    && Db.StoreOk(s.store, s.nextId)
  }

  /** The service as constructed: English, nothing requested, the table as it is. */
  function Start(store: seq<Db.Record<string>>, nextId: nat): State
  {
    State(English, [], map[], map[], None, [], store, nextId)
  }

  /** `load`: queue the phrase (the empty phrase too) and re-arm the shared timer. */
  function Load(s: State, phrase: string, lang: string): State
  {
    var pending := Pending(s, lang);
    if phrase in pending then s.(requesting := s.requesting[lang := pending])
    else s.(requesting := s.requesting[lang := pending + [phrase]], timer := Some(lang))
  }

  function Evict(store: seq<Db.Record<string>>, t: Db.Record<string>): seq<Db.Record<string>>
  {
    match t.id
    case Some(id) => Db.Delete(store, id)
    case None => store
  }

  function Register(s: State, phrase: string): State
  {
    if phrase in s.channels then s
    else s.(known := s.known + [phrase], channels := s.channels[phrase := phrase])
  }

  /** `translate`. */
  function Translate(s: State, phrase: string, now: int): State
  {
    var s1 := Register(s, phrase);
    if s.language == English then s1.(channels := s1.channels[phrase := phrase])
    else Refresh(s1, phrase, now)
  }

  /** The non-English half of `translate`. */
  function Refresh(s: State, phrase: string, now: int): State
  {
    var lang := s.language;
    var hit := Db.Lookup(s.store, phrase, lang);
    if hit.Some? && !Db.IsExpired(hit.value, now) then
      s.(channels := s.channels[phrase := hit.value.translation])
    else
      var store := if hit.Some? then Evict(s.store, hit.value) else s.store;
      Load(s.(store := store, channels := s.channels[phrase := InProgress(phrase)]), phrase, lang)
  }

  /** The value `translate` publishes for a phrase under `lang`, given the stored rows. */
  function Published(store: seq<Db.Record<string>>, phrase: string, lang: string, now: int): string
  {
    if lang == English then phrase
    else
      var hit := Db.Lookup(store, phrase, lang);
      if hit.Some? && !Db.IsExpired(hit.value, now) then hit.value.translation else InProgress(phrase)
  }

  function Retranslate(s: State, phrases: seq<string>, now: int): State
    decreases |phrases|
  {
    if phrases == [] then s else Retranslate(Translate(s, phrases[0], now), phrases[1..], now)
  }

  /** The `language` setter. */
  function SetLanguage(s: State, lang: string, now: int): State
  {
    if lang == s.language then s else Retranslate(s.(language := lang), s.known, now)
  }

  /** The timer runs out: the language's pending list is posted as one batch. */
  function Fire(s: State): State
    requires s.timer.Some?
  {
    var lang := s.timer.value;
    s.(timer := None, inFlight := s.inFlight + [Request(lang, Pending(s, lang))])
  }

  /** A failed batch: every pending phrase is its own translation. */
  function Echo(phrases: seq<string>): seq<(string, string)>
  {
    seq(|phrases|, k requires 0 <= k < |phrases| => (phrases[k], phrases[k]))
  }

  function Outcome(s: State, lang: string, response: Option<seq<(string, string)>>): seq<(string, string)>
  {
    match response
    case Some(es) => es
    case None => Echo(Pending(s, lang))
  }

  function Records(results: seq<(string, string)>, lang: string, validity: int): seq<Db.Record<string>>
  {
    seq(|results|, k requires 0 <= k < |results| => Db.Create(results[k].0, lang, results[k].1, validity))
  }

  /** The answer to the `i`-th posted batch arrives (`None`: the request failed). */
  function Complete(s: State, validity: nat, i: nat, response: Option<seq<(string, string)>>, now: int): State
    requires i < |s.inFlight|
  {
    var lang := s.inFlight[i].lang;
    var results := Outcome(s, lang, response);
    var added := Records(results, lang, now + validity);
    s.(channels := Publish(s.channels, results),
       store := s.store + Db.Stamp(added, s.nextId),
       nextId := s.nextId + |added|,
       requesting := s.requesting[lang := []],
       timer := None,
       inFlight := s.inFlight[..i] + s.inFlight[i + 1..])
  }

  /** A response the service can process: distinct keys, each with a channel. */
  predicate ResponseFits(s: State, es: seq<(string, string)>)
  {
    Distinct(Keys(es)) && forall k :: 0 <= k < |es| ==> es[k].0 in s.channels
  }
}

/** What the current translation service promises, proved on the engine of XuiEngine. */
module XuiProperties {
  import opened Wrappers
  import opened Seqs
  import opened Text
  import CaseMatching
  import Db
  import opened XuiEngine

  // ----- load -----

  /**
   * `load` for a language other than English: the phrase is appended to that language's
   * pending list unless it is already there or empty, and only an append re-arms the shared
   * timer (for this language, whatever language it was armed for). Nothing else changes.
   */
  lemma LoadQueuesOnce(s: State, phrase: string, lang: string)
    requires lang != English
    ensures var s' := Load(s, phrase, lang);
      var appended := phrase !in Pending(s, lang) && phrase != "";
      && Pending(s', lang) == (if appended then Pending(s, lang) + [phrase] else Pending(s, lang))
      && s'.timer == (if appended then Some(lang) else s.timer)
      && (forall l :: l != lang ==> Pending(s', l) == Pending(s, l))
      && (Distinct(Pending(s, lang)) ==> Distinct(Pending(s', lang)))
      && ("" in Pending(s', lang) ==> "" in Pending(s, lang))
      && s'.channels == s.channels && s'.store == s.store && s'.inFlight == s.inFlight
  {
  }

  /** `load` under English publishes the phrase with plain "Yes"/"No" and queues nothing. */
  lemma LoadInEnglish(s: State, phrase: string)
    ensures var s' := Load(s, phrase, English);
      && phrase in s'.channels && s'.channels[phrase] == Data(phrase, Some("Yes"), Some("No"))
      && s'.requesting == s.requesting && s'.timer == s.timer && s'.store == s.store
  {
  }

  lemma LoadKeepsInv(s: State, phrase: string, lang: string)
    requires Inv(s) && phrase in s.channels
    ensures Inv(Load(s, phrase, lang))
  {
    if lang != English {
      var s' := Load(s, phrase, lang);
      var pending := Pending(s, lang);
      assert Queued(s.channels, pending);
      forall l | l in s'.requesting ensures Queued(s'.channels, s'.requesting[l]) {
        if l != lang { assert s'.requesting[l] == s.requesting[l]; }
      }
    }
  }

  // ----- translate -----

  /** The non-English half of `translate` publishes `Published` and changes only the channels, the table and the queue. */
  lemma RefreshPublishes(s: State, phrase: string, now: int)
    requires s.language != English
    ensures var s' := Refresh(s, phrase, now);
      && s'.channels == s.channels[phrase := Published(s.store, phrase, s.language, now)]
      && s'.known == s.known && s'.language == s.language && s'.cookie == s.cookie
      && s'.languageLog == s.languageLog && s'.inFlight == s.inFlight && s'.nextId == s.nextId
  {
  }

  /**
   * `translate` creates a phrase's channel at most once, seeded with `{translation: phrase}`,
   * and never removes one: the known phrases only grow, in order of first request.
   */
  lemma TranslateRegisters(s: State, phrase: string, now: int)
    ensures var s' := Translate(s, phrase, now);
      && s'.known == (if phrase in s.channels then s.known else s.known + [phrase])
      && s'.channels.Keys == s.channels.Keys + {phrase}
      && s'.language == s.language && s'.inFlight == s.inFlight
      && s'.cookie == s.cookie && s'.languageLog == s.languageLog
  {
    if s.language != English {
      RefreshPublishes(Register(s, phrase), phrase, now);
    }
  }

  /** The value `translate` leaves on the phrase's channel. */
  lemma TranslatePublishes(s: State, phrase: string, now: int)
    ensures var s' := Translate(s, phrase, now);
      phrase in s'.channels && s'.channels[phrase] == Published(s.store, phrase, s.language, now)
  {
    if s.language != English {
      RefreshPublishes(Register(s, phrase), phrase, now);
    }
  }

  /** Under English the phrase itself is published; the table, the queues and the timer are untouched. */
  lemma TranslateInEnglish(s: State, phrase: string, now: int)
    requires s.language == English
    ensures var s' := Translate(s, phrase, now);
      && s'.channels == s.channels[phrase := Identity(phrase)]
      && s'.store == s.store && s'.nextId == s.nextId
      && s'.requesting == s.requesting && s'.timer == s.timer && s'.inFlight == s.inFlight
  {
  }

  /** An unexpired stored record is published unchanged, and nothing is queued or deleted. */
  lemma TranslateFreshRecord(s: State, phrase: string, now: int, t: Db.Record<Data>)
    requires s.language != English
    requires Db.Lookup(s.store, phrase, s.language) == Some(t) && !Db.IsExpired(t, now)
    ensures var s' := Translate(s, phrase, now);
      && s'.channels == s.channels[phrase := t.translation]
      && s'.store == s.store && s'.nextId == s.nextId
      && s'.requesting == s.requesting && s'.timer == s.timer && s'.inFlight == s.inFlight
  {
  }

  /** A phrase with a fresh row for the current language. */
  predicate FreshIn(s: State, phrase: string, now: int)
  {
    var hit := Db.Lookup(s.store, phrase, s.language);
    hit.Some? && !Db.IsExpired(hit.value, now)
  }

  /**
   * Re-translating phrases that all have fresh rows queues nothing: the pending lists, the
   * timer, the posted batches and the table are left as they were.
   */
  lemma {:induction false} RetranslateAllFresh(s: State, phrases: seq<string>, now: int)
    requires s.language != English
    requires forall p :: p in phrases ==> FreshIn(s, p, now)
    ensures var s' := Retranslate(s, phrases, now);
      && s'.requesting == s.requesting && s'.timer == s.timer
      && s'.inFlight == s.inFlight && s'.store == s.store && s'.language == s.language
    decreases |phrases|
  {
    if phrases != [] {
      assert phrases[0] in phrases;
      var t := Db.Lookup(s.store, phrases[0], s.language).value;
      TranslateFreshRecord(s, phrases[0], now, t);
      var s1 := Translate(s, phrases[0], now);
      assert s1.language == s.language;
      forall p | p in phrases[1..] ensures FreshIn(s1, p, now) {
        assert p in phrases;
      }
      RetranslateAllFresh(s1, phrases[1..], now);
    }
  }

  /**
   * Switching to a language in which every known phrase has a fresh row arms no timer: a
   * timer armed for the earlier language stays armed for it, and its batch is posted as usual.
   */
  lemma SetLanguageAllFresh(s: State, lang: string, now: int)
    requires lang != s.language && lang != English
    requires forall p :: p in s.known ==> FreshIn(s.(language := lang), p, now)
    ensures var s' := SetLanguage(s, lang, now);
      && s'.language == lang && s'.timer == s.timer
      && s'.requesting == s.requesting && s'.inFlight == s.inFlight && s'.store == s.store
  {
    var s1 := s.(language := lang, cookie := Some(lang), languageLog := s.languageLog + [lang]);
    forall p | p in s.known ensures FreshIn(s1, p, now) {
      assert FreshIn(s.(language := lang), p, now);
    }
    RetranslateAllFresh(s1, s.known, now);
  }

  /** Evicting the row a lookup found removes that row and keeps every other. */
  lemma EvictLookedUp(store: seq<Db.Record<Data>>, nextId: nat, phrase: string, lang: string)
    requires Db.StoreOk(store, nextId)
    ensures var hit := Db.Lookup(store, phrase, lang);
      hit.Some? ==> hit.value !in Evict(store, hit.value) &&
                    forall t :: t in store && t != hit.value ==> t in Evict(store, hit.value)
  {
    var hit := Db.Lookup(store, phrase, lang);
    if hit.Some? {
      assert hit.value.id.Some?;
      Db.DeleteRemovesOnly(store, nextId, hit.value);
    }
  }

  /**
   * Without an unexpired record, an expired one is deleted from the table, the in-progress
   * value is published and the phrase goes through `load`.
   */
  lemma TranslateStaleOrMissing(s: State, phrase: string, now: int)
    requires Db.StoreOk(s.store, s.nextId) && s.language != English
    requires var hit := Db.Lookup(s.store, phrase, s.language); hit.None? || Db.IsExpired(hit.value, now)
    ensures var s' := Translate(s, phrase, now);
      var lang := s.language;
      var hit := Db.Lookup(s.store, phrase, lang);
      var appended := phrase !in Pending(s, lang) && phrase != "";
      && s'.channels == s.channels[phrase := InProgress(phrase)]
      && (hit.Some? ==> hit.value !in s'.store && forall t :: t in s.store && t != hit.value ==> t in s'.store)
      && (hit.None? ==> s'.store == s.store)
      && Pending(s', lang) == (if appended then Pending(s, lang) + [phrase] else Pending(s, lang))
      && s'.timer == (if appended then Some(lang) else s.timer)
      && s'.inFlight == s.inFlight
  {
    var lang := s.language;
    var hit := Db.Lookup(s.store, phrase, lang);
    EvictLookedUp(s.store, s.nextId, phrase, lang);
    var s1 := Register(s, phrase);
    assert s1.store == s.store && s1.requesting == s.requesting && s1.timer == s.timer && s1.language == lang;
    var store := if hit.Some? then Evict(s1.store, hit.value) else s1.store;
    var s2 := s1.(store := store, channels := s1.channels[phrase := InProgress(phrase)]);
    assert Pending(s2, lang) == Pending(s, lang);
    assert Translate(s, phrase, now) == Load(s2, phrase, lang);
    LoadQueuesOnce(s2, phrase, lang);
  }


  /**
   * A phrase without a channel becomes known, with a channel seeded with `{translation: phrase}`;
   * a phrase with a channel is left alone. Either way the invariant is kept.
   */
  lemma RegisterKeepsInv(s: State, phrase: string)
    requires Inv(s)
    ensures Inv(Register(s, phrase)) && phrase in Register(s, phrase).channels
    ensures Register(s, phrase).channels[phrase] ==
              if phrase in s.channels then s.channels[phrase] else Identity(phrase)
    ensures Register(s, phrase).known == (if phrase in s.channels then s.known else s.known + [phrase])
  {
    var s1 := Register(s, phrase);
    forall l | l in s1.requesting ensures Queued(s1.channels, s1.requesting[l]) {
      assert Queued(s.channels, s.requesting[l]);
    }
    assert Distinct(s1.known) by {
      if phrase !in s.channels {
        forall i, j | 0 <= i < j < |s1.known| ensures s1.known[i] != s1.known[j] {
          if j == |s.known| { assert s1.known[i] in s.known; }
        }
      }
    }
  }

  /** A new value on an existing channel, with a well-formed table, keeps the invariant. */
  lemma RepublishKeepsInv(s: State, phrase: string, d: Data, store: seq<Db.Record<Data>>)
    requires Inv(s) && phrase in s.channels && Db.StoreOk(store, s.nextId)
    ensures Inv(s.(channels := s.channels[phrase := d], store := store))
  {
    var s2 := s.(channels := s.channels[phrase := d], store := store);
    forall l | l in s2.requesting ensures Queued(s2.channels, s2.requesting[l]) {
      assert Queued(s.channels, s.requesting[l]);
    }
  }

  lemma RefreshKeepsInv(s: State, phrase: string, now: int)
    requires Inv(s) && phrase in s.channels && s.language != English
    ensures Inv(Refresh(s, phrase, now))
  {
    var lang := s.language;
    var hit := Db.Lookup(s.store, phrase, lang);
    if hit.Some? && !Db.IsExpired(hit.value, now) {
      RepublishKeepsInv(s, phrase, hit.value.translation, s.store);
    } else {
      if hit.Some? && hit.value.id.Some? {
        Db.DeleteKeepsStoreOk(s.store, s.nextId, hit.value.id.value);
      }
      var store := if hit.Some? then Evict(s.store, hit.value) else s.store;
      RepublishKeepsInv(s, phrase, InProgress(phrase), store);
      LoadKeepsInv(s.(channels := s.channels[phrase := InProgress(phrase)], store := store), phrase, lang);
    }
  }

  lemma TranslateKeepsInv(s: State, phrase: string, now: int)
    requires Inv(s)
    ensures Inv(Translate(s, phrase, now))
  {
    var s1 := Register(s, phrase);
    RegisterKeepsInv(s, phrase);
    if s.language != English {
      RefreshKeepsInv(s1, phrase, now);
    } else {
      RepublishKeepsInv(s1, phrase, Identity(phrase), s1.store);
    }
  }

  /** The table after the non-English half of `translate`: only a stale row for the phrase is deleted. */
  lemma RefreshStore(s: State, phrase: string, now: int)
    ensures var hit := Db.Lookup(s.store, phrase, s.language);
      Refresh(s, phrase, now).store ==
        (if hit.Some? && Db.IsExpired(hit.value, now) then Evict(s.store, hit.value) else s.store)
  {
  }

  /** `translate` touches no other phrase: neither its channel nor its stored rows for this language. */
  lemma TranslateFrame(s: State, phrase: string, now: int)
    requires Db.StoreOk(s.store, s.nextId)
    ensures forall q :: q != phrase && q in s.channels ==>
      q in Translate(s, phrase, now).channels && Translate(s, phrase, now).channels[q] == s.channels[q]
    ensures forall q :: q != phrase ==>
      Db.Lookup(Translate(s, phrase, now).store, q, s.language) == Db.Lookup(s.store, q, s.language)
  {
    var lang := s.language;
    var s1 := Register(s, phrase);
    if lang != English {
      RefreshPublishes(s1, phrase, now);
      RefreshStore(s1, phrase, now);
      var hit := Db.Lookup(s.store, phrase, lang);
      if hit.Some? && Db.IsExpired(hit.value, now) {
        var id := hit.value.id.value;
        forall q | q != phrase
          ensures Db.Lookup(Db.Delete(s.store, id), q, lang) == Db.Lookup(s.store, q, lang)
        {
          forall t | t in s.store && t.id == Some(id) ensures !Db.Matches(t, q, lang) {
            Db.UniqueKeys(s.store, s.nextId, t, hit.value);
          }
          Db.LookupAfterDelete(s.store, id, q, lang);
        }
      }
    }
  }

  // ----- language -----

  lemma TranslateKeepsStoreOk(s: State, phrase: string, now: int)
    requires Db.StoreOk(s.store, s.nextId)
    ensures Db.StoreOk(Translate(s, phrase, now).store, Translate(s, phrase, now).nextId)
  {
    var s1 := Register(s, phrase);
    if s.language != English {
      RefreshPublishes(s1, phrase, now);
      RefreshStore(s1, phrase, now);
      var hit := Db.Lookup(s.store, phrase, s.language);
      if hit.Some? && hit.value.id.Some? {
        Db.DeleteKeepsStoreOk(s.store, s.nextId, hit.value.id.value);
      }
    }
  }

  /** Re-translating known phrases keeps the invariant and adds no phrase. */
  lemma {:induction false} RetranslateKeepsInv(s: State, ps: seq<string>, now: int)
    requires Inv(s) && forall p :: p in ps ==> p in s.channels
    ensures Inv(Retranslate(s, ps, now))
    ensures Retranslate(s, ps, now).known == s.known && Retranslate(s, ps, now).language == s.language
    ensures Retranslate(s, ps, now).cookie == s.cookie && Retranslate(s, ps, now).languageLog == s.languageLog
    decreases |ps|
  {
    if ps != [] {
      var s1 := Translate(s, ps[0], now);
      TranslateKeepsInv(s, ps[0], now);
      TranslateRegisters(s, ps[0], now);
      assert forall q :: q in ps[1..] ==> q in ps;
      RetranslateKeepsInv(s1, ps[1..], now);
    }
  }

  /**
   * Re-translating a list of distinct phrases leaves on each of them the value `translate`
   * publishes from the table as it was before, and leaves the other phrases alone.
   */
  lemma {:induction false} RetranslatePublishes(s: State, ps: seq<string>, now: int)
    requires Db.StoreOk(s.store, s.nextId) && Distinct(ps)
    ensures forall p :: p in ps ==>
      p in Retranslate(s, ps, now).channels && Retranslate(s, ps, now).channels[p] == Published(s.store, p, s.language, now)
    ensures forall q :: q in s.channels && q !in ps ==>
      q in Retranslate(s, ps, now).channels && Retranslate(s, ps, now).channels[q] == s.channels[q]
    ensures forall q :: q !in ps ==> Db.Lookup(Retranslate(s, ps, now).store, q, s.language) == Db.Lookup(s.store, q, s.language)
    decreases |ps|
  {
    if ps != [] {
      var p := ps[0];
      var s1 := Translate(s, p, now);
      TranslateKeepsStoreOk(s, p, now);
      TranslateRegisters(s, p, now);
      TranslatePublishes(s, p, now);
      TranslateFrame(s, p, now);
      var rest := ps[1..];
      assert ps == [p] + rest;
      assert p !in rest by {
        forall j | 0 <= j < |rest| ensures rest[j] != p {
          assert rest[j] == ps[j + 1];
        }
      }
      assert Distinct(rest) by {
        forall i, j | 0 <= i < j < |rest| ensures rest[i] != rest[j] {
          assert ps[i + 1] != ps[j + 1];
        }
      }
      RetranslatePublishes(s1, rest, now);
      var s' := Retranslate(s1, rest, now);
      assert s' == Retranslate(s, ps, now);
      forall q | q in ps ensures q in s'.channels && s'.channels[q] == Published(s.store, q, s.language, now) {
        if q != p {
          assert q in rest;
          assert Db.Lookup(s1.store, q, s.language) == Db.Lookup(s.store, q, s.language);
        }
      }
    }
  }

  /** Recording a new language, in the cookie and on the language stream, keeps the invariant. */
  lemma RelabelKeepsInv(s: State, lang: string)
    requires Inv(s)
    ensures Inv(s.(language := lang, cookie := Some(lang), languageLog := s.languageLog + [lang]))
  {
    var s1 := s.(language := lang, cookie := Some(lang), languageLog := s.languageLog + [lang]);
    assert s1.channels == s.channels && s1.requesting == s.requesting;
  }

  /**
   * Setting the language to a new value records it, writes the cookie, emits it, and
   * re-translates every known phrase under it: each channel then holds the stored
   * translation when an unexpired one exists, the in-progress value otherwise (or the phrase
   * itself under English). No phrase becomes known or unknown.
   */
  lemma SetLanguageRetranslates(s: State, lang: string, now: int)
    requires Inv(s) && lang != s.language
    ensures var s' := SetLanguage(s, lang, now);
      && Inv(s')
      && s'.language == lang && s'.cookie == Some(lang) && s'.languageLog == s.languageLog + [lang]
      && s'.known == s.known
      && (forall p :: p in s.known ==> p in s'.channels && s'.channels[p] == Published(s.store, p, lang, now))
  {
    var s1 := s.(language := lang, cookie := Some(lang), languageLog := s.languageLog + [lang]);
    RelabelKeepsInv(s, lang);
    RetranslateKeepsInv(s1, s.known, now);
    RetranslatePublishes(s1, s.known, now);
  }

  /** Setting the current language again changes nothing: no cookie write, no emission, no re-translation. */
  lemma SetLanguageUnchanged(s: State, now: int)
    ensures SetLanguage(s, s.language, now) == s
  {
  }

  lemma SetLanguageKeepsInv(s: State, lang: string, now: int)
    requires Inv(s)
    ensures Inv(SetLanguage(s, lang, now))
  {
    if lang != s.language {
      SetLanguageRetranslates(s, lang, now);
    }
  }

  /**
   * The service starts in English and writes English to an empty cookie; a language found in
   * the cookie is set at once.
   */
  lemma StartLanguage(persisted: Option<string>, store: seq<Db.Record<Data>>, nextId: nat, now: int)
    requires Db.StoreOk(store, nextId)
    ensures var s := Start(persisted, store, nextId, now);
      && Inv(s) && s.known == [] && s.requesting == map[] && s.timer == None
      && (persisted.None? || persisted == Some("") ==> s.language == English && s.cookie == Some(English))
      && (persisted.Some? && persisted.value != "" ==> s.language == persisted.value && s.cookie == persisted)
  {
  }

  // ----- a batch completes -----

  lemma OutcomeKeys(s: State, cfg: Config, lang: string, response: Option<seq<(string, Entry)>>)
    requires Inv(s) && (response.Some? ==> ResponseFits(s, response.value))
    ensures var results := Outcome(s, cfg, lang, response);
      Distinct(Keys(results)) && forall q :: q in Keys(results) ==> q in s.channels
  {
    var results := Outcome(s, cfg, lang, response);
    match response
    case Some(es) =>
      assert Keys(results) == Keys(es);
    case None =>
      assert Keys(results) == Pending(s, lang);
  }

  lemma CompleteKeepsInv(s: State, cfg: Config, i: nat, response: Option<seq<(string, Entry)>>, now: int)
    requires Inv(s) && i < |s.inFlight|
    requires response.Some? ==> ResponseFits(s, response.value)
    ensures Inv(Complete(s, cfg, i, response, now))
  {
    var lang := s.inFlight[i].lang;
    var results := Outcome(s, cfg, lang, response);
    var added := Records(results, lang, now + cfg.validity);
    OutcomeKeys(s, cfg, lang, response);
    PublishKeys(s.channels, results);
    Db.BulkAddKeepsStoreOk(s.store, s.nextId, added);
    var s' := Complete(s, cfg, i, response, now);
    assert s'.channels == Publish(s.channels, results);
    assert s'.store == s.store + Db.Stamp(added, s.nextId) && s'.nextId == s.nextId + |added|;
    assert s'.known == s.known && s'.timer == None;
    assert forall p :: p in s'.channels <==> p in s.channels;
    RemoveAtKeeps(s.inFlight, i);
    forall r | r in s'.inFlight ensures r.lang in s'.requesting && r.phrases != [] {
      assert r in s.inFlight;
    }
    forall l | l in s'.requesting ensures Queued(s'.channels, s'.requesting[l]) {
      if l != lang { assert s'.requesting[l] == s.requesting[l]; }
    }
  }

  /** Retiring the `i`-th batch leaves only batches that were in flight before. */
  lemma RemoveAtKeeps(xs: seq<Request>, i: nat)
    requires i < |xs|
    ensures forall r :: r in xs[..i] + xs[i + 1..] ==> r in xs
  {
    forall r | r in xs[..i] + xs[i + 1..] ensures r in xs {
      if r in xs[..i] {
        var j :| 0 <= j < i && xs[..i][j] == r;
        assert xs[j] == r;
      } else {
        var j :| 0 <= j < |xs[i + 1..]| && xs[i + 1..][j] == r;
        assert xs[i + 1 + j] == r;
      }
    }
  }

  /**
   * The rows `bulkAdd` appends for some results: one per result, in order, carrying its phrase,
   * the language, its value and the expiry, under consecutive keys from `nextId`.
   */
  function NewRows(results: seq<(string, Data)>, lang: string, validity: int, nextId: nat): seq<Db.Record<Data>>
  {
    seq(|results|, k requires 0 <= k < |results| => Db.Record(Some(nextId + k), results[k].0, lang, results[k].1, validity))
  }

  /** The table after a completed batch: the old rows, then one new row per result. */
  lemma CompleteStore(s: State, cfg: Config, i: nat, response: Option<seq<(string, Entry)>>, now: int)
    requires i < |s.inFlight|
    ensures var lang := s.inFlight[i].lang;
      Complete(s, cfg, i, response, now).store ==
        s.store + NewRows(Outcome(s, cfg, lang, response), lang, now + cfg.validity, s.nextId)
  {
    var lang := s.inFlight[i].lang;
    RecordsAppended(Outcome(s, cfg, lang, response), lang, now + cfg.validity, s.nextId);
  }

  /** Adding the records of some results with `bulkAdd` appends exactly their new rows. */
  lemma RecordsAppended(results: seq<(string, Data)>, lang: string, validity: int, nextId: nat)
    ensures Db.Stamp(Records(results, lang, validity), nextId) == NewRows(results, lang, validity, nextId)
  {
  }

  /**
   * When a batch completes, every translation it yields is published on its phrase's channel
   * and added to the table as a fresh row valid until now plus the validity window; then the
   * language's pending list is empty, the timer slot is null and the batch is no longer in flight.
   */
  lemma CompleteResolves(s: State, cfg: Config, i: nat, response: Option<seq<(string, Entry)>>, now: int)
    requires Inv(s) && i < |s.inFlight|
    requires response.Some? ==> ResponseFits(s, response.value)
    ensures var lang := s.inFlight[i].lang;
      var results := Outcome(s, cfg, lang, response);
      var s' := Complete(s, cfg, i, response, now);
      && Pending(s', lang) == [] && s'.timer == None
      && s'.inFlight == s.inFlight[..i] + s.inFlight[i + 1..]
      && (forall k :: 0 <= k < |results| ==>
            results[k].0 in s'.channels && s'.channels[results[k].0] == results[k].1)
      && (forall q :: q in s.channels && q !in Keys(results) ==> q in s'.channels && s'.channels[q] == s.channels[q])
      && s'.store == s.store + NewRows(results, lang, now + cfg.validity, s.nextId)
  {
    var lang := s.inFlight[i].lang;
    var results := Outcome(s, cfg, lang, response);
    var s' := Complete(s, cfg, i, response, now);
    OutcomeKeys(s, cfg, lang, response);
    PublishValues(s.channels, results);
    assert s'.channels == Publish(s.channels, results);
    CompleteStore(s, cfg, i, response, now);
  }

  /**
   * Completing a batch touches nothing else: channels outside its results keep their values,
   * other languages' pending lists, the language and the known phrases are unchanged.
   */
  lemma CompleteFrame(s: State, cfg: Config, i: nat, response: Option<seq<(string, Entry)>>, now: int)
    requires Inv(s) && i < |s.inFlight|
    requires response.Some? ==> ResponseFits(s, response.value)
    ensures var lang := s.inFlight[i].lang;
      var results := Outcome(s, cfg, lang, response);
      var s' := Complete(s, cfg, i, response, now);
      && (forall q :: q in s.channels && q !in Keys(results) ==> q in s'.channels && s'.channels[q] == s.channels[q])
      && (forall l :: l != lang ==> Pending(s', l) == Pending(s, l))
      && s'.language == s.language && s'.known == s.known
  {
    var lang := s.inFlight[i].lang;
    OutcomeKeys(s, cfg, lang, response);
    PublishValues(s.channels, Outcome(s, cfg, lang, response));
  }

  /** A successful response: a bare string is published as `{translation: s}`, structured data as it is. */
  lemma ResponsePublished(s: State, cfg: Config, i: nat, es: seq<(string, Entry)>, now: int)
    requires Inv(s) && i < |s.inFlight| && ResponseFits(s, es)
    ensures var s' := Complete(s, cfg, i, Some(es), now);
      forall k :: 0 <= k < |es| ==>
        (es[k].0 in s'.channels && s'.channels[es[k].0] == match es[k].1 { case Plain(t) => Data(t, None, None) case Structured(d) => d })
  {
    CompleteResolves(s, cfg, i, Some(es), now);
    var results := Normalize(es);
    assert forall k :: 0 <= k < |es| ==> results[k] == (es[k].0, ToData(es[k].1));
  }

  /**
   * A failed request: every phrase pending for the language at that moment gets its own text
   * (or the test placeholder in test mode), and these fallbacks are written to the table too.
   */
  lemma FailedBatchFallsBack(s: State, cfg: Config, i: nat, now: int)
    requires Inv(s) && i < |s.inFlight|
    ensures var lang := s.inFlight[i].lang;
      var ps := Pending(s, lang);
      var s' := Complete(s, cfg, i, None, now);
      && (forall p :: p in ps ==>
            (p in s'.channels &&
             s'.channels[p] == (if cfg.testMode then Data("[Test translation for " + p + "]", None, None) else Data(p, None, None))))
      && |s'.store| == |s.store| + |ps|
      && (forall k :: 0 <= k < |ps| ==> s'.store[|s.store| + k].phrase == ps[k] && s'.store[|s.store| + k].lang == lang)
  {
    var lang := s.inFlight[i].lang;
    var ps := Pending(s, lang);
    var results := Outcome(s, cfg, lang, None);
    var s' := Complete(s, cfg, i, None, now);
    CompleteResolves(s, cfg, i, None, now);
    assert results == Fallback(ps, cfg.testMode) && |results| == |ps|;
    forall p | p in ps ensures p in s'.channels && s'.channels[p] == FallbackData(p, cfg.testMode) {
      var k :| 0 <= k < |ps| && ps[k] == p;
      assert results[k] == (p, FallbackData(p, cfg.testMode));
    }
    forall k | 0 <= k < |ps| ensures s'.store[|s.store| + k].phrase == ps[k] && s'.store[|s.store| + k].lang == lang {
      assert results[k].0 == ps[k];
    }
  }

  lemma FireKeepsInv(s: State)
    requires Inv(s) && s.timer.Some?
    ensures Inv(Fire(s))
  {
  }

  /**
   * The timer posts a non-empty batch: the armed language always has pending phrases, so no
   * call goes out with an empty phrase list, and every posted batch stays non-empty.
   */
  lemma FirePostsNonEmpty(s: State)
    requires Inv(s) && s.timer.Some?
    ensures Fire(s).inFlight == s.inFlight + [Request(s.timer.value, Pending(s, s.timer.value))]
    ensures Pending(s, s.timer.value) != []
    ensures forall r :: r in Fire(s).inFlight ==> r.phrases != []
  {
  }

  // ----- yes / no -----

  /**
   * The value counts as "yes" whatever its case; the choice between the variants, and the
   * fallback to the value itself, depend only on the value up to case.
   */
  lemma YesOrNoIgnoresCase(d: Data, v1: string, v2: string)
    requires Lower(v1) == Lower(v2)
    ensures Lower(YesOrNo(d, v1)) == Lower(YesOrNo(d, v2))
  {
  }

  /**
   * A phrase whose data has no "yes"/"no" variant (a bare-string response) answers with the
   * value passed through `matchCase` against itself: a value with an upper-stable first
   * character comes back as it is, any other value comes back lower-cased.
   */
  lemma YesOrNoWithoutVariants(phrase: string, value: string)
    ensures YesOrNo(Identity(phrase), value) == CaseMatching.MatchCase(value, value)
    ensures value == [] || CaseMatching.UpperStable(value[0]) ==> YesOrNo(Identity(phrase), value) == value
    ensures value != [] && !CaseMatching.UpperStable(value[0]) ==> YesOrNo(Identity(phrase), value) == Lower(value)
  {
  }

  /** The case of the value decides the case of the answer. */
  lemma YesOrNoExamples()
    ensures YesOrNo(Data("Confirmer ?", Some("oui"), Some("non")), "yes") == "oui"
    ensures YesOrNo(Data("Confirmer ?", Some("oui"), Some("non")), "Yes") == "Oui"
    ensures YesOrNo(Data("Confirmer ?", Some("oui"), Some("non")), "No") == "Non"
    ensures YesOrNo(Data("Confirmer ?", Some("oui"), Some(""))  , "No") == "No"
  {
    assert Lower("yes") == "yes" && Lower("Yes") == "yes" && Lower("No") == "no";
    assert Lower("oui") == "oui";
  }

  // ----- scenarios -----

  /** A service with language `lang` set, nothing requested yet and an empty table. */
  function Fresh(lang: string): State
  {
    State(lang, Some(lang), [English, lang], [], map[], map[], None, [], [], 1)
  }

  /** Two phrases requested before the timer runs out go out in one batch, in request order. */
  lemma CoalescedBatch(now: int)
    ensures var s := Translate(Translate(Fresh("fr"), "Save", now), "Cancel", now);
      && s.timer == Some("fr")
      && "Save" in s.channels && s.channels["Save"] == InProgress("Save")
      && "Cancel" in s.channels && s.channels["Cancel"] == InProgress("Cancel")
      && Fire(s).inFlight == [Request("fr", ["Save", "Cancel"])]
  {
    var s1 := Translate(Fresh("fr"), "Save", now);
    assert Pending(s1, "fr") == ["Save"] && s1.timer == Some("fr");
    var s2 := Translate(s1, "Cancel", now);
    assert Pending(s2, "fr") == ["Save"] + ["Cancel"];
    TranslateRegisters(Fresh("fr"), "Save", now);
    TranslateRegisters(s1, "Cancel", now);
    assert s2.timer == Some("fr") && s2.inFlight == [];
    assert Fire(s2).inFlight == [] + [Request("fr", Pending(s2, "fr"))];
    assert Pending(s2, "fr") == ["Save", "Cancel"];
  }

  /**
   * When the answer arrives before the re-armed timer runs out, a phrase queued while its
   * language's batch is in flight is dropped: the completion empties the pending list and
   * cancels the timer, so the phrase keeps its in-progress value.
   */
  lemma QueuedDuringFlightIsDropped(cfg: Config, now: int)
    ensures var s1 := Fire(Translate(Fresh("fr"), "Save", now));
      var s2 := Translate(s1, "Cancel", now);
      var s3 := Complete(s2, cfg, 0, Some([("Save", Plain("Enregistrer"))]), now);
      && s2.timer == Some("fr") && Pending(s2, "fr") == ["Save", "Cancel"]
      && "Save" in s3.channels && s3.channels["Save"] == Data("Enregistrer", None, None)
      && "Cancel" in s3.channels && s3.channels["Cancel"] == InProgress("Cancel")
      && Pending(s3, "fr") == [] && s3.timer == None && s3.inFlight == []
  {
    var s0 := Translate(Fresh("fr"), "Save", now);
    assert Pending(s0, "fr") == ["Save"] && s0.timer == Some("fr");
    var s1 := Fire(s0);
    assert s1.inFlight == [Request("fr", ["Save"])];
    var s2 := Translate(s1, "Cancel", now);
    assert Pending(s2, "fr") == ["Save"] + ["Cancel"];
    assert "Cancel" in s2.channels && s2.channels["Cancel"] == InProgress("Cancel");
    var es := [("Save", Plain("Enregistrer"))];
    assert Outcome(s2, cfg, "fr", Some(es)) == [("Save", Data("Enregistrer", None, None))];
    var results := [("Save", Data("Enregistrer", None, None))];
    assert Publish(s2.channels, results) == Publish(s2.channels["Save" := results[0].1], results[1..]);
    assert results[1..] == [];
  }

  /**
   * When the timer runs out first instead, the second batch is the whole pending list, which
   * still holds the phrases of the batch in flight: they are posted a second time, and two
   * requests for the same language are in flight at once.
   */
  lemma InFlightPhrasePostedTwice(now: int)
    ensures var s1 := Fire(Translate(Fresh("fr"), "Save", now));
      var s2 := Translate(s1, "Cancel", now);
      && s1.inFlight == [Request("fr", ["Save"])]
      && s2.timer == Some("fr")
      && Fire(s2).inFlight == [Request("fr", ["Save"]), Request("fr", ["Save", "Cancel"])]
  {
    var s0 := Translate(Fresh("fr"), "Save", now);
    assert Pending(s0, "fr") == ["Save"] && s0.timer == Some("fr") && s0.inFlight == [];
    var s1 := Fire(s0);
    assert s1.inFlight == [Request("fr", ["Save"])] && Pending(s1, "fr") == ["Save"];
    var s2 := Translate(s1, "Cancel", now);
    assert Pending(s2, "fr") == ["Save"] + ["Cancel"];
    assert s2.timer == Some("fr") && s2.inFlight == s1.inFlight;
    assert Fire(s2).inFlight == s1.inFlight + [Request("fr", Pending(s2, "fr"))];
    assert Pending(s2, "fr") == ["Save", "Cancel"];
  }

  /**
   * There is one timer for all languages: switching language before the quiet period ends
   * re-arms it for the new language when the re-translation queues a phrase of that language,
   * and the earlier language's pending phrases are then not posted.
   */
  lemma SharedTimerStrandsBatch(now: int)
    ensures var s1 := Translate(Fresh("fr"), "Save", now);
      var s2 := SetLanguage(s1, "de", now);
      && s2.timer == Some("de")
      && Fire(s2).inFlight == [Request("de", ["Save"])]
      && Fire(s2).timer == None && Pending(Fire(s2), "fr") == ["Save"]
  {
    var s1 := Translate(Fresh("fr"), "Save", now);
    assert Pending(s1, "fr") == ["Save"] && s1.known == ["Save"];
    var s1' := s1.(language := "de", cookie := Some("de"), languageLog := s1.languageLog + ["de"]);
    assert SetLanguage(s1, "de", now) == Retranslate(s1', ["Save"], now);
    var s2 := Translate(s1', "Save", now);
    assert Retranslate(s1', ["Save"], now) == Retranslate(s2, [], now) == s2;
    assert Pending(s2, "de") == ["Save"] && Pending(s2, "fr") == ["Save"];
  }

  /**
   * The stranded phrase stays pending for its language: after switching back, asking for it
   * again appends nothing and arms no timer, so it stays in progress until another phrase of
   * that language is queued, which then posts both.
   */
  lemma StrandedPhraseWaitsForAnother(now: int)
    ensures SetLanguage(Translate(Fresh("fr"), "Save", now), "de", now).timer == Some("de")
    ensures var s4 := SetLanguage(Fire(SetLanguage(Translate(Fresh("fr"), "Save", now), "de", now)), "fr", now);
      && s4.timer == None && Pending(s4, "fr") == ["Save"]
      && Translate(s4, "Save", now).timer == None
      && Pending(Translate(s4, "Save", now), "fr") == ["Save"]
      && Translate(s4, "Save", now).channels["Save"] == InProgress("Save")
      && Translate(s4, "Cancel", now).timer == Some("fr")
      && Fire(Translate(s4, "Cancel", now)).inFlight == s4.inFlight + [Request("fr", ["Save", "Cancel"])]
  {
    SwitchBackStrands(now);
    var s4 := SetLanguage(Fire(SetLanguage(Translate(Fresh("fr"), "Save", now), "de", now)), "fr", now);
    PendingPhraseWaits(s4, "Save", "Cancel", now);
    assert Pending(s4, "fr") + ["Cancel"] == ["Save", "Cancel"];
  }

  /** The run fr, "Save", de, timer, fr: no timer is armed and "Save" is pending for fr again. */
  lemma SwitchBackStrands(now: int)
    ensures SetLanguage(Translate(Fresh("fr"), "Save", now), "de", now).timer == Some("de")
    ensures var s4 := SetLanguage(Fire(SetLanguage(Translate(Fresh("fr"), "Save", now), "de", now)), "fr", now);
      s4.timer == None && Pending(s4, "fr") == ["Save"] && s4.store == [] && s4.language == "fr"
  {
    var s1 := Translate(Fresh("fr"), "Save", now);
    assert Pending(s1, "fr") == ["Save"] && s1.known == ["Save"] && s1.store == [];
    var s1' := s1.(language := "de", cookie := Some("de"), languageLog := s1.languageLog + ["de"]);
    assert SetLanguage(s1, "de", now) == Retranslate(s1', ["Save"], now);
    var s2 := Translate(s1', "Save", now);
    assert Retranslate(s1', ["Save"], now) == Retranslate(s2, [], now) == s2;
    assert s2.timer == Some("de");
    var s3 := Fire(s2);
    assert s3.known == ["Save"] && s3.language == "de" && s3.store == [];
    var s3' := s3.(language := "fr", cookie := Some("fr"), languageLog := s3.languageLog + ["fr"]);
    assert SetLanguage(s3, "fr", now) == Retranslate(s3', ["Save"], now);
    var s4 := Translate(s3', "Save", now);
    assert Retranslate(s3', ["Save"], now) == Retranslate(s4, [], now) == s4;
    assert s4.timer == None && Pending(s4, "fr") == ["Save"] && s4.store == [];
  }

  /**
   * With no timer armed, asking again for a phrase already pending leaves it in progress and
   * arms nothing; the next new phrase arms the timer, which then posts both.
   */
  lemma PendingPhraseWaits(s: State, phrase: string, other: string, now: int)
    requires Db.StoreOk(s.store, s.nextId) && s.language != English && s.timer == None
    requires phrase in Pending(s, s.language) && Db.Lookup(s.store, phrase, s.language).None?
    requires other != "" && other !in Pending(s, s.language) && Db.Lookup(s.store, other, s.language).None?
    ensures var s' := Translate(s, phrase, now);
      && s'.timer == None && Pending(s', s.language) == Pending(s, s.language)
      && phrase in s'.channels && s'.channels[phrase] == InProgress(phrase)
    ensures Translate(s, other, now).timer == Some(s.language)
    ensures Fire(Translate(s, other, now)).inFlight == s.inFlight + [Request(s.language, Pending(s, s.language) + [other])]
  {
    TranslateStaleOrMissing(s, phrase, now);
    TranslateStaleOrMissing(s, other, now);
  }


  /**
   * A batch answered after the language changed is still published on the shared channels:
   * the phrase then shows the earlier language's translation although the current language
   * is English.
   */
  lemma LateResponseOverwritesChannel(cfg: Config, now: int)
    ensures SetLanguage(Fire(Translate(Fresh("fr"), "Save", now)), English, now).inFlight == [Request("fr", ["Save"])]
    ensures var s1 := Fire(Translate(Fresh("fr"), "Save", now));
      var s2 := SetLanguage(s1, English, now);
      var s3 := Complete(s2, cfg, 0, Some([("Save", Plain("Enregistrer"))]), now);
      && "Save" in s2.channels && s2.channels["Save"] == Identity("Save")
      && s3.language == English
      && "Save" in s3.channels && s3.channels["Save"] == Data("Enregistrer", None, None)
  {
    var s0 := Translate(Fresh("fr"), "Save", now);
    assert s0.known == ["Save"] && s0.language == "fr";
    var s1 := Fire(s0);
    var s1' := s1.(language := English, cookie := Some(English), languageLog := s1.languageLog + [English]);
    assert SetLanguage(s1, English, now) == Retranslate(s1', ["Save"], now);
    var s2 := Translate(s1', "Save", now);
    assert Retranslate(s1', ["Save"], now) == Retranslate(s2, [], now) == s2;
    assert s2.inFlight == [Request("fr", ["Save"])];
    var results := [("Save", Data("Enregistrer", None, None))];
    assert Outcome(s2, cfg, "fr", Some([("Save", Plain("Enregistrer"))])) == results;
    assert Publish(s2.channels, results) == Publish(s2.channels["Save" := results[0].1], results[1..]);
    assert results[1..] == [];
  }
}

/** What the older translation service promises, proved on the engine of LegacyEngine. */
module LegacyProperties {
  import opened Wrappers
  import opened Seqs
  import Db
  import opened LegacyEngine

  // ----- load -----

  /**
   * `load` appends the phrase to its language's pending list unless it is already there, and
   * only an append re-arms the shared timer. There is no guard for the empty phrase.
   */
  lemma LoadQueuesOnce(s: State, phrase: string, lang: string)
    ensures var s' := Load(s, phrase, lang);
      var appended := phrase !in Pending(s, lang);
      && Pending(s', lang) == (if appended then Pending(s, lang) + [phrase] else Pending(s, lang))
      && s'.timer == (if appended then Some(lang) else s.timer)
      && (forall l :: l != lang ==> Pending(s', l) == Pending(s, l))
      && (Distinct(Pending(s, lang)) ==> Distinct(Pending(s', lang)))
      && s'.channels == s.channels && s'.store == s.store && s'.inFlight == s.inFlight
  {
  }

  lemma LoadKeepsInv(s: State, phrase: string, lang: string)
    requires Inv(s) && phrase in s.channels
    ensures Inv(Load(s, phrase, lang))
  {
    var s' := Load(s, phrase, lang);
    assert Queued(s.channels, Pending(s, lang));
    forall l | l in s'.requesting ensures Queued(s'.channels, s'.requesting[l]) {
      if l != lang { assert s'.requesting[l] == s.requesting[l]; }
    }
  }

  /** The service starts in English with no phrase, no pending list and no timer. */
  lemma StartsInEnglish(store: seq<Db.Record<string>>, nextId: nat)
    requires Db.StoreOk(store, nextId)
    ensures var s := Start(store, nextId);
      && Inv(s) && s.language == English && s.known == [] && s.requesting == map[] && s.timer == None
  {
  }

  // ----- translate -----

  lemma RefreshPublishes(s: State, phrase: string, now: int)
    requires s.language != English
    ensures var s' := Refresh(s, phrase, now);
      && s'.channels == s.channels[phrase := Published(s.store, phrase, s.language, now)]
      && s'.known == s.known && s'.language == s.language && s'.inFlight == s.inFlight && s'.nextId == s.nextId
  {
  }

  lemma RefreshStore(s: State, phrase: string, now: int)
    ensures var hit := Db.Lookup(s.store, phrase, s.language);
      Refresh(s, phrase, now).store ==
        (if hit.Some? && Db.IsExpired(hit.value, now) then Evict(s.store, hit.value) else s.store)
  {
  }

  /** `translate` creates a phrase's channel at most once, seeded with the phrase, and removes none. */
  lemma TranslateRegisters(s: State, phrase: string, now: int)
    ensures var s' := Translate(s, phrase, now);
      && s'.known == (if phrase in s.channels then s.known else s.known + [phrase])
      && s'.channels.Keys == s.channels.Keys + {phrase}
      && s'.language == s.language && s'.inFlight == s.inFlight
  {
    if s.language != English {
      RefreshPublishes(Register(s, phrase), phrase, now);
    }
  }

  /**
   * The value `translate` leaves on the phrase's channel: the phrase under English, an
   * unexpired stored translation, or the phrase marked as in progress.
   */
  lemma TranslatePublishes(s: State, phrase: string, now: int)
    ensures var s' := Translate(s, phrase, now);
      phrase in s'.channels && s'.channels[phrase] == Published(s.store, phrase, s.language, now)
  {
    if s.language != English {
      RefreshPublishes(Register(s, phrase), phrase, now);
    }
  }

  /** Under English the phrase itself is published; the table, the queues and the timer are untouched. */
  lemma TranslateInEnglish(s: State, phrase: string, now: int)
    requires s.language == English
    ensures var s' := Translate(s, phrase, now);
      && s'.channels == s.channels[phrase := phrase]
      && s'.store == s.store && s'.nextId == s.nextId
      && s'.requesting == s.requesting && s'.timer == s.timer && s'.inFlight == s.inFlight
  {
  }

  /** An unexpired stored record is published, and nothing is queued or deleted. */
  lemma TranslateFreshRecord(s: State, phrase: string, now: int, t: Db.Record<string>)
    requires s.language != English
    requires Db.Lookup(s.store, phrase, s.language) == Some(t) && !Db.IsExpired(t, now)
    ensures var s' := Translate(s, phrase, now);
      && s'.channels == s.channels[phrase := t.translation]
      && s'.store == s.store && s'.nextId == s.nextId
      && s'.requesting == s.requesting && s'.timer == s.timer && s'.inFlight == s.inFlight
  {
  }

  /** Evicting the row a lookup found removes that row and keeps every other. */
  lemma EvictLookedUp(store: seq<Db.Record<string>>, nextId: nat, phrase: string, lang: string)
    requires Db.StoreOk(store, nextId)
    ensures var hit := Db.Lookup(store, phrase, lang);
      hit.Some? ==> hit.value !in Evict(store, hit.value) &&
                    forall t :: t in store && t != hit.value ==> t in Evict(store, hit.value)
  {
    var hit := Db.Lookup(store, phrase, lang);
    if hit.Some? {
      assert hit.value.id.Some?;
      Db.DeleteRemovesOnly(store, nextId, hit.value);
    }
  }

  /**
   * Without an unexpired record, an expired one is deleted from the table, the phrase marked
   * in progress is published and the phrase is loaded, the empty phrase included.
   */
  lemma TranslateStaleOrMissing(s: State, phrase: string, now: int)
    requires Db.StoreOk(s.store, s.nextId) && s.language != English
    requires var hit := Db.Lookup(s.store, phrase, s.language); hit.None? || Db.IsExpired(hit.value, now)
    ensures var s' := Translate(s, phrase, now);
      var lang := s.language;
      var hit := Db.Lookup(s.store, phrase, lang);
      var appended := phrase !in Pending(s, lang);
      && s'.channels == s.channels[phrase := phrase + " [Translation in progress]"]
      && (hit.Some? ==> hit.value !in s'.store && forall t :: t in s.store && t != hit.value ==> t in s'.store)
      && (hit.None? ==> s'.store == s.store)
      && Pending(s', lang) == (if appended then Pending(s, lang) + [phrase] else Pending(s, lang))
      && s'.timer == (if appended then Some(lang) else s.timer)
      && s'.inFlight == s.inFlight
  {
    var lang := s.language;
    var hit := Db.Lookup(s.store, phrase, lang);
    EvictLookedUp(s.store, s.nextId, phrase, lang);
    var s1 := Register(s, phrase);
    assert s1.store == s.store && s1.requesting == s.requesting && s1.timer == s.timer && s1.language == lang;
    var store := if hit.Some? then Evict(s1.store, hit.value) else s1.store;
    var s2 := s1.(store := store, channels := s1.channels[phrase := InProgress(phrase)]);
    assert Pending(s2, lang) == Pending(s, lang);
    assert Translate(s, phrase, now) == Load(s2, phrase, lang);
    LoadQueuesOnce(s2, phrase, lang);
  }


  /**
   * A phrase without a subject becomes known, with a subject seeded with the phrase itself; a
   * phrase with a subject is left alone. Either way the invariant is kept.
   */
  lemma RegisterKeepsInv(s: State, phrase: string)
    requires Inv(s)
    ensures Inv(Register(s, phrase)) && phrase in Register(s, phrase).channels
    ensures Register(s, phrase).channels[phrase] ==
              if phrase in s.channels then s.channels[phrase] else phrase
    ensures Register(s, phrase).known == (if phrase in s.channels then s.known else s.known + [phrase])
  {
    var s1 := Register(s, phrase);
    forall l | l in s1.requesting ensures Queued(s1.channels, s1.requesting[l]) {
      assert Queued(s.channels, s.requesting[l]);
    }
    assert Distinct(s1.known) by {
      if phrase !in s.channels {
        forall i, j | 0 <= i < j < |s1.known| ensures s1.known[i] != s1.known[j] {
          if j == |s.known| { assert s1.known[i] in s.known; }
        }
      }
    }
  }

  /** A new value on an existing channel, with a well-formed table, keeps the invariant. */
  lemma RepublishKeepsInv(s: State, phrase: string, d: string, store: seq<Db.Record<string>>)
    requires Inv(s) && phrase in s.channels && Db.StoreOk(store, s.nextId)
    ensures Inv(s.(channels := s.channels[phrase := d], store := store))
  {
    var s2 := s.(channels := s.channels[phrase := d], store := store);
    forall l | l in s2.requesting ensures Queued(s2.channels, s2.requesting[l]) {
      assert Queued(s.channels, s.requesting[l]);
    }
  }

  lemma TranslateKeepsInv(s: State, phrase: string, now: int)
    requires Inv(s)
    ensures Inv(Translate(s, phrase, now))
  {
    var s1 := Register(s, phrase);
    RegisterKeepsInv(s, phrase);
    var lang := s.language;
    var hit := Db.Lookup(s1.store, phrase, lang);
    if lang == English {
      RepublishKeepsInv(s1, phrase, phrase, s1.store);
    } else if hit.Some? && !Db.IsExpired(hit.value, now) {
      RepublishKeepsInv(s1, phrase, hit.value.translation, s1.store);
    } else {
      if hit.Some? && hit.value.id.Some? {
        Db.DeleteKeepsStoreOk(s1.store, s1.nextId, hit.value.id.value);
      }
      var store := if hit.Some? then Evict(s1.store, hit.value) else s1.store;
      RepublishKeepsInv(s1, phrase, InProgress(phrase), store);
      LoadKeepsInv(s1.(channels := s1.channels[phrase := InProgress(phrase)], store := store), phrase, lang);
    }
  }

  lemma TranslateKeepsStoreOk(s: State, phrase: string, now: int)
    requires Db.StoreOk(s.store, s.nextId)
    ensures Db.StoreOk(Translate(s, phrase, now).store, Translate(s, phrase, now).nextId)
  {
    var s1 := Register(s, phrase);
    if s.language != English {
      RefreshPublishes(s1, phrase, now);
      RefreshStore(s1, phrase, now);
      var hit := Db.Lookup(s.store, phrase, s.language);
      if hit.Some? && hit.value.id.Some? {
        Db.DeleteKeepsStoreOk(s.store, s.nextId, hit.value.id.value);
      }
    }
  }

  /** `translate` touches no other phrase: neither its channel nor its stored rows for this language. */
  lemma TranslateFrame(s: State, phrase: string, now: int)
    requires Db.StoreOk(s.store, s.nextId)
    ensures forall q :: q != phrase && q in s.channels ==>
      q in Translate(s, phrase, now).channels && Translate(s, phrase, now).channels[q] == s.channels[q]
    ensures forall q :: q != phrase ==>
      Db.Lookup(Translate(s, phrase, now).store, q, s.language) == Db.Lookup(s.store, q, s.language)
  {
    var lang := s.language;
    var s1 := Register(s, phrase);
    if lang != English {
      RefreshPublishes(s1, phrase, now);
      RefreshStore(s1, phrase, now);
      var hit := Db.Lookup(s.store, phrase, lang);
      if hit.Some? && Db.IsExpired(hit.value, now) {
        var id := hit.value.id.value;
        forall q | q != phrase
          ensures Db.Lookup(Db.Delete(s.store, id), q, lang) == Db.Lookup(s.store, q, lang)
        {
          forall t | t in s.store && t.id == Some(id) ensures !Db.Matches(t, q, lang) {
            Db.UniqueKeys(s.store, s.nextId, t, hit.value);
          }
          Db.LookupAfterDelete(s.store, id, q, lang);
        }
      }
    }
  }

  // ----- language -----

  lemma {:induction false} RetranslateKeepsInv(s: State, ps: seq<string>, now: int)
    requires Inv(s) && forall p :: p in ps ==> p in s.channels
    ensures Inv(Retranslate(s, ps, now))
    ensures Retranslate(s, ps, now).known == s.known && Retranslate(s, ps, now).language == s.language
    decreases |ps|
  {
    if ps != [] {
      var s1 := Translate(s, ps[0], now);
      TranslateKeepsInv(s, ps[0], now);
      TranslateRegisters(s, ps[0], now);
      assert forall q :: q in ps[1..] ==> q in ps;
      RetranslateKeepsInv(s1, ps[1..], now);
    }
  }

  lemma {:induction false} RetranslatePublishes(s: State, ps: seq<string>, now: int)
    requires Db.StoreOk(s.store, s.nextId) && Distinct(ps)
    ensures forall p :: p in ps ==>
      p in Retranslate(s, ps, now).channels && Retranslate(s, ps, now).channels[p] == Published(s.store, p, s.language, now)
    ensures forall q :: q in s.channels && q !in ps ==>
      q in Retranslate(s, ps, now).channels && Retranslate(s, ps, now).channels[q] == s.channels[q]
    ensures forall q :: q !in ps ==> Db.Lookup(Retranslate(s, ps, now).store, q, s.language) == Db.Lookup(s.store, q, s.language)
    decreases |ps|
  {
    if ps != [] {
      var p := ps[0];
      var s1 := Translate(s, p, now);
      TranslateKeepsStoreOk(s, p, now);
      TranslateRegisters(s, p, now);
      TranslatePublishes(s, p, now);
      TranslateFrame(s, p, now);
      var rest := ps[1..];
      assert ps == [p] + rest;
      assert p !in rest by {
        forall j | 0 <= j < |rest| ensures rest[j] != p {
          assert rest[j] == ps[j + 1];
        }
      }
      assert Distinct(rest) by {
        forall i, j | 0 <= i < j < |rest| ensures rest[i] != rest[j] {
          assert ps[i + 1] != ps[j + 1];
        }
      }
      RetranslatePublishes(s1, rest, now);
      var s' := Retranslate(s1, rest, now);
      assert s' == Retranslate(s, ps, now);
      forall q | q in ps ensures q in s'.channels && s'.channels[q] == Published(s.store, q, s.language, now) {
        if q != p {
          assert q in rest;
          assert Db.Lookup(s1.store, q, s.language) == Db.Lookup(s.store, q, s.language);
        }
      }
    }
  }

  /** Recording a new language keeps the invariant. */
  lemma RelabelKeepsInv(s: State, lang: string)
    requires Inv(s)
    ensures Inv(s.(language := lang))
  {
    var s1 := s.(language := lang);
    assert s1.channels == s.channels && s1.requesting == s.requesting;
  }

  /**
   * Setting a new language re-translates every known phrase under it: each channel holds the
   * stored translation when an unexpired one exists, the phrase marked in progress otherwise,
   * or the phrase itself under English. Setting the same language again changes nothing.
   */
  lemma SetLanguageRetranslates(s: State, lang: string, now: int)
    requires Inv(s)
    ensures var s' := SetLanguage(s, lang, now);
      && Inv(s') && s'.language == lang && s'.known == s.known
      && (lang == s.language ==> s' == s)
      && (lang != s.language ==>
            forall p :: p in s.known ==> p in s'.channels && s'.channels[p] == Published(s.store, p, lang, now))
  {
    if lang != s.language {
      var s1 := s.(language := lang);
      RelabelKeepsInv(s, lang);
      RetranslateKeepsInv(s1, s.known, now);
      RetranslatePublishes(s1, s.known, now);
    }
  }

  // ----- a batch completes -----

  lemma CompleteKeepsInv(s: State, validity: nat, i: nat, response: Option<seq<(string, string)>>, now: int)
    requires Inv(s) && i < |s.inFlight|
    requires response.Some? ==> ResponseFits(s, response.value)
    ensures Inv(Complete(s, validity, i, response, now))
  {
    var lang := s.inFlight[i].lang;
    var results := Outcome(s, lang, response);
    if response.None? {
      assert Keys(results) == Pending(s, lang);
    }
    PublishKeys(s.channels, results);
    Db.BulkAddKeepsStoreOk(s.store, s.nextId, Records(results, lang, now + validity));
    var s' := Complete(s, validity, i, response, now);
    forall l | l in s'.requesting ensures Queued(s'.channels, s'.requesting[l]) {
      if l != lang { assert s'.requesting[l] == s.requesting[l]; }
    }
  }

  /**
   * The rows `bulkAdd` appends for some results: one per result, in order, carrying its phrase,
   * the language, its value and the expiry, under consecutive keys from `nextId`.
   */
  function NewRows(results: seq<(string, string)>, lang: string, validity: int, nextId: nat): seq<Db.Record<string>>
  {
    seq(|results|, k requires 0 <= k < |results| => Db.Record(Some(nextId + k), results[k].0, lang, results[k].1, validity))
  }

  /** The table after a completed batch: the old rows, then one new row per result. */
  lemma CompleteStore(s: State, validity: nat, i: nat, response: Option<seq<(string, string)>>, now: int)
    requires i < |s.inFlight|
    ensures var lang := s.inFlight[i].lang;
      Complete(s, validity, i, response, now).store ==
        s.store + NewRows(Outcome(s, lang, response), lang, now + validity, s.nextId)
  {
    var lang := s.inFlight[i].lang;
    RecordsAppended(Outcome(s, lang, response), lang, now + validity, s.nextId);
  }

  /** Adding the records of some results with `bulkAdd` appends exactly their new rows. */
  lemma RecordsAppended(results: seq<(string, string)>, lang: string, validity: int, nextId: nat)
    ensures Db.Stamp(Records(results, lang, validity), nextId) == NewRows(results, lang, validity, nextId)
  {
  }

  /**
   * When a batch completes, each translation is published on its phrase's channel and added
   * to the table; a failed request publishes, and stores, every pending phrase as its own
   * translation. Then the pending list is empty and the timer slot null.
   */
  lemma CompleteResolves(s: State, validity: nat, i: nat, response: Option<seq<(string, string)>>, now: int)
    requires Inv(s) && i < |s.inFlight|
    requires response.Some? ==> ResponseFits(s, response.value)
    ensures var lang := s.inFlight[i].lang;
      var results := Outcome(s, lang, response);
      var s' := Complete(s, validity, i, response, now);
      && Pending(s', lang) == [] && s'.timer == None
      && s'.inFlight == s.inFlight[..i] + s.inFlight[i + 1..]
      && (forall k :: 0 <= k < |results| ==>
            results[k].0 in s'.channels && s'.channels[results[k].0] == results[k].1)
      && (response.None? ==> forall p :: p in Pending(s, lang) ==> p in s'.channels && s'.channels[p] == p)
      && s'.store == s.store + NewRows(results, lang, now + validity, s.nextId)
  {
    var lang := s.inFlight[i].lang;
    var results := Outcome(s, lang, response);
    var s' := Complete(s, validity, i, response, now);
    if response.None? {
      assert Keys(results) == Pending(s, lang);
    }
    PublishValues(s.channels, results);
    assert s'.channels == Publish(s.channels, results);
    CompleteStore(s, validity, i, response, now);
    if response.None? {
      forall p | p in Pending(s, lang) ensures p in s'.channels && s'.channels[p] == p {
        var k :| 0 <= k < |Pending(s, lang)| && Pending(s, lang)[k] == p;
        assert results[k] == (p, p);
      }
    }
  }

  /**
   * Completing a batch touches nothing else: channels outside its results keep their values,
   * other languages' pending lists, the language and the known phrases are unchanged.
   */
  lemma CompleteFrame(s: State, validity: nat, i: nat, response: Option<seq<(string, string)>>, now: int)
    requires Inv(s) && i < |s.inFlight|
    requires response.Some? ==> ResponseFits(s, response.value)
    ensures var lang := s.inFlight[i].lang;
      var results := Outcome(s, lang, response);
      var s' := Complete(s, validity, i, response, now);
      && (forall q :: q in s.channels && q !in Keys(results) ==> q in s'.channels && s'.channels[q] == s.channels[q])
      && (forall l :: l != lang ==> Pending(s', l) == Pending(s, l))
      && s'.language == s.language && s'.known == s.known
  {
    var lang := s.inFlight[i].lang;
    if response.None? {
      assert Keys(Outcome(s, lang, response)) == Pending(s, lang);
    }
    PublishValues(s.channels, Outcome(s, lang, response));
  }

  lemma FireKeepsInv(s: State)
    requires Inv(s) && s.timer.Some?
    ensures Inv(Fire(s))
  {
  }

  /**
   * The timer posts a non-empty batch: the armed language always has pending phrases (possibly
   * only the empty phrase), and every posted batch stays non-empty.
   */
  lemma FirePostsNonEmpty(s: State)
    requires Inv(s) && s.timer.Some?
    ensures Fire(s).inFlight == s.inFlight + [Request(s.timer.value, Pending(s, s.timer.value))]
    ensures Pending(s, s.timer.value) != []
    ensures forall r :: r in Fire(s).inFlight ==> r.phrases != []
  {
  }

  // ----- scenarios -----

  /** A service with language `lang` set, nothing requested yet and an empty table. */
  function Fresh(lang: string): State
  {
    State(lang, [], map[], map[], None, [], [], 1)
  }

  /** Unlike the current service, the older one requests the empty phrase. */
  lemma EmptyPhraseIsRequested(now: int)
    ensures var s := Translate(Fresh("fr"), "", now);
      && s.timer == Some("fr") && Fire(s).inFlight == [Request("fr", [""])]
  {
    var s := Translate(Fresh("fr"), "", now);
    assert Pending(s, "fr") == [""];
    TranslateRegisters(Fresh("fr"), "", now);
  }
}

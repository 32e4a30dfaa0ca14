/**
 * `RpxTranslationService` of projects/rpx-xui-translation as a class whose fields are the
 * service's state, each method proved to perform the matching step of XuiEngine.
 *
 * The phrase channels are the latest values of the `BehaviorSubject`s; a method that returns
 * an observable in the service returns here the value its channel holds when the call ends.
 * The language cookie, the cached-translation table and the posted requests are fields too;
 * the clock is the parameter `now`.
 */
module XuiService {
  import opened Wrappers
  import opened Seqs
  import Db
  import opened XuiEngine
  import XuiProperties

  class RpxTranslationService {
    const config: Config
    var currentLanguage: string
    var cookie: Option<string>
    /** The values `language$` emitted, oldest first. */
    var languageLog: seq<string>
    /** `Object.keys(phrases)`, in insertion order. */
    var phraseOrder: seq<string>
    var phrases: map<string, Data>
    var requesting: map<string, seq<string>>
    /** `requestTimerSubscription`: the language whose batch the armed timer will post. */
    var timer: Option<string>
    /** Posted batches whose answer has not arrived. */
    var inFlight: seq<Request>
    /** The `translations` table and its next auto-increment key. */
    var store: seq<Db.Record<Data>>
    var nextId: nat

    function Snapshot(): State
      reads this
    {
      State(currentLanguage, cookie, languageLog, phraseOrder, phrases, requesting, timer, inFlight, store, nextId)
    }

    ghost predicate Valid()
      reads this
    {
      Inv(Snapshot())
    }

    /** Read the persisted language: set it when there is one, otherwise persist English. */
    constructor(config: Config, persisted: Option<string>, store: seq<Db.Record<Data>>, nextId: nat, now: int)
      requires Db.StoreOk(store, nextId)
      ensures Valid()
      ensures this.config == config
      ensures Snapshot() == Start(persisted, store, nextId, now)
    {
      this.config := config;
      currentLanguage := English;
      cookie := persisted;
      languageLog := [English];
      phraseOrder := [];
      phrases := map[];
      requesting := map[];
      timer := None;
      inFlight := [];
      this.store := store;
      this.nextId := nextId;
      new;
      if persisted.Some? && persisted.value != "" {
        SetLanguage(persisted.value, now);
      } else {
        cookie := Some(English);
      }
      XuiProperties.StartLanguage(persisted, store, nextId, now);
    }

    /** The `language` setter. */
    method SetLanguage(lang: string, now: int)
      requires Valid()
      modifies this
      ensures Valid()
      ensures Snapshot() == XuiEngine.SetLanguage(old(Snapshot()), lang, now)
    {
      if lang != currentLanguage {
        ghost var s0 := Snapshot();
        currentLanguage := lang;
        cookie := Some(lang);
        languageLog := languageLog + [lang];
        XuiProperties.RelabelKeepsInv(s0, lang);
        assert Snapshot() == s0.(language := lang, cookie := Some(lang), languageLog := s0.languageLog + [lang]);
        var keys := phraseOrder;
        ghost var target := Retranslate(Snapshot(), keys, now);
        for i := 0 to |keys|
          invariant Valid()
          invariant Retranslate(Snapshot(), keys[i..], now) == target
        {
          assert keys[i..][1..] == keys[i + 1..];
          var _ := Translate(keys[i], now);
        }
      }
    }

    /** `translate`: the value returned is the one the phrase's channel holds afterwards. */
    method Translate(phrase: string, now: int) returns (d: Data)
      requires Valid()
      modifies this
      ensures Valid()
      ensures Snapshot() == XuiEngine.Translate(old(Snapshot()), phrase, now)
      ensures phrase in phrases && d == phrases[phrase]
    {
      ghost var s0 := Snapshot();
      XuiProperties.RegisterKeepsInv(s0, phrase);
      if phrase !in phrases {
        phraseOrder := phraseOrder + [phrase];
        phrases := phrases[phrase := Identity(phrase)];
      }
      ghost var s1 := XuiEngine.Register(s0, phrase);
      assert Snapshot() == s1;
      if currentLanguage == English {
        XuiProperties.RepublishKeepsInv(s1, phrase, Identity(phrase), store);
        phrases := phrases[phrase := Identity(phrase)];
        assert Snapshot() == s1.(channels := s1.channels[phrase := Identity(phrase)]);
      } else {
        Refresh(phrase, now);
      }
      d := phrases[phrase];
    }

    /**
     * The store query's callback in `translate`: publish the oldest unexpired row, or delete
     * the stale row, publish the in-progress value and `load` the phrase.
     */
    method Refresh(phrase: string, now: int)
      requires Valid() && phrase in phrases && currentLanguage != English
      modifies this
      ensures Valid()
      ensures Snapshot() == XuiEngine.Refresh(old(Snapshot()), phrase, now)
    {
      ghost var s0 := Snapshot();
      var lang := currentLanguage;
      var hit := Db.Lookup(store, phrase, lang);
      if hit.Some? && !Db.IsExpired(hit.value, now) {
        XuiProperties.RepublishKeepsInv(s0, phrase, hit.value.translation, store);
        phrases := phrases[phrase := hit.value.translation];
      } else {
        if hit.Some? {
          Db.DeleteKeepsStoreOk(store, nextId, hit.value.id.value);
          store := Evict(store, hit.value);
        }
        XuiProperties.RepublishKeepsInv(s0, phrase, InProgress(phrase), store);
        phrases := phrases[phrase := InProgress(phrase)];
        Load(phrase, lang);
      }
    }

    /** `load`: queue the phrase for its language's next batch and re-arm the timer. */
    method Load(phrase: string, lang: string)
      requires Valid() && phrase in phrases
      modifies this
      ensures Valid()
      ensures Snapshot() == XuiEngine.Load(old(Snapshot()), phrase, lang)
    {
      XuiProperties.LoadKeepsInv(Snapshot(), phrase, lang);
      if lang == English {
        phrases := phrases[phrase := Data(phrase, Some("Yes"), Some("No"))];
        return;
      }
      if lang !in requesting {
        requesting := requesting[lang := []];
      }
      if phrase in requesting[lang] {
        return;
      }
      if |phrase| == 0 {
        return;
      }
      requesting := requesting[lang := requesting[lang] + [phrase]];
      timer := Some(lang);
    }

    /** `getTranslatedData`: an existing channel as it is, otherwise `translate`. */
    method GetTranslatedData(phrase: string, now: int) returns (d: Data)
      requires Valid()
      modifies this
      ensures Valid()
      ensures Snapshot() == XuiEngine.GetTranslatedData(old(Snapshot()), phrase, now)
      ensures phrase in phrases && d == phrases[phrase]
    {
      if phrase in phrases {
        d := phrases[phrase];
      } else {
        d := Translate(phrase, now);
      }
    }

    /** `getTranslation$`. */
    method GetTranslation(phrase: string, now: int) returns (t: string)
      requires Valid()
      modifies this
      ensures Valid()
      ensures Snapshot() == XuiEngine.GetTranslatedData(old(Snapshot()), phrase, now)
      ensures phrase in phrases && t == phrases[phrase].translation
    {
      var d := GetTranslatedData(phrase, now);
      t := d.translation;
    }

    /** `getTranslationWithYesOrNo$`. */
    method GetTranslationWithYesOrNo(phrase: string, value: string, now: int) returns (r: string)
      requires Valid()
      modifies this
      ensures Valid()
      ensures Snapshot() == XuiEngine.GetTranslatedData(old(Snapshot()), phrase, now)
      ensures phrase in phrases && r == YesOrNo(phrases[phrase], value)
    {
      var d := GetTranslatedData(phrase, now);
      r := YesOrNo(d, value);
    }

    /** The debounce timer runs out: the armed language's pending list is posted. */
    method TimerFire()
      requires Valid() && timer.Some?
      modifies this
      ensures Valid()
      ensures Snapshot() == Fire(old(Snapshot()))
    {
      XuiProperties.FireKeepsInv(Snapshot());
      var lang := timer.value;
      timer := None;
      var pending := if lang in requesting then requesting[lang] else [];
      inFlight := inFlight + [Request(lang, pending)];
    }

    /**
     * The answer to the `i`-th posted batch (`None`: the request failed): normalize it or build
     * the fallbacks, publish each translation and collect its record, add the records, then
     * empty the pending list and drop the timer.
     */
    method Complete(i: nat, response: Option<seq<(string, Entry)>>, now: int)
      requires Valid() && i < |inFlight|
      requires response.Some? ==> ResponseFits(Snapshot(), response.value)
      modifies this
      ensures Valid()
      ensures Snapshot() == XuiEngine.Complete(old(Snapshot()), config, i, response, now)
    {
      ghost var s0 := Snapshot();
      var lang := inFlight[i].lang;
      var results := Translations(lang, response);
      var toAdd := PublishAll(results, lang, now + config.validity);
      assert toAdd == Records(results, lang, now + config.validity);
      ghost var target := XuiEngine.Complete(s0, config, i, response, now);
      assert phrases == target.channels;
      store := store + Db.Stamp(toAdd, nextId);
      nextId := nextId + |toAdd|;
      requesting := requesting[lang := []];
      timer := None;
      inFlight := inFlight[..i] + inFlight[i + 1..];
      assert Snapshot() == target;
      XuiProperties.CompleteKeepsInv(s0, config, i, response, now);
    }

    /** The translations a batch yields: the normalized response, or one fallback per pending phrase. */
    method Translations(lang: string, response: Option<seq<(string, Entry)>>) returns (results: seq<(string, Data)>)
      ensures results == Outcome(Snapshot(), config, lang, response)
    {
      results := [];
      match response {
        case Some(es) =>
          for k := 0 to |es|
            invariant |results| == k
            invariant forall j :: 0 <= j < k ==> results[j] == (es[j].0, ToData(es[j].1))
          {
            results := results + [(es[k].0, ToData(es[k].1))];
          }
        case None =>
          var pending := if lang in requesting then requesting[lang] else [];
          for k := 0 to |pending|
            invariant |results| == k
            invariant forall j :: 0 <= j < k ==> results[j] == (pending[j], FallbackData(pending[j], config.testMode))
          {
            results := results + [(pending[k], FallbackData(pending[k], config.testMode))];
          }
      }
    }

    /** Publish each translation on its channel, in order, and collect the records to add. */
    method PublishAll(results: seq<(string, Data)>, lang: string, validity: int) returns (toAdd: seq<Db.Record<Data>>)
      modifies this
      ensures phrases == Publish(old(phrases), results)
      ensures toAdd == Records(results, lang, validity)
      ensures Snapshot() == old(Snapshot()).(channels := phrases)
    {
      toAdd := [];
      for k := 0 to |results|
        invariant Publish(phrases, results[k..]) == Publish(old(phrases), results)
        invariant |toAdd| == k
        invariant forall j :: 0 <= j < k ==> toAdd[j] == Db.Create(results[j].0, lang, results[j].1, validity)
        invariant Snapshot() == old(Snapshot()).(channels := phrases)
      {
        assert results[k..][1..] == results[k + 1..];
        toAdd := toAdd + [Db.Create(results[k].0, lang, results[k].1, validity)];
        phrases := phrases[results[k].0 := results[k].1];
      }
      assert results[|results|..] == [];
    }
  }
}

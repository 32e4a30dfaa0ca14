/**
 * `RpxTranslationService` of projects/rpx-translation as a class whose fields are the
 * service's state, each method proved to perform the matching step of LegacyEngine.
 */
module LegacyService {
  import opened Wrappers
  import opened Seqs
  import Db
  import opened LegacyEngine
  import LegacyProperties

  class RpxTranslationService {
    /** The validity window of a stored translation. */
    const validity: nat
    var currentLanguage: string
    /** `Object.keys(_phrases)`, in insertion order. */
    var phraseOrder: seq<string>
    var phrases: map<string, string>
    var requesting: map<string, seq<string>>
    var timer: Option<string>
    var inFlight: seq<Request>
    var store: seq<Db.Record<string>>
    var nextId: nat

    function Snapshot(): State
      reads this
    {
      State(currentLanguage, phraseOrder, phrases, requesting, timer, inFlight, store, nextId)
    }

    ghost predicate Valid()
      reads this
    {
      Inv(Snapshot())
    }

    constructor(validity: nat, store: seq<Db.Record<string>>, nextId: nat)
      requires Db.StoreOk(store, nextId)
      ensures Valid()
      ensures this.validity == validity
      ensures Snapshot() == Start(store, nextId)
    {
      this.validity := validity;
      currentLanguage := English;
      phraseOrder := [];
      phrases := map[];
      requesting := map[];
      timer := None;
      inFlight := [];
      this.store := store;
      this.nextId := nextId;
    }

    /** The `language` setter. */
    method SetLanguage(lang: string, now: int)
      requires Valid()
      modifies this
      ensures Valid()
      ensures Snapshot() == LegacyEngine.SetLanguage(old(Snapshot()), lang, now)
    {
      if lang != currentLanguage {
        ghost var s0 := Snapshot();
        currentLanguage := lang;
        LegacyProperties.RelabelKeepsInv(s0, lang);
        assert Snapshot() == s0.(language := lang);
        var keys := phraseOrder;
        ghost var target := Retranslate(Snapshot(), keys, now);
        for i := 0 to |keys|
          invariant Valid()
          invariant Retranslate(Snapshot(), keys[i..], now) == target
        {
          assert keys[i..][1..] == keys[i + 1..];
          var _ := Translate(keys[i], now);
        }
      }
    }

    /** `translate`: the value returned is the one the phrase's channel holds afterwards. */
    method Translate(phrase: string, now: int) returns (t: string)
      requires Valid()
      modifies this
      ensures Valid()
      ensures Snapshot() == LegacyEngine.Translate(old(Snapshot()), phrase, now)
      ensures phrase in phrases && t == phrases[phrase]
    {
      ghost var s0 := Snapshot();
      LegacyProperties.RegisterKeepsInv(s0, phrase);
      if phrase !in phrases {
        phraseOrder := phraseOrder + [phrase];
        phrases := phrases[phrase := phrase];
      }
      ghost var s1 := LegacyEngine.Register(s0, phrase);
      assert Snapshot() == s1;
      if currentLanguage == English {
        LegacyProperties.RepublishKeepsInv(s1, phrase, phrase, store);
        phrases := phrases[phrase := phrase];
        assert Snapshot() == s1.(channels := s1.channels[phrase := phrase]);
      } else {
        Refresh(phrase, now);
      }
      t := phrases[phrase];
    }

    /**
     * The store query's callback in `translate`: publish the oldest unexpired row, or delete
     * the stale row, publish the phrase marked in progress and `load` it.
     */
    method Refresh(phrase: string, now: int)
      requires Valid() && phrase in phrases && currentLanguage != English
      modifies this
      ensures Valid()
      ensures Snapshot() == LegacyEngine.Refresh(old(Snapshot()), phrase, now)
    {
      ghost var s0 := Snapshot();
      var hit := Db.Lookup(store, phrase, currentLanguage);
      if hit.Some? && !Db.IsExpired(hit.value, now) {
        LegacyProperties.RepublishKeepsInv(s0, phrase, hit.value.translation, store);
        phrases := phrases[phrase := hit.value.translation];
      } else {
        if hit.Some? {
          Db.DeleteKeepsStoreOk(store, nextId, hit.value.id.value);
          store := Evict(store, hit.value);
        }
        LegacyProperties.RepublishKeepsInv(s0, phrase, InProgress(phrase), store);
        phrases := phrases[phrase := InProgress(phrase)];
        Load(phrase, currentLanguage);
      }
    }

    /** `load`. */
    method Load(phrase: string, lang: string)
      requires Valid() && phrase in phrases
      modifies this
      ensures Valid()
      ensures Snapshot() == LegacyEngine.Load(old(Snapshot()), phrase, lang)
    {
      LegacyProperties.LoadKeepsInv(Snapshot(), phrase, lang);
      if lang !in requesting {
        requesting := requesting[lang := []];
      }
      if phrase in requesting[lang] {
        return;
      }
      requesting := requesting[lang := requesting[lang] + [phrase]];
      timer := Some(lang);
    }

    /** The debounce timer runs out: the armed language's pending list is posted. */
    method TimerFire()
      requires Valid() && timer.Some?
      modifies this
      ensures Valid()
      ensures Snapshot() == Fire(old(Snapshot()))
    {
      LegacyProperties.FireKeepsInv(Snapshot());
      var lang := timer.value;
      timer := None;
      var pending := if lang in requesting then requesting[lang] else [];
      inFlight := inFlight + [Request(lang, pending)];
    }

    /** The answer to the `i`-th posted batch (`None`: the request failed). */
    method Complete(i: nat, response: Option<seq<(string, string)>>, now: int)
      requires Valid() && i < |inFlight|
      requires response.Some? ==> ResponseFits(Snapshot(), response.value)
      modifies this
      ensures Valid()
      ensures Snapshot() == LegacyEngine.Complete(old(Snapshot()), validity, i, response, now)
    {
      ghost var s0 := Snapshot();
      var lang := inFlight[i].lang;
      var results := Translations(lang, response);
      var toAdd := PublishAll(results, lang, now + validity);
      assert toAdd == Records(results, lang, now + validity);
      ghost var target := LegacyEngine.Complete(s0, validity, i, response, now);
      assert phrases == target.channels;
      store := store + Db.Stamp(toAdd, nextId);
      nextId := nextId + |toAdd|;
      requesting := requesting[lang := []];
      timer := None;
      inFlight := inFlight[..i] + inFlight[i + 1..];
      assert Snapshot() == target;
      LegacyProperties.CompleteKeepsInv(s0, validity, i, response, now);
    }

    /** The response's translations, or each pending phrase as its own translation. */
    method Translations(lang: string, response: Option<seq<(string, string)>>) returns (results: seq<(string, string)>)
      ensures results == Outcome(Snapshot(), lang, response)
    {
      match response {
        case Some(es) =>
          results := es;
        case None =>
          results := [];
          var pending := if lang in requesting then requesting[lang] else [];
          for k := 0 to |pending|
            invariant |results| == k
            invariant forall j :: 0 <= j < k ==> results[j] == (pending[j], pending[j])
          {
            results := results + [(pending[k], pending[k])];
          }
      }
    }

    /** Publish each translation on its channel, in order, and collect the records to add. */
    method PublishAll(results: seq<(string, string)>, lang: string, validUntil: int) returns (toAdd: seq<Db.Record<string>>)
      modifies this
      ensures phrases == Publish(old(phrases), results)
      ensures toAdd == Records(results, lang, validUntil)
      ensures Snapshot() == old(Snapshot()).(channels := phrases)
    {
      toAdd := [];
      for k := 0 to |results|
        invariant Publish(phrases, results[k..]) == Publish(old(phrases), results)
        invariant |toAdd| == k
        invariant forall j :: 0 <= j < k ==> toAdd[j] == Db.Create(results[j].0, lang, results[j].1, validUntil)
        invariant Snapshot() == old(Snapshot()).(channels := phrases)
      {
        assert results[k..][1..] == results[k + 1..];
        toAdd := toAdd + [Db.Create(results[k].0, lang, results[k].1, validUntil)];
        phrases := phrases[results[k].0 := results[k].1];
      }
      assert results[|results|..] == [];
    }
  }
}

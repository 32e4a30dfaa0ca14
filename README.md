# rpx-xui-translation, modelled in Dafny

This project models the translation core of the HMCTS `rpx-xui-translation` repository.
It covers two Angular services, `RpxTranslationService` in the current library
(`projects/rpx-xui-translation`) and in the older one (`projects/rpx-translation`). It also
covers the cached-translation record and table (`db.ts`) and two string helpers:
`matchCase` and `replacePlaceholders`.

A translation service resolves each phrase to the best value it knows now. Under English
that is the phrase itself. Otherwise it is an unexpired cached translation, or a provisional
"in progress" value. In the last case the phrase is queued for its language. One shared
debounce timer posts the queue as a single batch. The answer, or a fallback when the request
fails, is published on every phrase's channel and written to the cache with an expiry.

Layout:

- `wrappers.dfy`: `Option`, plus the sequence facts shared by both services (`Distinct`,
  `Keys`, and `Publish`, which applies `channel.next` for each key of a response in order).
- `text.dfy`: ASCII upper and lower case.
- `match_case.dfy`: `matchCase`.
- `placeholders.dfy`: `replacePlaceholders`. It is an imperative method proved against the
  key-by-key rewrite function, for every input on which the source's loops end.
- `db.dfy`: the `Translation` record and the Dexie table `'++id, [phrase+lang]'`. The table is
  a sequence of rows in primary-key order with an auto-increment counter.
- `xui_engine.dfy`, `xui_properties.dfy`, `xui_service.dfy`: the current service.
  - The engine states each step as a function on a `State` value.
  - The properties module proves what the service promises about those steps.
  - `XuiService.RpxTranslationService` is a class with the service's fields. Each of its
    methods ensures that its new state is the engine's step applied to its old state.
- `legacy_engine.dfy`, `legacy_properties.dfy`, `legacy_service.dfy`: the same for the older
  service, whose translations are plain strings.

The asynchronous plumbing becomes explicit events:

- `Translate` runs the store query and its callback at once.
- `TimerFire` / `Fire` is the debounce timer running out, which posts the pending list.
- `Complete(i, response, now)` is the answer to the `i`-th posted batch; `None` means the
  request failed.

The clock is the parameter `now`, in integer milliseconds. The validity window is a number of
milliseconds.

Where the service's documented behaviour and its code differ, the model follows the code:

- There is a single debounce timer for all languages, not one per language. Switching
  language before it runs out re-arms it for the new language when the re-translation queues
  a phrase of that language. The earlier language's pending phrases are then not posted
  (`XuiProperties.SharedTimerStrandsBatch`). They stay pending. After switching back, asking
  for such a phrase again appends nothing and arms no timer, so it stays in progress. It is
  posted only with the next new phrase of that language
  (`XuiProperties.StrandedPhraseWaitsForAnother`; in general `XuiProperties.PendingPhraseWaits`).
  When every known phrase has a fresh row in the new language, nothing is queued: the timer
  keeps its language and the earlier batch is posted as usual
  (`XuiProperties.SetLanguageAllFresh`).
- The pending list is not cleared when the timer fires. It is emptied, and the timer slot
  nulled, when the answer arrives. A phrase queued while the batch is in flight re-arms the
  timer, and the outcome depends on which comes first:
  - If the answer arrives before the re-armed timer runs out, the phrase is dropped and
    keeps its in-progress value (`XuiProperties.QueuedDuringFlightIsDropped`).
  - If the timer runs out first, it posts the whole pending list, which still holds the
    phrases in flight. Those phrases are posted a second time, and two requests for the same
    language are in flight at once (`XuiProperties.InFlightPhrasePostedTwice`). When both
    are answered, the table holds two rows for such a phrase, and lookups return the older.
- An answer that arrives after the language changed is still published on the phrase's
  channel and overwrites the new language's value (`XuiProperties.LateResponseOverwritesChannel`).
- `bulkAdd` appends new rows and never overwrites a row for the same phrase and language.
  The index `[phrase+lang]` is not unique, so a lookup keeps returning the oldest row
  (`Db.BulkAddKeepsOlderRecord`).
- Fallback values of a failed request are written to the table like real translations.
- `matchCase("yes", "oui")` is `"oui"`, not `"Oui"`. Only an upper-case (or caseless) first
  character of the value upper-cases the answer (`XuiProperties.YesOrNoExamples`).

`projects/rpx-xui-translation/src/lib/db.ts` is not part of this model. The current service's
table is taken to have the shape of `projects/rpx-translation/src/lib/db.ts`, with the
structured `TranslatedData` as payload. `YesOrNoValue.YES` is taken to be `"Yes"`.

The engine's step functions only compute. What they mean is stated by the lemmas about
them, and the rows below name those lemmas:

- `Start`: `StartLanguage` and `StartsInEnglish`.
- `Load`: `LoadQueuesOnce`, `LoadInEnglish` and `LoadKeepsInv`.
- `Register`: `TranslateRegisters` and `RegisterKeepsInv`.
- `Refresh`: `RefreshPublishes`, `RefreshStore` and `RefreshKeepsInv`.
- `Translate`: `TranslatePublishes`, `TranslateInEnglish`, `TranslateFreshRecord`,
  `TranslateStaleOrMissing`, `PendingPhraseWaits`, `TranslateKeepsInv` and `TranslateFrame`.
- `Retranslate`: `RetranslatePublishes`, `RetranslateAllFresh` and `RetranslateKeepsInv`.
- `SetLanguage`: `SetLanguageRetranslates`, `SetLanguageUnchanged`, `SetLanguageAllFresh` and
  `SetLanguageKeepsInv`.
- `GetTranslatedData`: `XuiService.RpxTranslationService.GetTranslatedData`.
- `Fire`: `FireKeepsInv`, `FirePostsNonEmpty`, `CoalescedBatch` and `InFlightPhrasePostedTwice`.
- `Outcome`: `OutcomeKeys`, `ResponsePublished` and `FailedBatchFallsBack`.
- `Complete`: `CompleteResolves`, `CompleteStore`, `CompleteFrame` and `CompleteKeepsInv`.
- `Chosen`: `YesOrNo` and the `YesOrNo...` lemmas.
- `Db.IsExpired`: `NotExpiredAtValidity` and `ExpiryIsPermanent`.
- `Placeholders.ReplaceFirst`: `ReplaceFirstPercent` and `Rescan`.

## Model

| member | source | states |
|---|---|---|
| CaseMatching.MatchCase | projects/rpx-xui-translation/src/lib/helpers/match-case/match-case.helper.ts:1-11 | the result has the length and letters of `str2` up to case; an empty `str1` gives `str2`; an upper-stable first character of `str1` upper-cases the first character and keeps the rest; otherwise the result is all lower case |
| CaseMatching.MatchCaseIdempotent | projects/rpx-xui-translation/src/lib/helpers/match-case/match-case.helper.ts:6-10 | matching the same reference twice equals matching once |
| CaseMatching.MatchCaseFirstCharOnly | projects/rpx-xui-translation/src/lib/helpers/match-case/match-case.helper.ts:6 | two references with the same first character give the same result |
| CaseMatching.MatchCaseExamples | projects/rpx-xui-translation/src/lib/helpers/match-case/match-case.helper.spec.ts:4-19 | `Naddo`/`yes` gives `Yes`, `naddo`/`YES` gives `yes`, an empty first or second string gives the second |
| Placeholders.IndexOfFrom | projects/rpx-xui-translation/src/lib/helpers/replace-placeholders/replace-placeholders.helper.ts:7 | `indexOf` returns -1 exactly when no occurrence exists, and otherwise the leftmost occurrence |
| Placeholders.ReplaceFirstPercent | projects/rpx-xui-translation/src/lib/helpers/replace-placeholders/replace-placeholders.helper.ts:8 | one `replace` of a token changes the count of `%` by the value's count minus the token's |
| Placeholders.Rescan | projects/rpx-xui-translation/src/lib/helpers/replace-placeholders/replace-placeholders.helper.ts:7-9 | on any input where the `while` loop ends, the result is the first string of the rewrite sequence with no token left; a string without the token is unchanged |
| Placeholders.ReplaceKeys | projects/rpx-xui-translation/src/lib/helpers/replace-placeholders/replace-placeholders.helper.ts:4-12 | the key-by-key rewrite, on any input where every key's loop ends, leaves no token of the last key |
| Placeholders.FewerPercentHalts | projects/rpx-xui-translation/src/lib/helpers/replace-placeholders/replace-placeholders.helper.ts:7-9 | a value with fewer `%` than its token makes the loop end on every input |
| Placeholders.FewerPercentAllHalt | projects/rpx-xui-translation/src/lib/helpers/replace-placeholders/replace-placeholders.helper.ts:4-12 | such values make every key's loop end, whatever the input |
| Placeholders.ReplacePlaceholders | projects/rpx-xui-translation/src/lib/helpers/replace-placeholders/replace-placeholders.helper.ts:3-13 | on every input where the source returns, the nested loops compute the key-by-key rewrite, in key order, and no token of the last key remains |
| Placeholders.ReplaceKeysEmpty | projects/rpx-xui-translation/src/lib/helpers/replace-placeholders/replace-placeholders.helper.ts:4-12 | an empty replacement map returns the input |
| Placeholders.ReplaceKeysWithoutTokens | projects/rpx-xui-translation/src/lib/helpers/replace-placeholders/replace-placeholders.helper.ts:6-7 | an input with no token of any key is returned unchanged, whatever the values |
| Placeholders.ReplaceExample | projects/rpx-xui-translation/src/lib/helpers/replace-placeholders/replace-placeholders.helper.spec.ts:4-11 | `Hello %FIELDNAME%` with `FIELDNAME: John` gives `Hello John` |
| Placeholders.PercentValueExample | projects/rpx-xui-translation/src/lib/helpers/replace-placeholders/replace-placeholders.helper.ts:7-9 | `x %A% y` with `A: 10% to 20%` gives `x 10% to 20% y` |
| Placeholders.RescanCanDiverge | projects/rpx-xui-translation/src/lib/helpers/replace-placeholders/replace-placeholders.helper.ts:7-9 | a value that does not contain its own token can still keep the loop running forever: `%%A%%` with `A: A%%A` |
| Placeholders.DivergentInputNeverHalts | projects/rpx-xui-translation/src/lib/helpers/replace-placeholders/replace-placeholders.helper.ts:7-9 | on `%%A%%` with `A: A%%A` every round leaves a token, so the helper never returns |
| Db.Create | projects/rpx-translation/src/lib/db.ts:12-19 | the record holds exactly the given phrase, language, translation and validity, with no id |
| Db.NotExpiredAtValidity | projects/rpx-translation/src/lib/db.ts:21-23 | a record is not expired at its own validity instant |
| Db.ExpiryIsPermanent | projects/rpx-translation/src/lib/db.ts:21-23 | a record expired at some time stays expired at every later time |
| Db.Lookup | projects/rpx-translation/src/lib/db.ts:31-33 | the `[phrase+lang]` query returns a stored row for the pair, and returns nothing exactly when no row matches |
| Db.LookupOldest | projects/rpx-translation/src/lib/db.ts:31-33 | of several rows for one pair, `first()` returns the one with the smallest primary key |
| Db.UniqueKeys | projects/rpx-translation/src/lib/db.ts:31-33 | auto-increment primary keys identify rows uniquely |
| Db.Delete | projects/rpx-translation/src/lib/rpx-translation.service.ts:55-58 | deleting a key keeps exactly the rows with another key |
| Db.DeleteKeepsStoreOk | projects/rpx-translation/src/lib/rpx-translation.service.ts:55-58 | deleting keeps the table's keys present, increasing and below the counter |
| Db.DeleteRemovesOnly | projects/rpx-translation/src/lib/rpx-translation.service.ts:55-58 | deleting an expired row's id removes that row and no other |
| Db.LookupAfterDelete | projects/rpx-translation/src/lib/rpx-translation.service.ts:55-58 | deleting a key whose rows belong to other pairs leaves a pair's lookup unchanged |
| Db.BulkAddKeepsStoreOk | projects/rpx-translation/src/lib/rpx-translation.service.ts:99 | `bulkAdd` assigns fresh increasing keys, and the table stays well-formed |
| Db.AppendStamped | projects/rpx-translation/src/lib/rpx-translation.service.ts:99 | `bulkAdd` keeps the stored rows in front and appends record k with key next-id plus k, in order |
| Db.BulkAddKeepsOlderRecord | projects/rpx-translation/src/lib/rpx-translation.service.ts:99 | adding a record for a pair already stored keeps both rows, and the lookup still returns the older one |
| Db.BulkAddThenLookup | projects/rpx-translation/src/lib/rpx-translation.service.ts:94-99 | a record added for a new pair is what the next lookup returns; it is unexpired at its validity and expired after it |
| Seqs.PublishKeys | projects/rpx-xui-translation/src/lib/rpx-translation.service.ts:191-194 | after publishing a response, the channels are the old ones plus the response's keys |
| Seqs.PublishValues | projects/rpx-xui-translation/src/lib/rpx-translation.service.ts:191-194 | each key of a response gets its own value and every other channel keeps its value |
| XuiEngine.YesOrNo | projects/rpx-xui-translation/src/lib/rpx-translation.service.ts:79-88 | the answer is the chosen variant (or the value) with its case matched: unchanged for an empty value; an upper-stable first character of the value upper-cases the answer's first character and keeps the rest; otherwise the answer is the lower-cased choice |
| XuiProperties.LoadQueuesOnce | projects/rpx-xui-translation/src/lib/rpx-translation.service.ts:141-160 | outside English, the phrase is appended only if not pending and not empty; only an append re-arms the shared timer, for this language; other languages' lists are untouched, and the list stays duplicate-free and free of the empty phrase |
| XuiProperties.LoadInEnglish | projects/rpx-xui-translation/src/lib/rpx-translation.service.ts:132-139 | under English, `load` publishes the phrase with `Yes`/`No` and queues nothing |
| XuiProperties.LoadKeepsInv | projects/rpx-xui-translation/src/lib/rpx-translation.service.ts:141-160 | `load` keeps the service invariant |
| XuiProperties.RefreshPublishes | projects/rpx-xui-translation/src/lib/rpx-translation.service.ts:108-123 | the store branch of `translate` publishes the fresh stored value or the in-progress value, and touches no other channel |
| XuiProperties.RefreshStore | projects/rpx-xui-translation/src/lib/rpx-translation.service.ts:113-116 | only an expired row for the phrase is deleted |
| XuiProperties.RegisterKeepsInv | projects/rpx-xui-translation/src/lib/rpx-translation.service.ts:100-103 | a phrase without a channel becomes known, with a channel seeded with `{translation: phrase}`; a phrase with a channel is left alone; the service invariant is kept |
| XuiProperties.RepublishKeepsInv | projects/rpx-xui-translation/src/lib/rpx-translation.service.ts:105-118 | a new value on an existing channel, with a well-formed table, keeps the service invariant |
| XuiProperties.RefreshKeepsInv | projects/rpx-xui-translation/src/lib/rpx-translation.service.ts:108-123 | the store branch keeps the service invariant |
| XuiProperties.TranslateRegisters | projects/rpx-xui-translation/src/lib/rpx-translation.service.ts:100-103 | a channel is created once (its seed is stated by `RegisterKeepsInv`); the known phrases only grow, in first-request order; the language is untouched |
| XuiProperties.TranslatePublishes | projects/rpx-xui-translation/src/lib/rpx-translation.service.ts:98-129 | the phrase's channel ends with the identity value under English, a fresh stored translation, or the in-progress value |
| XuiProperties.TranslateInEnglish | projects/rpx-xui-translation/src/lib/rpx-translation.service.ts:105-106 | under English, the identity value is published and the table, queues and timer are untouched |
| XuiProperties.TranslateFreshRecord | projects/rpx-xui-translation/src/lib/rpx-translation.service.ts:108-111 | an unexpired stored record is published unchanged and nothing is queued or deleted |
| XuiProperties.TranslateStaleOrMissing | projects/rpx-xui-translation/src/lib/rpx-translation.service.ts:112-123 | without a fresh record, an expired row is deleted (and only it), the in-progress value is published and the phrase is queued as `load` does |
| XuiProperties.TranslateKeepsInv | projects/rpx-xui-translation/src/lib/rpx-translation.service.ts:98-129 | `translate` keeps the service invariant |
| XuiProperties.TranslateKeepsStoreOk | projects/rpx-xui-translation/src/lib/rpx-translation.service.ts:113-116 | `translate` keeps the table well-formed |
| XuiProperties.TranslateFrame | projects/rpx-xui-translation/src/lib/rpx-translation.service.ts:98-129 | `translate` changes no other phrase's channel and no other phrase's lookup |
| XuiProperties.RetranslateKeepsInv | projects/rpx-xui-translation/src/lib/rpx-translation.service.ts:41 | re-translating known phrases keeps the invariant, the known phrases and the language |
| XuiProperties.RetranslatePublishes | projects/rpx-xui-translation/src/lib/rpx-translation.service.ts:41 | re-translating distinct phrases leaves on each the value computed from the original table, and other phrases alone |
| XuiProperties.SetLanguageRetranslates | projects/rpx-xui-translation/src/lib/rpx-translation.service.ts:36-43 | a new language is recorded, written to the cookie and emitted, and every known phrase is re-translated under it |
| XuiProperties.SetLanguageUnchanged | projects/rpx-xui-translation/src/lib/rpx-translation.service.ts:36-37 | setting the current language changes nothing |
| XuiProperties.SetLanguageKeepsInv | projects/rpx-xui-translation/src/lib/rpx-translation.service.ts:36-43 | the setter keeps the service invariant |
| XuiProperties.StartLanguage | projects/rpx-xui-translation/src/lib/rpx-translation.service.ts:45-57 | the service starts in English and persists it when no language is stored; a stored language is set at once |
| XuiProperties.OutcomeKeys | projects/rpx-xui-translation/src/lib/rpx-translation.service.ts:167-188 | the results of a batch have distinct keys, each with a channel |
| XuiProperties.CompleteKeepsInv | projects/rpx-xui-translation/src/lib/rpx-translation.service.ts:189-199 | completing a batch keeps the service invariant |
| XuiProperties.CompleteResolves | projects/rpx-xui-translation/src/lib/rpx-translation.service.ts:189-199 | every result is published and appended to the table with the next keys and expiry now plus validity; the pending list is emptied, the timer slot nulled and the batch retired |
| XuiProperties.ResponsePublished | projects/rpx-xui-translation/src/lib/rpx-translation.service.ts:169-181 | a string entry is published as `{translation: s}`, and an object entry as it is |
| XuiProperties.FailedBatchFallsBack | projects/rpx-xui-translation/src/lib/rpx-translation.service.ts:182-188 | a failed request publishes each pending phrase as itself, or as `[Test translation for p]` in test mode, and stores one row per pending phrase |
| XuiProperties.CompleteFrame | projects/rpx-xui-translation/src/lib/rpx-translation.service.ts:189-199 | completing a batch leaves other channels, other languages' pending lists, the language and the known phrases unchanged |
| XuiProperties.CompleteStore | projects/rpx-xui-translation/src/lib/rpx-translation.service.ts:190-194 | the table after a completed batch is the old table followed by one row per result, in order, with the next keys and expiry now plus validity |
| XuiProperties.RecordsAppended | projects/rpx-xui-translation/src/lib/rpx-translation.service.ts:190-194 | `bulkAdd` of the records built from the results appends exactly one row per result carrying its phrase, the language, its value and the expiry, under consecutive fresh keys |
| XuiProperties.FireKeepsInv | projects/rpx-xui-translation/src/lib/rpx-translation.service.ts:160-166 | posting a batch keeps the service invariant |
| XuiProperties.FirePostsNonEmpty | projects/rpx-xui-translation/src/lib/rpx-translation.service.ts:149-166 | the timer posts the armed language's pending list, which is never empty, so no request goes out with an empty phrase list |
| XuiProperties.YesOrNoIgnoresCase | projects/rpx-xui-translation/src/lib/rpx-translation.service.ts:80 | values equal up to case give answers equal up to case |
| XuiProperties.YesOrNoWithoutVariants | projects/rpx-xui-translation/src/lib/rpx-translation.service.ts:83-85 | data without `yes`/`no` answers with the value case-matched to itself: unchanged when its first character is upper-stable, lower-cased otherwise (`yES` gives `yes`) |
| XuiProperties.YesOrNoExamples | projects/rpx-xui-translation/src/lib/rpx-translation.service.ts:79-88 | with `oui`/`non`: `yes` gives `oui`, `Yes` gives `Oui`, `No` gives `Non`; an empty variant falls back to the value |
| XuiProperties.CoalescedBatch | projects/rpx-xui-translation/src/lib/rpx-translation.service.ts:145-166 | two phrases requested before the timer runs out go out in one request, in order |
| XuiProperties.QueuedDuringFlightIsDropped | projects/rpx-xui-translation/src/lib/rpx-translation.service.ts:196-198 | when the answer arrives before the re-armed timer runs out, a phrase queued while its batch is in flight is cleared by the completion and stays in progress |
| XuiProperties.InFlightPhrasePostedTwice | projects/rpx-xui-translation/src/lib/rpx-translation.service.ts:154-166 | when the re-armed timer runs out first, the phrases in flight are posted again with the new one, and two requests for the language are in flight |
| XuiProperties.SharedTimerStrandsBatch | projects/rpx-xui-translation/src/lib/rpx-translation.service.ts:156-160 | when the re-translation queues a phrase of the new language, switching language re-arms the single timer for it, and the earlier language's queue is not posted |
| XuiProperties.RetranslateAllFresh | projects/rpx-xui-translation/src/lib/rpx-translation.service.ts:41 | re-translating phrases that all have fresh rows queues nothing: pending lists, timer, posted batches and table are unchanged |
| XuiProperties.SetLanguageAllFresh | projects/rpx-xui-translation/src/lib/rpx-translation.service.ts:36-43 | switching to a language in which every known phrase has a fresh row arms no timer: a timer armed for the earlier language keeps it |
| XuiProperties.StrandedPhraseWaitsForAnother | projects/rpx-xui-translation/src/lib/rpx-translation.service.ts:141-166 | after switching back, the stranded phrase is still pending, re-asking for it arms no timer and leaves it in progress, and the next new phrase posts both |
| XuiProperties.PendingPhraseWaits | projects/rpx-xui-translation/src/lib/rpx-translation.service.ts:141-166 | with no timer armed, re-asking for a pending phrase appends nothing and arms nothing; a new phrase is appended, arms the timer, and the timer posts the pending list with it |
| XuiProperties.LateResponseOverwritesChannel | projects/rpx-xui-translation/src/lib/rpx-translation.service.ts:189-194 | an answer for French that arrives after switching to English overwrites the phrase's English value |
| XuiService.RpxTranslationService.constructor | projects/rpx-xui-translation/src/lib/rpx-translation.service.ts:45-57 | the new service is the starting state: English with English persisted, or the stored language set |
| XuiService.RpxTranslationService.SetLanguage | projects/rpx-xui-translation/src/lib/rpx-translation.service.ts:36-43 | the `forEach` loop re-translates the known phrases in order, as the setter's step does |
| XuiService.RpxTranslationService.Translate | projects/rpx-xui-translation/src/lib/rpx-translation.service.ts:98-129 | the fields change as the `translate` step says, the invariant is kept, and the channel's value is returned |
| XuiService.RpxTranslationService.Refresh | projects/rpx-xui-translation/src/lib/rpx-translation.service.ts:108-123 | the store callback changes the fields as the non-English half of `translate` says, and the invariant is kept |
| XuiService.RpxTranslationService.Load | projects/rpx-xui-translation/src/lib/rpx-translation.service.ts:131-160 | the fields change as the `load` step says, and the invariant is kept |
| XuiService.RpxTranslationService.GetTranslatedData | projects/rpx-xui-translation/src/lib/rpx-translation.service.ts:90-96 | an existing channel is returned untouched, otherwise the phrase is translated; the invariant is kept |
| XuiService.RpxTranslationService.GetTranslation | projects/rpx-xui-translation/src/lib/rpx-translation.service.ts:59-63 | returns the `translation` field of the phrase's channel; the invariant is kept |
| XuiService.RpxTranslationService.GetTranslationWithYesOrNo | projects/rpx-xui-translation/src/lib/rpx-translation.service.ts:79-88 | returns the case-matched yes/no answer for the phrase's channel; the invariant is kept |
| XuiService.RpxTranslationService.TimerFire | projects/rpx-xui-translation/src/lib/rpx-translation.service.ts:160-166 | the armed language's pending list is posted, the timer slot cleared and the invariant kept |
| XuiService.RpxTranslationService.Complete | projects/rpx-xui-translation/src/lib/rpx-translation.service.ts:167-199 | the answer is processed as the completion step says, and the invariant is kept |
| XuiService.RpxTranslationService.Translations | projects/rpx-xui-translation/src/lib/rpx-translation.service.ts:167-188 | the loops build the normalized response or the fallback list, in order |
| XuiService.RpxTranslationService.PublishAll | projects/rpx-xui-translation/src/lib/rpx-translation.service.ts:190-194 | the loop publishes each result in order and collects one record per result |
| LegacyProperties.StartsInEnglish | projects/rpx-translation/src/lib/rpx-translation.service.ts:18-23 | the service starts in English with no phrase, queue or timer |
| LegacyProperties.LoadQueuesOnce | projects/rpx-translation/src/lib/rpx-translation.service.ts:69-84 | the phrase, the empty phrase included, is appended only if not pending; only an append re-arms the shared timer; other languages are untouched |
| LegacyProperties.LoadKeepsInv | projects/rpx-translation/src/lib/rpx-translation.service.ts:69-78 | `load` keeps the service invariant |
| LegacyProperties.RefreshPublishes | projects/rpx-translation/src/lib/rpx-translation.service.ts:50-61 | the store branch publishes the fresh stored string or the phrase marked in progress |
| LegacyProperties.RefreshStore | projects/rpx-translation/src/lib/rpx-translation.service.ts:55-58 | only an expired row for the phrase is deleted |
| LegacyProperties.TranslateRegisters | projects/rpx-translation/src/lib/rpx-translation.service.ts:42-45 | a subject is created once (its seed is stated by `RegisterKeepsInv`); the known phrases only grow |
| LegacyProperties.TranslatePublishes | projects/rpx-translation/src/lib/rpx-translation.service.ts:41-67 | the channel ends with the phrase under English, a fresh stored string, or the phrase marked in progress |
| LegacyProperties.TranslateInEnglish | projects/rpx-translation/src/lib/rpx-translation.service.ts:47-49 | under English the phrase itself is published; the table, queues, timer and posted batches are untouched |
| LegacyProperties.TranslateFreshRecord | projects/rpx-translation/src/lib/rpx-translation.service.ts:50-53 | an unexpired stored string is published, and nothing is queued, deleted or posted |
| LegacyProperties.TranslateStaleOrMissing | projects/rpx-translation/src/lib/rpx-translation.service.ts:54-61 | without a fresh record, an expired row is deleted, the in-progress string published and the phrase queued; posted batches are untouched |
| LegacyProperties.RegisterKeepsInv | projects/rpx-translation/src/lib/rpx-translation.service.ts:42-45 | a phrase without a subject becomes known, with a subject seeded with the phrase itself; a phrase with a subject is left alone; the service invariant is kept |
| LegacyProperties.RepublishKeepsInv | projects/rpx-translation/src/lib/rpx-translation.service.ts:47-59 | a new value on an existing subject, with a well-formed table, keeps the service invariant |
| LegacyProperties.TranslateKeepsInv | projects/rpx-translation/src/lib/rpx-translation.service.ts:41-67 | `translate` keeps the service invariant |
| LegacyProperties.TranslateKeepsStoreOk | projects/rpx-translation/src/lib/rpx-translation.service.ts:55-58 | `translate` keeps the table well-formed |
| LegacyProperties.TranslateFrame | projects/rpx-translation/src/lib/rpx-translation.service.ts:50-61 | `translate` changes no other phrase's channel and no other phrase's lookup |
| LegacyProperties.RetranslateKeepsInv | projects/rpx-translation/src/lib/rpx-translation.service.ts:28 | re-translating keeps the invariant, the known phrases and the language |
| LegacyProperties.RetranslatePublishes | projects/rpx-translation/src/lib/rpx-translation.service.ts:28 | re-translating distinct phrases publishes each from the original table and leaves the others alone |
| LegacyProperties.SetLanguageRetranslates | projects/rpx-translation/src/lib/rpx-translation.service.ts:25-30 | the same language changes nothing; a new one re-translates every known phrase under it |
| LegacyProperties.CompleteKeepsInv | projects/rpx-translation/src/lib/rpx-translation.service.ts:93-104 | completing a batch keeps the service invariant |
| LegacyProperties.CompleteResolves | projects/rpx-translation/src/lib/rpx-translation.service.ts:86-104 | every result is published and stored with expiry now plus validity; a failed request echoes every pending phrase; the pending list is emptied and the timer slot nulled |
| LegacyProperties.CompleteFrame | projects/rpx-translation/src/lib/rpx-translation.service.ts:93-102 | completing a batch leaves other channels, other languages' pending lists, the language and the known phrases unchanged |
| LegacyProperties.CompleteStore | projects/rpx-translation/src/lib/rpx-translation.service.ts:95-99 | the table after a completed batch is the old table followed by one row per result, in order, with the next keys and expiry now plus validity |
| LegacyProperties.RecordsAppended | projects/rpx-translation/src/lib/rpx-translation.service.ts:95-99 | `bulkAdd` of the records built from the results appends exactly one row per result carrying its phrase, the language, its value and the expiry, under consecutive fresh keys |
| LegacyProperties.FireKeepsInv | projects/rpx-translation/src/lib/rpx-translation.service.ts:84-86 | posting a batch keeps the service invariant |
| LegacyProperties.FirePostsNonEmpty | projects/rpx-translation/src/lib/rpx-translation.service.ts:78-86 | the timer posts the armed language's pending list, which is never empty (it may be only the empty phrase) |
| LegacyProperties.EmptyPhraseIsRequested | projects/rpx-translation/src/lib/rpx-translation.service.ts:69-84 | the empty phrase is queued and posted |
| LegacyService.RpxTranslationService.constructor | projects/rpx-translation/src/lib/rpx-translation.service.ts:36-39 | the new service is the starting state in English |
| LegacyService.RpxTranslationService.SetLanguage | projects/rpx-translation/src/lib/rpx-translation.service.ts:25-30 | the `forEach` loop re-translates the known phrases in order, as the setter's step does |
| LegacyService.RpxTranslationService.Translate | projects/rpx-translation/src/lib/rpx-translation.service.ts:41-67 | the fields change as the `translate` step says, the invariant is kept, and the channel's value is returned |
| LegacyService.RpxTranslationService.Refresh | projects/rpx-translation/src/lib/rpx-translation.service.ts:50-61 | the store callback changes the fields as the non-English half of `translate` says, and the invariant is kept |
| LegacyService.RpxTranslationService.Load | projects/rpx-translation/src/lib/rpx-translation.service.ts:69-84 | the fields change as the `load` step says, and the invariant is kept |
| LegacyService.RpxTranslationService.TimerFire | projects/rpx-translation/src/lib/rpx-translation.service.ts:84-86 | the armed language's pending list is posted, the timer slot cleared and the invariant kept |
| LegacyService.RpxTranslationService.Complete | projects/rpx-translation/src/lib/rpx-translation.service.ts:86-104 | the answer is processed as the completion step says, and the invariant is kept |
| LegacyService.RpxTranslationService.Translations | projects/rpx-translation/src/lib/rpx-translation.service.ts:86-92 | the response, or each pending phrase paired with itself |
| LegacyService.RpxTranslationService.PublishAll | projects/rpx-translation/src/lib/rpx-translation.service.ts:94-98 | the loop publishes each result in order and collects one record per result |

## Left out

- rxjs: a channel is the latest value of its `BehaviorSubject`. Subscribers, `observables`,
  and the unsubscribing of the timer and the HTTP subscription are not modelled. A method that
  returns an observable returns the channel's value when the call ends.
- Dexie `liveQuery` re-running a query when the table changes, and the asynchrony of
  `first`, `delete` and `bulkAdd`: the store is read and written synchronously. In the older
  service, `load` receives the language current when its callback runs. Because the callback
  runs at once here, that is the language of the `translate` call.
- HTTP and URL building: the answer is an input. A successful one is a list of distinct keys
  with their entries, each key having a channel, as `this.phrases[p].next` requires. A storage
  failure of `bulkAdd` is not modelled.
- Luxon dates, ISO strings and `ValidityDurationSpec`: instants are integers and the validity
  is a number of milliseconds. The debounce duration is not modelled, only its expiry.
- Cookie parsing and `console.log`: the persisted language is an input of the constructor, a
  cookie write sets `cookie`, and the language stream is the list `languageLog`.
- Unicode case mapping: `toUpperCase`/`toLowerCase` are ASCII-only.
- Object key order: JavaScript lists integer-like keys of an object first. Here the keys of
  `phrases`, of a response and of a replacement map keep their insertion order.
- `$` patterns in a replacement value (`$&`, `$1`, ...) that `String.prototype.replace`
  interprets are not modelled. Values are inserted literally.
- Runs of `replacePlaceholders` that never return: the model covers exactly the inputs on
  which every key's `while` loop ends (`Placeholders.AllHalt`). The source loops forever on
  the others, so the model has no result for them (`Placeholders.DivergentInputNeverHalts`).
- `getTranslationWithReplacements$`: `splitPhraseIntoComponents` is not part of this model.
- `shouldTranslate`: the shown service neither defines nor calls it.
- The translate pipes, module wiring, demo apps and configuration classes.
- In the older service, completing a batch while the timer slot is already null throws at
  `this._requestTimerSubscription!.unsubscribe()`. This happens after the table write and the
  pending-list reset, so the state reached is the one modelled. The thrown error itself is not
  modelled.

/**
 * The cached-translation table (db.ts): a `Translation` record with an expiry instant, and
 * the Dexie table `translations: '++id, [phrase+lang]'` — an auto-increment primary key and
 * a plain, non-unique index on the phrase/language pair. The table is a sequence of rows in
 * primary-key order; instants are integers (milliseconds).
 */
module Db {
  import opened Wrappers

  /** A cached translation; `P` is the payload (a string, or the structured data of the newer service). */
  datatype Record<P> = Record(id: Option<nat>, phrase: string, lang: string, translation: P, validity: int)

  /** `Translation.create`: exactly the given fields; the id is left for the table to assign. */
  function Create<P>(phrase: string, lang: string, translation: P, validity: int): (t: Record<P>)
    ensures t.id == None
    ensures t.phrase == phrase && t.lang == lang && t.translation == translation && t.validity == validity
  {
    Record(None, phrase, lang, translation, validity)
  }

  /** `isExpired`: the validity instant lies strictly before now. */
  predicate IsExpired<P>(t: Record<P>, now: int)
  {
    t.validity < now
  }

  /** A record is still valid at the very instant its validity names. */
  lemma NotExpiredAtValidity<P>(t: Record<P>)
    ensures !IsExpired(t, t.validity)
  {
  }

  /** Once expired, a record stays expired. */
  lemma ExpiryIsPermanent<P>(t: Record<P>, now: int, later: int)
    requires IsExpired(t, now) && now <= later
    ensures IsExpired(t, later)
  {
  }

  predicate Matches<P>(t: Record<P>, phrase: string, lang: string)
  {
    t.phrase == phrase && t.lang == lang
  }

  /** The primary key of a stored row (-1 for a row without one). */
  function Key<P>(t: Record<P>): int
  {
    match t.id
    case Some(n) => n
    case None => -1
  }

  /**
   * The rows a table can hold: every row has a key below the next auto-increment value,
   * and keys strictly increase along the sequence.
   */
  predicate StoreOk<P>(rows: seq<Record<P>>, nextId: nat)
  {
    && (forall i :: 0 <= i < |rows| ==> rows[i].id.Some? && Key(rows[i]) < nextId)
    && (forall i, j :: 0 <= i < j < |rows| ==> Key(rows[i]) < Key(rows[j]))
  }

  /**
   * `where('[phrase+lang]').equals([phrase, lang]).first()`: the first row in index order.
   * Rows that share the pair are ordered by primary key, so this is the earliest such row.
   */
  function Lookup<P>(rows: seq<Record<P>>, phrase: string, lang: string): (r: Option<Record<P>>)
    ensures r.Some? ==> r.value in rows && Matches(r.value, phrase, lang)
    ensures r.None? <==> forall t :: t in rows ==> !Matches(t, phrase, lang)
  {
    if rows == [] then None
    else if Matches(rows[0], phrase, lang) then Some(rows[0])
    else Lookup(rows[1..], phrase, lang)
  }

  /** Of all rows for the pair, the lookup returns the one with the smallest primary key. */
  lemma {:induction false} LookupOldest<P>(rows: seq<Record<P>>, nextId: nat, phrase: string, lang: string)
    requires StoreOk(rows, nextId)
    requires Lookup(rows, phrase, lang).Some?
    ensures forall t :: t in rows && Matches(t, phrase, lang) ==> Key(Lookup(rows, phrase, lang).value) <= Key(t)
  {
    if !Matches(rows[0], phrase, lang) {
      assert StoreOk(rows[1..], nextId);
      LookupOldest(rows[1..], nextId, phrase, lang);
    } else {
      forall t | t in rows && Matches(t, phrase, lang) ensures Key(rows[0]) <= Key(t) {
        var i :| 0 <= i < |rows| && rows[i] == t;
        assert i == 0 || Key(rows[0]) < Key(rows[i]);
      }
    }
  }

  /** `translations.delete(id)`: removes the row with that primary key, keeps the others in order. */
  function Delete<P>(rows: seq<Record<P>>, id: nat): (r: seq<Record<P>>)
    ensures forall t :: t in r ==> t in rows && t.id != Some(id)
    ensures forall t :: t in rows && t.id != Some(id) ==> t in r
  {
    if rows == [] then []
    else (if rows[0].id == Some(id) then [] else [rows[0]]) + Delete(rows[1..], id)
  }

  /** A well-formed table splits into a well-formed first row below a well-formed rest. */
  lemma StoreOkTail<P>(rows: seq<Record<P>>, nextId: nat)
    requires StoreOk(rows, nextId) && rows != []
    ensures rows[0].id.Some? && Key(rows[0]) < nextId
    ensures StoreOk(rows[1..], nextId)
    ensures forall t :: t in rows[1..] ==> Key(rows[0]) < Key(t)
  {
    forall t | t in rows[1..] ensures Key(rows[0]) < Key(t) {
      var i :| 0 <= i < |rows[1..]| && rows[1..][i] == t;
      assert rows[i + 1] == t;
    }
  }

  /** A row below every row of a well-formed table can go in front of it. */
  lemma StoreOkCons<P>(h: Record<P>, rest: seq<Record<P>>, nextId: nat)
    requires h.id.Some? && Key(h) < nextId
    requires StoreOk(rest, nextId)
    requires forall t :: t in rest ==> Key(h) < Key(t)
    ensures StoreOk([h] + rest, nextId)
  {
    var r := [h] + rest;
    forall i | 0 <= i < |r| ensures r[i].id.Some? && Key(r[i]) < nextId {
      if i > 0 { assert r[i] == rest[i - 1]; }
    }
    forall i, j | 0 <= i < j < |r| ensures Key(r[i]) < Key(r[j]) {
      assert r[j] == rest[j - 1] && rest[j - 1] in rest;
      if i > 0 { assert r[i] == rest[i - 1]; }
    }
  }

  lemma {:induction false} DeleteKeepsStoreOk<P>(rows: seq<Record<P>>, nextId: nat, id: nat)
    requires StoreOk(rows, nextId)
    ensures StoreOk(Delete(rows, id), nextId)
  {
    if rows != [] {
      StoreOkTail(rows, nextId);
      DeleteKeepsStoreOk(rows[1..], nextId, id);
      var rest := Delete(rows[1..], id);
      if rows[0].id == Some(id) {
        assert Delete(rows, id) == rest;
      } else {
        assert Delete(rows, id) == [rows[0]] + rest;
        StoreOkCons(rows[0], rest, nextId);
      }
    }
  }

  /**
   * Deleting a key whose rows all belong to other pairs does not change what a lookup for
   * this pair returns.
   */
  lemma {:induction false} LookupAfterDelete<P>(rows: seq<Record<P>>, id: nat, phrase: string, lang: string)
    requires forall t :: t in rows && t.id == Some(id) ==> !Matches(t, phrase, lang)
    ensures Lookup(Delete(rows, id), phrase, lang) == Lookup(rows, phrase, lang)
  {
    if rows != [] {
      assert rows[0] in rows;
      LookupAfterDelete(rows[1..], id, phrase, lang);
      var rest := Delete(rows[1..], id);
      if rows[0].id == Some(id) {
        assert Delete(rows, id) == rest;
      } else {
        assert Delete(rows, id) == [rows[0]] + rest;
        assert ([rows[0]] + rest)[1..] == rest;
      }
    }
  }

  /** Primary keys are unique in a well-formed table. */
  lemma UniqueKeys<P>(rows: seq<Record<P>>, nextId: nat, t: Record<P>, u: Record<P>)
    requires StoreOk(rows, nextId) && t in rows && u in rows && t.id == u.id
    ensures t == u
  {
    var i :| 0 <= i < |rows| && rows[i] == t;
    var j :| 0 <= j < |rows| && rows[j] == u;
    assert !(i < j) && !(j < i);
  }

  /** Deleting a stored row's key removes exactly that row from a well-formed table. */
  lemma DeleteRemovesOnly<P>(rows: seq<Record<P>>, nextId: nat, t: Record<P>)
    requires StoreOk(rows, nextId) && t in rows && t.id.Some?
    ensures t !in Delete(rows, t.id.value)
    ensures forall u :: u in rows && u != t ==> u in Delete(rows, t.id.value)
  {
    forall u | u in rows && u != t ensures u.id != t.id {
      if u.id == t.id { UniqueKeys(rows, nextId, u, t); }
    }
  }

  /** The records `bulkAdd` stores: each gets the next auto-increment key, in order. */
  function Stamp<P>(records: seq<Record<P>>, nextId: nat): (r: seq<Record<P>>)
  {
    seq(|records|, i requires 0 <= i < |records| => records[i].(id := Some(nextId + i)))
  }

  /** `bulkAdd` keeps the stored rows in front and appends each record with its new key. */
  lemma AppendStamped<P>(rows: seq<Record<P>>, records: seq<Record<P>>, nextId: nat)
    ensures |rows + Stamp(records, nextId)| == |rows| + |records|
    ensures (rows + Stamp(records, nextId))[..|rows|] == rows
    ensures forall k :: 0 <= k < |records| ==>
              (rows + Stamp(records, nextId))[|rows| + k] == records[k].(id := Some(nextId + k))
  {
  }

  /** `bulkAdd` appends with fresh keys: the table stays well-formed. */
  lemma BulkAddKeepsStoreOk<P>(rows: seq<Record<P>>, nextId: nat, records: seq<Record<P>>)
    requires StoreOk(rows, nextId)
    ensures StoreOk(rows + Stamp(records, nextId), nextId + |records|)
  {
    var all := rows + Stamp(records, nextId);
    forall i, j | 0 <= i < j < |all| ensures Key(all[i]) < Key(all[j]) {
      if j < |rows| {
      } else if i < |rows| {
        assert Key(all[j]) == nextId + (j - |rows|);
      } else {
        assert Key(all[i]) == nextId + (i - |rows|);
        assert Key(all[j]) == nextId + (j - |rows|);
      }
    }
  }

  /** A lookup on appended rows finds an earlier row first. */
  lemma {:induction false} LookupAppend<P>(rows: seq<Record<P>>, more: seq<Record<P>>, phrase: string, lang: string)
    ensures Lookup(rows + more, phrase, lang) ==
            if Lookup(rows, phrase, lang).Some? then Lookup(rows, phrase, lang) else Lookup(more, phrase, lang)
  {
    if rows != [] {
      assert (rows + more)[0] == rows[0];
      assert (rows + more)[1..] == rows[1..] + more;
      LookupAppend(rows[1..], more, phrase, lang);
    } else {
      assert rows + more == more;
    }
  }

  /**
   * The table does not replace a record for the same pair: after `bulkAdd` of another
   * record for a pair already present, both rows are stored and the lookup still returns
   * the older one.
   */
  lemma BulkAddKeepsOlderRecord<P>(rows: seq<Record<P>>, nextId: nat, records: seq<Record<P>>, k: nat)
    requires k < |records|
    requires Lookup(rows, records[k].phrase, records[k].lang).Some?
    ensures Lookup(rows + Stamp(records, nextId), records[k].phrase, records[k].lang) ==
            Lookup(rows, records[k].phrase, records[k].lang)
    ensures Stamp(records, nextId)[k] in rows + Stamp(records, nextId)
    ensures Matches(Stamp(records, nextId)[k], records[k].phrase, records[k].lang)
  {
    LookupAppend(rows, Stamp(records, nextId), records[k].phrase, records[k].lang);
  }

  /**
   * Round trip: a record added for a pair with no stored row is what the next lookup returns,
   * unexpired up to and including its validity instant, expired after it.
   */
  lemma BulkAddThenLookup<P>(rows: seq<Record<P>>, nextId: nat, records: seq<Record<P>>, k: nat, now: int)
    requires k < |records|
    requires Lookup(rows, records[k].phrase, records[k].lang).None?
    requires forall j :: 0 <= j < k ==> !Matches(records[j], records[k].phrase, records[k].lang)
    ensures Lookup(rows + Stamp(records, nextId), records[k].phrase, records[k].lang) ==
            Some(records[k].(id := Some(nextId + k)))
    ensures !IsExpired(Lookup(rows + Stamp(records, nextId), records[k].phrase, records[k].lang).value, records[k].validity)
    ensures records[k].validity < now ==>
              IsExpired(Lookup(rows + Stamp(records, nextId), records[k].phrase, records[k].lang).value, now)
  {
    var phrase, lang := records[k].phrase, records[k].lang;
    var added := Stamp(records, nextId);
    assert added[k] == records[k].(id := Some(nextId + k));
    forall j | 0 <= j < k ensures !Matches(added[j], phrase, lang) {
      assert added[j] == records[j].(id := Some(nextId + j));
    }
    LookupAppend(rows, added, phrase, lang);
    LookupPrefix(added, k, phrase, lang);
  }

  /** A lookup returns the first matching row when all rows before it do not match. */
  lemma {:induction false} LookupPrefix<P>(rows: seq<Record<P>>, k: nat, phrase: string, lang: string)
    requires k < |rows| && Matches(rows[k], phrase, lang)
    requires forall j :: 0 <= j < k ==> !Matches(rows[j], phrase, lang)
    ensures Lookup(rows, phrase, lang) == Some(rows[k])
  {
    if k > 0 {
      LookupPrefix(rows[1..], k - 1, phrase, lang);
    }
  }
}

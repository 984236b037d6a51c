/**
 * The credential hand-off of auth/credentials.py. `save_credentials` checks
 * the typed client ID and secret, puts them into the session and into the
 * store under a fresh key that lives five minutes, and moves on to the
 * authorization screen. `get_credentials` returns the session's pair, and when
 * either half is empty looks the pair up in the store under the session's
 * `temp_key` or else the `state` query parameter (the OAuth `state` value of
 * section 4.1.1 of RFC 6749, used here as the store key) and copies it back
 * into the session.
 */
module Credentials {
  import opened Wrappers
  import opened Text
  import opened Storage
  import opened Session

  // ---------------------------------------------------------------------------
  // save_credentials (lines 7-39)

  /** The three messages `save_credentials` can stop with. */
  datatype SaveError = MissingClientId | MissingClientSecret | ClientIdNotNumber

  /** Lines 8-18: the checks in their order; the first that fails is reported. */
  function Validate(idInput: string, secretInput: string): (r: Option<SaveError>)
    ensures r == Some(MissingClientId) <==> idInput == ""
    ensures r == Some(MissingClientSecret) <==> idInput != "" && secretInput == ""
    ensures r == Some(ClientIdNotNumber) <==> idInput != "" && secretInput != "" && ParseInt(idInput).None?
    ensures r.None? <==> idInput != "" && secretInput != "" && ParseInt(idInput).Some?
  {
    if idInput == "" then Some(MissingClientId)
    else if secretInput == "" then Some(MissingClientSecret)
    else if ParseInt(idInput).None? then Some(ClientIdNotNumber)
    else None
  }

  /** A client ID that `int()` rejects, such as "abc", stops the save once a secret is typed. */
  lemma WordClientIdRejected(secretInput: string)
    requires secretInput != ""
    ensures Validate("abc", secretInput) == Some(ClientIdNotNumber)
  {
    ParseIntRejectsWord();
  }

  /** How long a stored pair lives, in seconds (line 25). */
  const Lifetime: real := 300.0

  /** Lines 28-33: the loaded store with the new pair under `key`, expiring `Lifetime` after `now`. */
  function WithEntry(loaded: Store, key: string, id: string, secret: string, now: real): (r: Store)
    ensures r.Keys == loaded.Keys + {key}
    ensures r[key].clientId == id && r[key].clientSecret == secret && ExpiresAt(r[key]) == now + Lifetime
    ensures forall k :: k in loaded && k != key ==> r[k] == loaded[k]
  {
    loaded[key := Entry(id, secret, Some(now + Lifetime))]
  }

  /** The session after a successful save: the typed strings, the new key, the next screen. */
  function SavedState(st: State, key: string): (r: State)
    requires st.clientIdInput.Set? && st.clientSecretInput.Set?
    ensures r.clientId == st.clientIdInput && r.clientSecret == st.clientSecretInput
    ensures r.tempKey == Set(Some(key)) && r.phase == Set(AuthorizationPhase)
    ensures r.(clientId := st.clientId, clientSecret := st.clientSecret, tempKey := st.tempKey, phase := st.phase) == st
  {
    st.(clientId := Set(st.clientIdInput.value), clientSecret := Set(st.clientSecretInput.value),
        tempKey := Set(Some(key)), phase := Set(AuthorizationPhase))
  }

  /** A fresh key adds exactly one entry, and every entry already there stays as it was. */
  lemma OneNewKey(loaded: Store, key: string, id: string, secret: string, now: real)
    requires key !in loaded
    ensures |WithEntry(loaded, key, id, secret, now)| == |loaded| + 1
    ensures Clean(loaded, now) == Clean(WithEntry(loaded, key, id, secret, now), now) - {key}
  {
    var r := WithEntry(loaded, key, id, secret, now);
    assert |r.Keys| == |loaded.Keys| + 1 by {
      assert r.Keys == loaded.Keys + {key};
    }
    CleanWithoutKey(loaded, r, key, now);
  }

  lemma CleanWithoutKey(loaded: Store, r: Store, key: string, now: real)
    requires r.Keys == loaded.Keys + {key} && key !in loaded
    requires forall k :: k in loaded ==> r[k] == loaded[k]
    ensures Clean(loaded, now) == Clean(r, now) - {key}
  {
    var a, b := Clean(loaded, now), Clean(r, now) - {key};
    assert forall k :: k in a <==> k in b;
    assert forall k :: k in a ==> a[k] == b[k];
  }

  /** The new pair is still there for a clean at time `t` exactly while `t` is under five minutes
      after the save. */
  lemma NewEntryLifetime(loaded: Store, key: string, id: string, secret: string, now: real, t: real)
    ensures key in Clean(WithEntry(loaded, key, id, secret, now), t) <==> t < now + 300.0
  {
  }

  /** After a save, the session and the store agree: the session's key names the stored pair,
      and that pair is what the session holds, as typed (" 42" stays " 42"). */
  lemma SavedSessionMatchesStore(st: State, loaded: Store, key: string, now: real)
    requires st.clientIdInput.Set? && st.clientSecretInput.Set?
    ensures var saved := SavedState(st, key);
            var store := WithEntry(loaded, key, st.clientIdInput.value, st.clientSecretInput.value, now);
            saved.tempKey == Set(Some(key)) && key in store
            && saved.clientId == Set(store[key].clientId) && saved.clientSecret == Set(store[key].clientSecret)
            && saved.phase == Set(AuthorizationPhase)
  {
  }

  /** Lines 7-39. On an error nothing changes; otherwise the session takes the typed pair, the
      store (loaded at `now`) gains it under `key`, and the phase becomes authorization. */
  method SaveCredentials(s: SessionState, storage: TempStorage, key: string, now: real) returns (err: Option<SaveError>)
    requires s.clientIdInput.Set? && s.clientSecretInput.Set?
    modifies s, storage
    ensures err == Validate(old(s.clientIdInput.value), old(s.clientSecretInput.value))
    ensures err.Some? ==> s.Snapshot() == old(s.Snapshot()) && storage.file == old(storage.file)
                          && storage.saves == old(storage.saves)
    ensures err.None? ==>
      var store := WithEntry(Loaded(old(storage.file), now), key, old(s.clientIdInput.value),
                             old(s.clientSecretInput.value), now);
      s.Snapshot() == SavedState(old(s.Snapshot()), key)
      && storage.file == Stored(store)
      && storage.saves == old(storage.saves) + LoadWrites(old(storage.file), now) + [store]
  {
    err := Validate(s.clientIdInput.value, s.clientSecretInput.value);
    if err.None? {
      Commit(s, storage, key, now);
    }
  }

  /** Lines 20-35, once the checks have passed. */
  method Commit(s: SessionState, storage: TempStorage, key: string, now: real)
    requires s.clientIdInput.Set? && s.clientSecretInput.Set?
    modifies s, storage
    ensures s.Snapshot() == SavedState(old(s.Snapshot()), key)
    ensures storage.file == Stored(WithEntry(Loaded(old(storage.file), now), key, old(s.clientIdInput.value),
                                             old(s.clientSecretInput.value), now))
    ensures storage.saves == old(storage.saves) + LoadWrites(old(storage.file), now)
                             + [WithEntry(Loaded(old(storage.file), now), key, old(s.clientIdInput.value),
                                          old(s.clientSecretInput.value), now)]
  {
    ghost var before := s.Snapshot();
    s.clientId := Set(s.clientIdInput.value);
    s.clientSecret := Set(s.clientSecretInput.value);
    ghost var credited := s.Snapshot();
    StorePair(storage, key, s.clientId.value, s.clientSecret.value, now);
    assert s.Snapshot() == credited;
    s.tempKey := Set(Some(key));
    s.phase := Set(AuthorizationPhase);
    assert s.Snapshot() == SavedState(before, key);
  }

  /** Lines 25-33: load the store at `now`, add the pair under `key` and write it back. */
  method StorePair(storage: TempStorage, key: string, id: string, secret: string, now: real)
    modifies storage
    ensures storage.file == Stored(WithEntry(Loaded(old(storage.file), now), key, id, secret, now))
    ensures storage.saves == old(storage.saves) + LoadWrites(old(storage.file), now)
                             + [WithEntry(Loaded(old(storage.file), now), key, id, secret, now)]
  {
    var expiry := now + Lifetime;
    var tempStorage := storage.Load(now);
    tempStorage := tempStorage[key := Entry(id, secret, Some(expiry))];
    storage.Save(tempStorage);
  }

  // ---------------------------------------------------------------------------
  // get_credentials (lines 42-68)

  /** `st.session_state.get('temp_key')`. */
  function TempKey(st: State): Option<string> {
    match st.tempKey
    case Unset => None
    case Set(k) => k
  }

  /** Lines 49-53: the session's key when it is set and non-empty, else the query's `state`. */
  function LookupKey(st: State, q: Query): (r: Option<string>)
    ensures Truthy(TempKey(st)) ==> r == TempKey(st)
    ensures !Truthy(TempKey(st)) ==> r == q.state
  {
    if Truthy(TempKey(st)) then TempKey(st) else q.state
  }

  /** Lines 47 and 55: whether the store is read, which is only when a half is missing and there
      is a key to look under. */
  predicate ConsultsStore(st: State, q: Query)
    requires st.clientId.Set? && st.clientSecret.Set?
  {
    (st.clientId.value == "" || st.clientSecret.value == "") && Truthy(LookupKey(st, q))
  }

  /** Whether the lookup finds a pair in `loaded`. */
  predicate Restores(st: State, q: Query, loaded: Store)
    requires st.clientId.Set? && st.clientSecret.Set?
  {
    ConsultsStore(st, q) && LookupKey(st, q).value in loaded
  }

  /** Line 68: the pair returned; the stored one when the lookup finds it, the session's otherwise. */
  function Retrieved(st: State, q: Query, loaded: Store): (r: (string, string))
    requires st.clientId.Set? && st.clientSecret.Set?
    ensures st.clientId.value != "" && st.clientSecret.value != "" ==> r == (st.clientId.value, st.clientSecret.value)
    ensures Restores(st, q, loaded) ==>
      var e := loaded[LookupKey(st, q).value]; r == (e.clientId, e.clientSecret)
    ensures !Restores(st, q, loaded) ==> r == (st.clientId.value, st.clientSecret.value)
  {
    if Restores(st, q, loaded) then
      var e := loaded[LookupKey(st, q).value];
      (e.clientId, e.clientSecret)
    else (st.clientId.value, st.clientSecret.value)
  }

  /** Lines 62-64: on a hit the session takes the pair and the key; otherwise it is unchanged. */
  function RetrievedState(st: State, q: Query, loaded: Store): (r: State)
    requires st.clientId.Set? && st.clientSecret.Set?
    ensures !Restores(st, q, loaded) ==> r == st
    ensures Restores(st, q, loaded) ==> r.tempKey == Set(LookupKey(st, q))
    ensures r.(clientId := st.clientId, clientSecret := st.clientSecret, tempKey := st.tempKey) == st
    ensures r.clientId.Set? && r.clientSecret.Set?
    ensures (r.clientId.value, r.clientSecret.value) == Retrieved(st, q, loaded)
  {
    if Restores(st, q, loaded) then
      var e := loaded[LookupKey(st, q).value];
      st.(clientId := Set(e.clientId), clientSecret := Set(e.clientSecret), tempKey := Set(LookupKey(st, q)))
    else st
  }

  /** Lines 42-68, with the store read at `now`. */
  method GetCredentials(s: SessionState, storage: TempStorage, q: Query, now: real)
    returns (clientId: string, clientSecret: string)
    requires s.clientId.Set? && s.clientSecret.Set?
    modifies s, storage
    ensures (clientId, clientSecret) == Retrieved(old(s.Snapshot()), q, Loaded(old(storage.file), now))
    ensures s.Snapshot() == RetrievedState(old(s.Snapshot()), q, Loaded(old(storage.file), now))
    ensures ConsultsStore(old(s.Snapshot()), q) ==>
      storage.file == AfterLoad(old(storage.file), now) && storage.saves == old(storage.saves) + LoadWrites(old(storage.file), now)
    ensures !ConsultsStore(old(s.Snapshot()), q) ==> storage.file == old(storage.file) && storage.saves == old(storage.saves)
  {
    clientId := s.clientId.value;
    clientSecret := s.clientSecret.value;
    if clientId == "" || clientSecret == "" {
      var tempKey := s.tempKey.Get();
      var key: Option<string> := if tempKey.Some? then tempKey.value else None;
      if !Truthy(key) {
        key := q.state;
      }
      if Truthy(key) {
        var tempStorage := storage.Load(now);
        if key.value in tempStorage {
          clientId := tempStorage[key.value].clientId;
          clientSecret := tempStorage[key.value].clientSecret;
          s.clientId := Set(clientId);
          s.clientSecret := Set(clientSecret);
          s.tempKey := Set(key);
        }
      }
    }
  }

  /** Once a lookup has restored a non-empty pair, the next call answers from the session alone. */
  lemma RestoredSessionSuffices(st: State, q: Query, loaded: Store, later: Store)
    requires st.clientId.Set? && st.clientSecret.Set?
    requires Restores(st, q, loaded)
    requires loaded[LookupKey(st, q).value].clientId != "" && loaded[LookupKey(st, q).value].clientSecret != ""
    ensures var restored := RetrievedState(st, q, loaded);
            !ConsultsStore(restored, q) && Retrieved(restored, q, later) == Retrieved(st, q, loaded)
  {
  }

  /** The hand-off: a pair saved under `key` at `now` is found by a session that has lost it,
      through the redirect's `state`, by any clean before the five minutes are up. */
  lemma HandOff(loaded: Store, key: string, id: string, secret: string, now: real, t: real, st: State)
    requires key != "" && t < now + Lifetime
    requires st.clientId == Set("") && st.clientSecret.Set? && !Truthy(TempKey(st))
    ensures Retrieved(st, Query(Some(key), None), Clean(WithEntry(loaded, key, id, secret, now), t)) == (id, secret)
    ensures RetrievedState(st, Query(Some(key), None), Clean(WithEntry(loaded, key, id, secret, now), t)).tempKey
         == Set(Some(key))
  {
    var q := Query(Some(key), None);
    var store := Clean(WithEntry(loaded, key, id, secret, now), t);
    assert LookupKey(st, q) == Some(key);
    assert key in store;
    assert Restores(st, q, store);
  }
}

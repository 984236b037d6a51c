/**
 * The session and token logic of app.py, from the session defaults to the
 * point where an upload hands the file to the parser: the defaults and the
 * restore after the OAuth redirect, the token-expiry decision of
 * `handle_upload` (the refresh step of section 6 of RFC 6749, with the call
 * itself replaced by its answer), the handling of a successful code exchange
 * (section 4.1.3 of RFC 6749, likewise), and the Reset Application button.
 */
module App {
  import opened Wrappers
  import opened Text
  import opened Storage
  import opened Session
  import opened Credentials

  // ---------------------------------------------------------------------------
  // init_session_state (lines 20-47)

  /** A key that keeps its value when present and takes `default` when absent. */
  function OrDefault<T>(slot: Slot<T>, default: T): (r: Slot<T>)
    ensures slot.Set? ==> r == slot
    ensures slot.Unset? ==> r == Set(default)
  {
    if slot.Set? then slot else Set(default)
  }

  /** The seven keys `init_session_state` guarantees. */
  predicate Initialized(st: State) {
    st.phase.Set? && st.clientId.Set? && st.clientSecret.Set? && st.tokenData.Set?
    && st.authSuccess.Set? && st.debugMode.Set? && st.tempKey.Set?
  }

  /** `after` keeps every key `before` has, with its value; the widget keys are untouched. */
  predicate KeepsPresent(before: State, after: State) {
    (before.phase.Set? ==> after.phase == before.phase)
    && (before.clientId.Set? ==> after.clientId == before.clientId)
    && (before.clientSecret.Set? ==> after.clientSecret == before.clientSecret)
    && (before.tokenData.Set? ==> after.tokenData == before.tokenData)
    && (before.authSuccess.Set? ==> after.authSuccess == before.authSuccess)
    && (before.debugMode.Set? ==> after.debugMode == before.debugMode)
    && (before.tempKey.Set? ==> after.tempKey == before.tempKey)
    && after.clientIdInput == before.clientIdInput && after.clientSecretInput == before.clientSecretInput
    && after.uploadedFile == before.uploadedFile && after.selectedExercise == before.selectedExercise
    && after.manualAuthCode == before.manualAuthCode
  }

  /** A session with no key at all. */
  const EmptySession := State(Unset, Unset, Unset, Unset, Unset, Unset, Unset, Unset, Unset, Unset, Unset, Unset)

  /** What the defaults make of an empty session. */
  const FreshSession := State(Set(CredentialsPhase), Set(""), Set(""), Set(None), Set(false), Set(false), Set(None),
                              Unset, Unset, Unset, Unset, Unset)

  /** Lines 21-35: each default is written only where its key is absent. */
  function Defaults(st: State): (r: State)
    ensures Initialized(r) && KeepsPresent(st, r)
    ensures Initialized(st) ==> r == st
    ensures st == EmptySession ==> r == FreshSession
    ensures st.phase.Unset? ==> r.phase == Set(CredentialsPhase)
    ensures st.clientId.Unset? ==> r.clientId == Set("")
    ensures st.clientSecret.Unset? ==> r.clientSecret == Set("")
    ensures st.tokenData.Unset? ==> r.tokenData == Set(None)
    ensures st.authSuccess.Unset? ==> r.authSuccess == Set(false)
    ensures st.debugMode.Unset? ==> r.debugMode == Set(false)
    ensures st.tempKey.Unset? ==> r.tempKey == Set(None)
  {
    st.(phase := OrDefault(st.phase, CredentialsPhase),
        clientId := OrDefault(st.clientId, ""),
        clientSecret := OrDefault(st.clientSecret, ""),
        tokenData := OrDefault(st.tokenData, None),
        authSuccess := OrDefault(st.authSuccess, false),
        debugMode := OrDefault(st.debugMode, false),
        tempKey := OrDefault(st.tempKey, None))
  }

  /** Lines 38-47: after the redirect, a `state` that names a stored pair brings that pair, the
      key and the authorization screen back into the session. */
  function Restored(st: State, q: Query, loaded: Store): (r: State)
    ensures r.(tempKey := st.tempKey, clientId := st.clientId, clientSecret := st.clientSecret, phase := st.phase) == st
  {
    if q.state.Some? && q.code.Some? && q.state.value in loaded then
      var e := loaded[q.state.value];
      st.(tempKey := Set(q.state), clientId := Set(e.clientId), clientSecret := Set(e.clientSecret),
          phase := Set(AuthorizationPhase))
    else st
  }

  /** A restore changes the session only when `state` names a stored pair; it then holds the
      stored pair and the key, shows the authorization screen, and `get_credentials` answers
      from the session. */
  lemma RestoreIff(st: State, q: Query, loaded: Store)
    ensures Restored(st, q, loaded) != st ==> q.state.Some? && q.code.Some? && q.state.value in loaded
    ensures q.state.Some? && q.code.Some? && q.state.value in loaded ==>
      var r := Restored(st, q, loaded);
      var e := loaded[q.state.value];
      TempKey(r) == q.state && r.clientId == Set(e.clientId) && r.clientSecret == Set(e.clientSecret)
      && r.phase == Set(AuthorizationPhase)
      && (e.clientId != "" && e.clientSecret != "" ==> Retrieved(r, q, loaded) == (e.clientId, e.clientSecret))
  {
  }

  /** Lines 20-47: the defaults, then the restore; every key the defaults guarantee is set, and
      without a redirect nothing but the defaults is written. */
  function Initialize(st: State, q: Query, loaded: Store): (r: State)
    ensures Initialized(r)
    ensures q.state.None? || q.code.None? ==> r == Defaults(st)
  {
    Restored(Defaults(st), q, loaded)
  }

  /** Running `init_session_state` twice against the same store is running it once: the second
      pass writes no default, and the restore writes what it wrote before. */
  lemma InitIdempotent(st: State, q: Query, loaded: Store)
    ensures Defaults(Initialize(st, q, loaded)) == Initialize(st, q, loaded)
    ensures Initialize(Initialize(st, q, loaded), q, loaded) == Initialize(st, q, loaded)
  {
    var once := Initialize(st, q, loaded);
    assert Initialized(once);
  }

  /** Without a redirect, initialisation only fills in absent keys. */
  lemma InitWithoutRedirect(st: State, q: Query, loaded: Store)
    requires q.state.None? || q.code.None?
    ensures Initialize(st, q, loaded) == Defaults(st)
    ensures KeepsPresent(st, Initialize(st, q, loaded))
  {
  }

  /** Lines 21-35: each absent key takes its default; a present key keeps its value. */
  method ApplyDefaults(s: SessionState)
    modifies s
    ensures s.Snapshot() == Defaults(old(s.Snapshot()))
  {
    s.phase := OrDefault(s.phase, CredentialsPhase);
    s.clientId := OrDefault(s.clientId, "");
    s.clientSecret := OrDefault(s.clientSecret, "");
    s.tokenData := OrDefault(s.tokenData, None);
    s.authSuccess := OrDefault(s.authSuccess, false);
    s.debugMode := OrDefault(s.debugMode, false);
    s.tempKey := OrDefault(s.tempKey, None);
  }

  /** The store is read only when both query parameters are there. */
  predicate ReadsStoreOnInit(q: Query) {
    q.state.Some? && q.code.Some?
  }

  /** Lines 20-47, with the store read at `now`. */
  method InitSessionState(s: SessionState, storage: TempStorage, q: Query, now: real)
    modifies s, storage
    ensures s.Snapshot() == Initialize(old(s.Snapshot()), q, Loaded(old(storage.file), now))
    ensures ReadsStoreOnInit(q) ==>
      storage.file == AfterLoad(old(storage.file), now) && storage.saves == old(storage.saves) + LoadWrites(old(storage.file), now)
    ensures !ReadsStoreOnInit(q) ==> storage.file == old(storage.file) && storage.saves == old(storage.saves)
  {
    ApplyDefaults(s);
    RestoreFromRedirect(s, storage, q, now);
  }

  /** Lines 37-47: after the redirect, the pair stored under `state` comes back. */
  method RestoreFromRedirect(s: SessionState, storage: TempStorage, q: Query, now: real)
    modifies s, storage
    ensures s.Snapshot() == Restored(old(s.Snapshot()), q, Loaded(old(storage.file), now))
    ensures ReadsStoreOnInit(q) ==>
      storage.file == AfterLoad(old(storage.file), now) && storage.saves == old(storage.saves) + LoadWrites(old(storage.file), now)
    ensures !ReadsStoreOnInit(q) ==> storage.file == old(storage.file) && storage.saves == old(storage.saves)
  {
    if q.state.Some? && q.code.Some? {
      ghost var before := s.Snapshot();
      var stateParam := q.state.value;
      var tempStorage := storage.Load(now);
      assert s.Snapshot() == before;
      if stateParam in tempStorage {
        var entry := tempStorage[stateParam];
        s.tempKey := Set(Some(stateParam));
        s.clientId := Set(entry.clientId);
        s.clientSecret := Set(entry.clientSecret);
        s.phase := Set(AuthorizationPhase);
      }
    }
  }

  // ---------------------------------------------------------------------------
  // handle_upload up to the parse call (lines 55-101)

  /** Lines 93-95: the exercise handed to the parser; "All Exercises" and an absent key give `None`. */
  function SelectedExercise(st: State): (r: Option<string>)
    ensures r.None? <==> st.selectedExercise.Unset? || st.selectedExercise == Set("All Exercises")
    ensures r.Some? ==> st.selectedExercise == Set(r.value)
  {
    var selected := st.selectedExercise.Get();
    if selected == Some("All Exercises") then None else selected
  }

  /** Line 64 with line 61's `int(time.time())`: the token is expired once the whole second has come. */
  predicate IsExpired(token: Token, now: real) {
    Trunc(now) >= token.expiresAt
  }

  /** For a clock after 1970 the truncation does not matter: expired means `now >= expires_at`. */
  lemma ExpiredIff(token: Token, now: real)
    requires now >= 0.0
    ensures IsExpired(token, now) <==> now >= token.expiresAt as real
  {
    var t := Trunc(now);
    if now >= token.expiresAt as real {
      assert (t + 1) as real > token.expiresAt as real;
    }
  }

  /** The token held in the session, if any (line 56). */
  function CurrentToken(st: State): Option<Token> {
    match st.tokenData
    case Unset => None
    case Set(t) => t
  }

  /** How `handle_upload` ends, up to the parse call. */
  datatype UploadOutcome =
    | NoTokenError
    | CredentialsMissing
    | RefreshFailed
    | NoFileError
    | ReadyToParse(accessToken: string, exercise: Option<string>)

  /** The arguments of the `refresh_access_token` call. */
  datatype RefreshRequest = RefreshRequest(clientId: string, clientSecret: string, refreshToken: string)

  /** The outcome, the refresh call made (if any) and the session afterwards. */
  datatype UploadStep = UploadStep(outcome: UploadOutcome, refresh: Option<RefreshRequest>, after: State)

  /** Lines 87-95: the file check, which comes after the token has been settled. */
  function AfterTokenCheck(st: State, accessToken: string): UploadOutcome
    requires st.uploadedFile.Set?
  {
    if !st.uploadedFile.value then NoFileError else ReadyToParse(accessToken, SelectedExercise(st))
  }

  /** The keys `handle_upload` reads as attributes, on the paths that read them: the credentials
      once the token has expired (through `get_credentials`), the file widget once the token is
      settled. */
  predicate UploadDefined(st: State, q: Query, loaded: Store, now: real, refreshed: Option<Token>) {
    match CurrentToken(st)
    case None => true
    case Some(token) =>
      if IsExpired(token, now) then
        st.clientId.Set? && st.clientSecret.Set?
        && (Retrieved(st, q, loaded).0 != "" && Retrieved(st, q, loaded).1 != "" && refreshed.Some? ==> st.uploadedFile.Set?)
      else st.uploadedFile.Set?
  }

  /** Lines 55-95 as a function of the session, the query, the store read at `now`, the clock and
      the answer `refreshed` that the token endpoint would give. */
  function UploadSpec(st: State, q: Query, loaded: Store, now: real, refreshed: Option<Token>): (r: UploadStep)
    requires UploadDefined(st, q, loaded, now, refreshed)
    ensures CurrentToken(st).None? ==> r == UploadStep(NoTokenError, None, st)
    ensures r.refresh.Some? <==>
      CurrentToken(st).Some? && IsExpired(CurrentToken(st).value, now)
      && Retrieved(st, q, loaded).0 != "" && Retrieved(st, q, loaded).1 != ""
    ensures r.refresh.Some? ==>
      r.refresh.value == RefreshRequest(Retrieved(st, q, loaded).0, Retrieved(st, q, loaded).1, CurrentToken(st).value.refreshToken)
    ensures CurrentToken(st).Some? && !IsExpired(CurrentToken(st).value, now) ==>
      r.after == st && (r.outcome == NoFileError || r.outcome == ReadyToParse(CurrentToken(st).value.accessToken, SelectedExercise(st)))
    ensures r.outcome == CredentialsMissing <==>
      CurrentToken(st).Some? && IsExpired(CurrentToken(st).value, now) && r.refresh.None?
    ensures r.outcome == CredentialsMissing ==> r.after.phase == Set(CredentialsPhase)
    ensures r.outcome == RefreshFailed <==> r.refresh.Some? && refreshed.None?
    ensures r.outcome == RefreshFailed ==> r.after.tokenData == st.tokenData
    ensures r.refresh.Some? && refreshed.Some? ==>
      r.after.tokenData == Set(refreshed) && (r.outcome.ReadyToParse? <==> st.uploadedFile == Set(true))
      && (r.outcome.ReadyToParse? ==> r.outcome.accessToken == refreshed.value.accessToken)
    ensures r.outcome.ReadyToParse? ==> st.uploadedFile == Set(true) && r.outcome.exercise == SelectedExercise(st)
    ensures CurrentToken(st).Some? && IsExpired(CurrentToken(st).value, now) ==>
      var rs := RetrievedState(st, q, loaded);
      r.after.(tokenData := rs.tokenData, phase := rs.phase) == rs
    ensures CurrentToken(st).Some? && !IsExpired(CurrentToken(st).value, now) ==>
      (r.outcome == NoFileError <==> st.uploadedFile == Set(false))
    ensures r.outcome == CredentialsMissing ==> r.after == RetrievedState(st, q, loaded).(phase := Set(CredentialsPhase))
    ensures r.outcome == RefreshFailed ==> r.after == RetrievedState(st, q, loaded)
    ensures r.refresh.Some? && refreshed.Some? ==> r.after == RetrievedState(st, q, loaded).(tokenData := Set(refreshed))
  {
    match CurrentToken(st)
    case None => UploadStep(NoTokenError, None, st)
    case Some(token) =>
      if IsExpired(token, now) then
        var (id, secret) := Retrieved(st, q, loaded);
        var restored := RetrievedState(st, q, loaded);
        if id == "" || secret == "" then
          UploadStep(CredentialsMissing, None, restored.(phase := Set(CredentialsPhase)))
        else
          var request := Some(RefreshRequest(id, secret, token.refreshToken));
          match refreshed
          case None => UploadStep(RefreshFailed, request, restored)
          case Some(renewed) =>
            var updated := restored.(tokenData := Set(Some(renewed)));
            UploadStep(AfterTokenCheck(updated, renewed.accessToken), request, updated)
      else UploadStep(AfterTokenCheck(st, token.accessToken), None, st)
  }

  /** Whether `handle_upload` goes to the store: only through `get_credentials` on an expired token. */
  predicate UploadReadsStore(st: State, q: Query, now: real) {
    CurrentToken(st).Some? && IsExpired(CurrentToken(st).value, now)
    && st.clientId.Set? && st.clientSecret.Set? && ConsultsStore(st, q)
  }

  /** Lines 55-95. The answer of the token endpoint is the parameter `refreshed`; the method
      returns what it would ask that endpoint, and stops where the file would be parsed. */
  method HandleUpload(s: SessionState, storage: TempStorage, q: Query, now: real, refreshed: Option<Token>)
    returns (outcome: UploadOutcome, refresh: Option<RefreshRequest>)
    requires UploadDefined(s.Snapshot(), q, Loaded(storage.file, now), now, refreshed)
    modifies s, storage
    ensures var spec := UploadSpec(old(s.Snapshot()), q, Loaded(old(storage.file), now), now, refreshed);
            outcome == spec.outcome && refresh == spec.refresh && s.Snapshot() == spec.after
    ensures UploadReadsStore(old(s.Snapshot()), q, now) ==>
      storage.file == AfterLoad(old(storage.file), now) && storage.saves == old(storage.saves) + LoadWrites(old(storage.file), now)
    ensures !UploadReadsStore(old(s.Snapshot()), q, now) ==> storage.file == old(storage.file) && storage.saves == old(storage.saves)
  {
    refresh := None;
    if s.tokenData.Unset? || s.tokenData.value.None? {
      return NoTokenError, None;
    }
    var tokenData := s.tokenData.value.value;
    var currentTime := Trunc(now);
    var accessToken: string;
    if currentTime >= tokenData.expiresAt {
      var clientId, clientSecret := GetCredentials(s, storage, q, now);
      if clientId == "" || clientSecret == "" {
        s.phase := Set(CredentialsPhase);
        return CredentialsMissing, None;
      }
      refresh := Some(RefreshRequest(clientId, clientSecret, tokenData.refreshToken));
      if refreshed.None? {
        return RefreshFailed, refresh;
      }
      s.tokenData := Set(refreshed);
      accessToken := refreshed.value.accessToken;
    } else {
      accessToken := tokenData.accessToken;
    }
    if !s.uploadedFile.value {
      return NoFileError, refresh;
    }
    var selectedExercise := s.selectedExercise.Get();
    if selectedExercise == Some("All Exercises") {
      selectedExercise := None;
    }
    outcome := ReadyToParse(accessToken, selectedExercise);
  }

  /** The refresh comes before the file check: an expired token with credentials at hand is
      refreshed even when no file is selected, and is then kept. */
  lemma RefreshBeforeFileCheck(st: State, q: Query, loaded: Store, now: real, renewed: Token)
    requires st.clientId.Set? && st.clientSecret.Set? && st.uploadedFile == Set(false)
    requires CurrentToken(st).Some? && IsExpired(CurrentToken(st).value, now)
    requires Retrieved(st, q, loaded).0 != "" && Retrieved(st, q, loaded).1 != ""
    ensures var r := UploadSpec(st, q, loaded, now, Some(renewed));
            r.outcome == NoFileError && r.refresh.Some? && r.after.tokenData == Set(Some(renewed))
  {
  }

  // ---------------------------------------------------------------------------
  // A successful code exchange (lines 208-233 and 288-308)

  /** How an attempt to trade an authorization code ends. */
  datatype ExchangeOutcome = ExchangeCredentialsMissing | ExchangeFailed | Authorized

  /** The arguments of the `get_access_token` call. */
  datatype ExchangeRequest = ExchangeRequest(clientId: string, clientSecret: string, code: string)

  /** The outcome, the call made, the session afterwards and the store key deleted, if any. */
  datatype ExchangeStep = ExchangeStep(outcome: ExchangeOutcome, request: Option<ExchangeRequest>, after: State, removed: Option<string>)

  /** Lines 212-233 (and 290-310): fetch the credentials, trade `code`, and on success keep the
      token, mark success, drop the handed-off pair from the store and go to the upload screen. */
  function ExchangeSpec(st: State, q: Query, loaded: Store, code: string, exchanged: Option<Token>): (r: ExchangeStep)
    requires st.clientId.Set? && st.clientSecret.Set?
    ensures r.outcome == Authorized <==>
      Retrieved(st, q, loaded).0 != "" && Retrieved(st, q, loaded).1 != "" && exchanged.Some?
    ensures r.request.Some? <==> Retrieved(st, q, loaded).0 != "" && Retrieved(st, q, loaded).1 != ""
    ensures r.request.Some? ==> r.request.value == ExchangeRequest(Retrieved(st, q, loaded).0, Retrieved(st, q, loaded).1, code)
    ensures r.outcome == ExchangeCredentialsMissing ==> r.after.phase == Set(CredentialsPhase)
    ensures r.outcome == ExchangeFailed ==> r.after == RetrievedState(st, q, loaded)
    ensures r.outcome == Authorized ==>
      r.after.tokenData == Set(exchanged) && r.after.authSuccess == Set(true) && r.after.phase == Set(UploadPhase)
    ensures r.removed.Some? <==>
      r.outcome == Authorized && Truthy(TempKey(r.after)) && TempKey(r.after).value in loaded
    ensures r.removed.Some? ==> r.removed == TempKey(r.after)
    ensures var rs := RetrievedState(st, q, loaded);
      r.after.(tokenData := rs.tokenData, authSuccess := rs.authSuccess, phase := rs.phase) == rs
    ensures r.outcome == ExchangeCredentialsMissing <==> Retrieved(st, q, loaded).0 == "" || Retrieved(st, q, loaded).1 == ""
    ensures r.outcome == ExchangeCredentialsMissing ==> r.after == RetrievedState(st, q, loaded).(phase := Set(CredentialsPhase))
  {
    var (id, secret) := Retrieved(st, q, loaded);
    var restored := RetrievedState(st, q, loaded);
    if id == "" || secret == "" then
      ExchangeStep(ExchangeCredentialsMissing, None, restored.(phase := Set(CredentialsPhase)), None)
    else
      var request := Some(ExchangeRequest(id, secret, code));
      match exchanged
      case None => ExchangeStep(ExchangeFailed, request, restored, None)
      case Some(token) =>
        var key := TempKey(restored);
        var after := restored.(tokenData := Set(Some(token)), authSuccess := Set(true), phase := Set(UploadPhase));
        ExchangeStep(Authorized, request, after, if Truthy(key) && key.value in loaded then key else None)
  }

  /** The store as the exchange leaves it. */
  function StoreAfterExchange(loaded: Store, r: ExchangeStep): Store {
    if r.removed.Some? then loaded - {r.removed.value} else loaded
  }

  /** After a successful exchange the session's key names nothing in the store any more, and
      every other stored pair is still there. */
  lemma HandedOffPairDeleted(st: State, q: Query, loaded: Store, code: string, token: Token)
    requires st.clientId.Set? && st.clientSecret.Set?
    requires Retrieved(st, q, loaded).0 != "" && Retrieved(st, q, loaded).1 != ""
    ensures var key := TempKey(RetrievedState(st, q, loaded));
            var store := StoreAfterExchange(loaded, ExchangeSpec(st, q, loaded, code, Some(token)));
            (Truthy(key) ==> key.value !in store)
            && forall k :: k in loaded && Some(k) != key ==> k in store && store[k] == loaded[k]
  {
  }

  /** The whole redirect: a new browser session that comes back with `state` naming a stored,
      non-empty pair restores it on initialisation, trades the code with exactly that pair, and
      a successful trade deletes the pair from the store. */
  lemma RedirectHandOff(loaded: Store, key: string, code: string, token: Token)
    requires key != "" && key in loaded
    requires loaded[key].clientId != "" && loaded[key].clientSecret != ""
    ensures var q := Query(Some(key), Some(code));
            var st := Initialize(EmptySession, q, loaded);
            var r := ExchangeSpec(st, q, loaded, code, Some(token));
            st.phase == Set(AuthorizationPhase)
            && r.request == Some(ExchangeRequest(loaded[key].clientId, loaded[key].clientSecret, code))
            && r.outcome == Authorized && r.removed == Some(key)
            && key !in StoreAfterExchange(loaded, r)
  {
    var q := Query(Some(key), Some(code));
    var st := Initialize(EmptySession, q, loaded);
    RestoreIff(FreshSession, q, loaded);
    assert !ConsultsStore(st, q);
    assert RetrievedState(st, q, loaded) == st;
  }

  /** Lines 224-229: with a non-empty `key`, load the store at `now` and, if the key is there,
      delete it and write the store back. */
  function RemoveFile(file: FileState, key: Option<string>, now: real): FileState {
    if !Truthy(key) then file
    else if key.value in Loaded(file, now) then Stored(Loaded(file, now) - {key.value})
    else AfterLoad(file, now)
  }

  /** The writes those lines make. */
  function RemoveWrites(file: FileState, key: Option<string>, now: real): seq<Store> {
    if !Truthy(key) then []
    else LoadWrites(file, now) + (if key.value in Loaded(file, now) then [Loaded(file, now) - {key.value}] else [])
  }

  /** The file after the exchange `r`: `get_credentials` loads it when `lookup` holds, and a
      successful exchange then removes the session's key from it. */
  function ExchangeFile(file: FileState, lookup: bool, r: ExchangeStep, now: real): FileState {
    var afterLookup := if lookup then AfterLoad(file, now) else file;
    if r.outcome == Authorized then RemoveFile(afterLookup, TempKey(r.after), now) else afterLookup
  }

  /** The writes the exchange `r` makes. */
  function ExchangeWrites(file: FileState, lookup: bool, r: ExchangeStep, now: real): seq<Store> {
    var afterLookup := if lookup then AfterLoad(file, now) else file;
    (if lookup then LoadWrites(file, now) else [])
      + (if r.outcome == Authorized then RemoveWrites(afterLookup, TempKey(r.after), now) else [])
  }

  /** With one clock reading, the two loads of an exchange write the cleaned store at most once,
      and the only other write is the store without the deleted key. */
  lemma ExchangeStoreEffect(file: FileState, st: State, q: Query, code: string, exchanged: Option<Token>, now: real)
    requires st.clientId.Set? && st.clientSecret.Set?
    ensures var loaded := Loaded(file, now);
            var r := ExchangeSpec(st, q, loaded, code, exchanged);
            var loads := ConsultsStore(st, q) || (r.outcome == Authorized && Truthy(TempKey(r.after)));
            ExchangeFile(file, ConsultsStore(st, q), r, now)
              == (if r.removed.Some? then Stored(StoreAfterExchange(loaded, r)) else if loads then AfterLoad(file, now) else file)
            && ExchangeWrites(file, ConsultsStore(st, q), r, now)
              == (if loads then LoadWrites(file, now) else []) + (if r.removed.Some? then [StoreAfterExchange(loaded, r)] else [])
  {
    LoadTwice(file, now);
    var loaded := Loaded(file, now);
    var r := ExchangeSpec(st, q, loaded, code, exchanged);
    var afterLookup := if ConsultsStore(st, q) then AfterLoad(file, now) else file;
    assert Loaded(afterLookup, now) == loaded;
    if ConsultsStore(st, q) {
      assert LoadWrites(afterLookup, now) == [];
      assert AfterLoad(afterLookup, now) == afterLookup;
    }
  }

  /** Lines 219-231, once the token has come back. */
  method FinishAuthorization(s: SessionState, storage: TempStorage, token: Token, now: real)
    modifies s, storage
    ensures s.Snapshot() == old(s.Snapshot()).(tokenData := Set(Some(token)), authSuccess := Set(true), phase := Set(UploadPhase))
    ensures storage.file == RemoveFile(old(storage.file), TempKey(old(s.Snapshot())), now)
    ensures storage.saves == old(storage.saves) + RemoveWrites(old(storage.file), TempKey(old(s.Snapshot())), now)
  {
    s.tokenData := Set(Some(token));
    s.authSuccess := Set(true);
    ghost var authorized := s.Snapshot();
    var tempKey := s.tempKey.Get();
    var key: Option<string> := if tempKey.Some? then tempKey.value else None;
    if Truthy(key) {
      var tempStorage := storage.Load(now);
      if key.value in tempStorage {
        tempStorage := tempStorage - {key.value};
        storage.Save(tempStorage);
      }
    }
    assert s.Snapshot() == authorized;
    s.phase := Set(UploadPhase);
  }

  /** The shared tail of both code paths; the answer of the token endpoint is `exchanged`. */
  method Exchange(s: SessionState, storage: TempStorage, q: Query, code: string, exchanged: Option<Token>, now: real)
    returns (outcome: ExchangeOutcome, request: Option<ExchangeRequest>)
    requires s.clientId.Set? && s.clientSecret.Set?
    modifies s, storage
    ensures var spec := ExchangeSpec(old(s.Snapshot()), q, Loaded(old(storage.file), now), code, exchanged);
            outcome == spec.outcome && request == spec.request && s.Snapshot() == spec.after
    ensures var spec := ExchangeSpec(old(s.Snapshot()), q, Loaded(old(storage.file), now), code, exchanged);
            storage.file == ExchangeFile(old(storage.file), ConsultsStore(old(s.Snapshot()), q), spec, now)
            && storage.saves == old(storage.saves) + ExchangeWrites(old(storage.file), ConsultsStore(old(s.Snapshot()), q), spec, now)
  {
    ghost var st0, file0 := s.Snapshot(), storage.file;
    ghost var spec := ExchangeSpec(st0, q, Loaded(file0, now), code, exchanged);
    var clientId, clientSecret := GetCredentials(s, storage, q, now);
    ghost var afterLookup := storage.file;
    ghost var lookupWrites := if ConsultsStore(st0, q) then LoadWrites(file0, now) else [];
    assert afterLookup == (if ConsultsStore(st0, q) then AfterLoad(file0, now) else file0);
    assert storage.saves == old(storage.saves) + lookupWrites;
    if clientId == "" || clientSecret == "" {
      s.phase := Set(CredentialsPhase);
      return ExchangeCredentialsMissing, None;
    }
    request := Some(ExchangeRequest(clientId, clientSecret, code));
    if exchanged.None? {
      return ExchangeFailed, request;
    }
    assert TempKey(s.Snapshot()) == TempKey(spec.after);
    FinishAuthorization(s, storage, exchanged.value, now);
    assert spec.outcome == Authorized;
    assert ExchangeWrites(file0, ConsultsStore(st0, q), spec, now)
        == lookupWrites + RemoveWrites(afterLookup, TempKey(spec.after), now);
    assert storage.saves == old(storage.saves) + (lookupWrites + RemoveWrites(afterLookup, TempKey(spec.after), now));
    outcome := Authorized;
  }

  /** Lines 208-233: a `code` in the query while on the authorization screen is traded. */
  method ProcessRedirectCode(s: SessionState, storage: TempStorage, q: Query, exchanged: Option<Token>, now: real)
    returns (outcome: Option<ExchangeOutcome>, request: Option<ExchangeRequest>)
    requires s.phase.Set?
    requires s.phase == Set(AuthorizationPhase) && q.code.Some? ==> s.clientId.Set? && s.clientSecret.Set?
    modifies s, storage
    ensures outcome.Some? <==> old(s.phase) == Set(AuthorizationPhase) && q.code.Some?
    ensures outcome.Some? ==>
      var spec := ExchangeSpec(old(s.Snapshot()), q, Loaded(old(storage.file), now), q.code.value, exchanged);
      outcome.value == spec.outcome && request == spec.request && s.Snapshot() == spec.after
      && storage.file == ExchangeFile(old(storage.file), ConsultsStore(old(s.Snapshot()), q), spec, now)
      && storage.saves == old(storage.saves) + ExchangeWrites(old(storage.file), ConsultsStore(old(s.Snapshot()), q), spec, now)
    ensures outcome.None? ==> request.None? && s.Snapshot() == old(s.Snapshot()) && storage.file == old(storage.file)
                              && storage.saves == old(storage.saves)
  {
    outcome, request := None, None;
    if s.phase == Set(AuthorizationPhase) && q.code.Some? {
      var result;
      result, request := Exchange(s, storage, q, q.code.value, exchanged, now);
      outcome := Some(result);
    }
  }

  /** Lines 288-310: the pasted code, when there is one, is traded the same way. */
  method VerifyManualCode(s: SessionState, storage: TempStorage, q: Query, exchanged: Option<Token>, now: real)
    returns (outcome: Option<ExchangeOutcome>, request: Option<ExchangeRequest>)
    requires s.manualAuthCode.Set?
    requires s.manualAuthCode.value != "" ==> s.clientId.Set? && s.clientSecret.Set?
    modifies s, storage
    ensures outcome.Some? <==> old(s.manualAuthCode.value) != ""
    ensures outcome.Some? ==>
      var spec := ExchangeSpec(old(s.Snapshot()), q, Loaded(old(storage.file), now), old(s.manualAuthCode.value), exchanged);
      outcome.value == spec.outcome && request == spec.request && s.Snapshot() == spec.after
      && storage.file == ExchangeFile(old(storage.file), ConsultsStore(old(s.Snapshot()), q), spec, now)
      && storage.saves == old(storage.saves) + ExchangeWrites(old(storage.file), ConsultsStore(old(s.Snapshot()), q), spec, now)
    ensures outcome.None? ==> request.None? && s.Snapshot() == old(s.Snapshot()) && storage.file == old(storage.file)
                              && storage.saves == old(storage.saves)
  {
    outcome, request := None, None;
    if s.manualAuthCode.value != "" {
      var result;
      result, request := Exchange(s, storage, q, s.manualAuthCode.value, exchanged, now);
      outcome := Some(result);
    }
  }

  // ---------------------------------------------------------------------------
  // Reset Application (lines 242-257)

  /** Lines 243-252: every key gone except the restored ones; `debug_mode` keeps its value. */
  function ResetState(debugMode: bool): (r: State)
    ensures r.debugMode == Set(debugMode) && r.tempKey.Unset?
  {
    State(Set(CredentialsPhase), Set(""), Set(""), Set(None), Set(false), Set(debugMode), Unset,
          Unset, Unset, Unset, Unset, Unset)
  }

  /** The next run's defaults make a reset session a fresh one, with the old debug setting. */
  lemma ResetThenInit(debugMode: bool, q: Query, loaded: Store)
    requires q.state.None? || q.code.None?
    ensures Initialize(ResetState(debugMode), q, loaded) == FreshSession.(debugMode := Set(debugMode))
  {
  }

  /** Lines 242-257, with the store read at `now` before it is emptied. */
  method Reset(s: SessionState, storage: TempStorage, now: real)
    requires s.debugMode.Set?
    modifies s, storage
    ensures s.Snapshot() == ResetState(old(s.debugMode.value))
    ensures storage.file == Stored(map[])
    ensures storage.saves == old(storage.saves) + LoadWrites(old(storage.file), now) + [map[]]
  {
    var debugMode := s.debugMode.value;
    // Every key but `debug_mode` is deleted, and five of them are written back.
    s.tempKey, s.clientIdInput, s.clientSecretInput := Unset, Unset, Unset;
    s.uploadedFile, s.selectedExercise, s.manualAuthCode := Unset, Unset, Unset;
    s.phase, s.clientId, s.clientSecret := Set(CredentialsPhase), Set(""), Set("");
    s.tokenData, s.authSuccess, s.debugMode := Set(None), Set(false), Set(debugMode);
    ghost var cleared := s.Snapshot();
    assert cleared == ResetState(debugMode);
    var tempStorage := storage.Load(now);
    tempStorage := map[];
    storage.Save(tempStorage);
  }
}

/**
 * The per-browser session of the app (`st.session_state`): a dictionary of
 * named keys that the app, the credential hand-off and the widgets read and
 * reassign. A key can be absent, which is not the same as holding `None`.
 */
module Session {
  import opened Wrappers

  /** A session key: absent, or present with a value (which may itself be `None`). */
  datatype Slot<+T> = Unset | Set(value: T) {
    /** `st.session_state.get(key)`: an absent key reads as `None`. */
    function Get(): Option<T> {
      match this
      case Unset => None
      case Set(v) => Some(v)
    }
  }

  /** The three screens the app walks through: 'credentials', 'authorization', 'upload'. */
  datatype Phase = CredentialsPhase | AuthorizationPhase | UploadPhase

  /** The token record the OAuth server returns: access token, refresh token, expiry (Unix seconds). */
  datatype Token = Token(accessToken: string, refreshToken: string, expiresAt: int)

  /** The URL query parameters the app reads after the OAuth redirect. */
  datatype Query = Query(state: Option<string>, code: Option<string>)

  /** Python truthiness of an optional string: present and non-empty. */
  predicate Truthy(o: Option<string>) {
    o.Some? && o.value != ""
  }

  /** A value of the whole session. */
  datatype State = State(
    phase: Slot<Phase>,
    clientId: Slot<string>,
    clientSecret: Slot<string>,
    tokenData: Slot<Option<Token>>,
    authSuccess: Slot<bool>,
    debugMode: Slot<bool>,
    tempKey: Slot<Option<string>>,
    clientIdInput: Slot<string>,
    clientSecretInput: Slot<string>,
    uploadedFile: Slot<bool>,
    selectedExercise: Slot<string>,
    manualAuthCode: Slot<string>)

  /** The session as the app mutates it, one key per field. */
  class SessionState {
    var phase: Slot<Phase>
    var clientId: Slot<string>
    var clientSecret: Slot<string>
    var tokenData: Slot<Option<Token>>
    var authSuccess: Slot<bool>
    var debugMode: Slot<bool>
    var tempKey: Slot<Option<string>>
    var clientIdInput: Slot<string>
    var clientSecretInput: Slot<string>
    /** `uploaded_file`: whether the file widget holds a file (`None` otherwise). */
    var uploadedFile: Slot<bool>
    var selectedExercise: Slot<string>
    var manualAuthCode: Slot<string>

    function Snapshot(): State
      reads this
    {
      State(phase, clientId, clientSecret, tokenData, authSuccess, debugMode, tempKey,
            clientIdInput, clientSecretInput, uploadedFile, selectedExercise, manualAuthCode)
    }

    /** A session holding exactly the keys of `s`. */
    constructor(s: State)
      ensures Snapshot() == s
    {
      phase, clientId, clientSecret, tokenData := s.phase, s.clientId, s.clientSecret, s.tokenData;
      authSuccess, debugMode, tempKey := s.authSuccess, s.debugMode, s.tempKey;
      clientIdInput, clientSecretInput := s.clientIdInput, s.clientSecretInput;
      uploadedFile, selectedExercise, manualAuthCode := s.uploadedFile, s.selectedExercise, s.manualAuthCode;
    }
  }
}

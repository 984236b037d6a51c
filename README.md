# Starva workout uploader: the core as a verified Dafny model

Starva is a Streamlit app that uploads a gym workout to Strava. It reads a CSV of sets, filters it
to one exercise, adds up the weight, reps and sets, and writes a text summary of the velocity,
power, height and vertical-distance columns the file has. To post the activity it needs an OAuth token from Strava. The user
types a client ID and secret. These are kept in the browser session and also in a small
expiring file store, under a random key that travels through the OAuth redirect as the `state`
parameter. After the redirect, a new session can take the pair back from the store.

The model covers four pieces:

- `Parser` (data/parser.py): `parse_csv`, starting from the table pandas has read, and
  `generate_unique_name`.
- `Storage` and `Session` (utils/storage.py, and the session dictionary): the expiring store,
  and the session as a class with one field per key.
- `Credentials` (auth/credentials.py): `save_credentials` and `get_credentials`.
- `App` (app.py): session defaults and the redirect restore, the token decision of
  `handle_upload`, the code exchange, and Reset Application.

`Text` models the Python built-ins the code relies on (`strip`, `replace`, `int()`, `float()`,
`str()`, `int(x)` on floats). `Wrappers` holds `Option` and `Result`.

Operations that change state are methods on two classes: `Session.SessionState` (the
session) and `Storage.TempStorage` (the store file, plus a log of every write). Each method's
postcondition ties the new state to a specification function of the old state, such as
`App.UploadSpec`, `App.ExchangeSpec` or `Credentials.Retrieved`. Lemmas then prove what the app
relies on: the order of checks, the hand-off through the store, and expiry. Clocks, fresh keys
and the answers of Strava's token endpoint are parameters.

## Model

| member | source | states |
|---|---|---|
| Parser.IndexOf | data/parser.py:76-97 | a column is found iff it is in the header; the index is of its first occurrence |
| Parser.Select | data/parser.py:76 | the filter keeps a row iff its raw `Exercise` cell equals the chosen name; it never adds rows |
| Parser.SelectIdempotent | data/parser.py:76 | filtering the kept rows again keeps all of them |
| Parser.SelectAppend | data/parser.py:76 | filtering a concatenation of rows filters each part and keeps them in order, so every matching row is kept exactly once |
| Parser.SelectKeepsRow | data/parser.py:76 | appending a row the filter accepts adds it once, at the end of the kept rows |
| Parser.NormalizeColumn | data/parser.py:80 | a normalised column name holds no space |
| Parser.NormalizeUnitSuffix | data/parser.py:80 | a plain name followed by " (kg)" becomes the name plus "kg" (so "Weight (kg)" becomes "Weightkg") |
| Parser.NormalizePlainName | data/parser.py:80 | a name with no white space and no `(` is left unchanged |
| Parser.WeightColumn | data/parser.py:83-87 | `Load` is used when present; otherwise `Weightkg` when present; there is no weight column iff neither is present |
| Parser.RepsColumn | data/parser.py:96 | `Reps` is used when present; otherwise `Rep` when present; there is no reps column iff neither is present |
| Parser.CellWeight | data/parser.py:90 | a missing cell adds 0 (NaN is skipped by the sum); a failure is a `BadWeight` naming that filled cell's text |
| Parser.CellReps | data/parser.py:96 | a missing cell adds 0; a failure is a `BadReps` naming that filled cell's text |
| Parser.SumColumnDefined | data/parser.py:90-91 | a column sum exists iff every cell in it converts |
| Parser.SumIntColumnDefined | data/parser.py:96 | the same for the reps column |
| Parser.SumColumnAppend | data/parser.py:91 | sums add up over any split of the rows |
| Parser.SumIntColumnAppend | data/parser.py:96 | whole-number sums add up over any split of the rows |
| Parser.TotalWeightAppend | data/parser.py:89-93 | the weight total of two row lists together is the sum of their totals |
| Parser.TotalRepsAppend | data/parser.py:96 | the reps total of two row lists together is the sum of their totals |
| Parser.OneRowWeight | data/parser.py:89-91 | with a weight column, one row's weight total is that row's converted weight cell |
| Parser.OneRowReps | data/parser.py:96 | with a reps column, one row's reps total is that row's converted reps cell |
| Parser.MatchingRowAdds | data/parser.py:73-97 | appending a row of the chosen exercise whose cells convert keeps the result a success and adds its weight cell (0 without the column) to the weight, and its reps cell (0 without the column) to the reps |
| Parser.SumColumnErrors | data/parser.py:90-91 | a failed sum reports the error of one of its cells |
| Parser.SumIntColumnErrors | data/parser.py:96 | the same for the reps column |
| Parser.DistinctValues | data/parser.py:97 | exactly the texts of the non-missing cells of the column, and no more of them than there are rows |
| Parser.TotalSets | data/parser.py:97 | with a `Set` column, the number of distinct non-missing `Set` texts among the kept rows (what `nunique` counts); without it, the row count; never more than the rows |
| Parser.Aggregate | data/parser.py:73-97 | on success, sets are `TotalSets` of the kept rows, so at most their number; a failure is the missing `Exercise` column or a bad weight or reps cell (the sums themselves are stated by `MatchingRowAdds` and `NoMatchGivesZero`) |
| Parser.TotalWeight | data/parser.py:89-93 | the weight total is 0 when there is no weight column, and can fail only on a weight cell |
| Parser.TotalReps | data/parser.py:96 | the reps total is 0 when there is no reps column, and can fail only on a reps cell |
| Parser.MissingExerciseIff | data/parser.py:76 | aggregation fails with the missing-column error iff the raw header has no `Exercise` |
| Parser.SelectSkipsRow | data/parser.py:76 | appending a row the filter rejects changes no kept row |
| Parser.OtherRowsIgnored | data/parser.py:76-97 | adding a row of another exercise leaves every total unchanged |
| Parser.FilterIdempotent | data/parser.py:76-97 | aggregating only the kept rows gives the same totals |
| Parser.SelectNothing | data/parser.py:76 | when no row matches, the filter keeps nothing |
| Parser.NoMatchGivesZero | data/parser.py:76-97 | a name no row carries gives weight 0, sets 0 and reps 0 |
| Parser.NoneGivesZero | data/parser.py:76-97 | `None` (what the app passes for "All Exercises") gives zero totals |
| Parser.KgSuffixIgnored | data/parser.py:90 | "50kg" weighs what "50" does: the "kg" is removed before the number is read |
| Parser.BadWeightFails | data/parser.py:89-93 | one kept weight cell that is not a number makes the whole aggregation fail |
| Parser.Present | data/parser.py:121-123 | the selected metrics are no more than the table |
| Parser.PresentMembers | data/parser.py:121-123 | a metric is printed iff it is in the table and its column is in the frame |
| Parser.PresentAppend | data/parser.py:121-123 | splitting the table splits the selected metrics |
| Parser.LinesAppend | data/parser.py:121-125 | the lines of two runs of metrics are the lines of the first, then those of the second |
| Parser.AppendMetricLines | data/parser.py:121-125 | the loop appends one line per table entry whose column is present, in table order |
| Parser.BuildDescription | data/parser.py:113-125 | the built text is the fixed header followed by the metric lines |
| Parser.LinesSplit | data/parser.py:121-125 | the metric lines of a table are those of its first k entries followed by those of the rest |
| Parser.DescriptionInTableOrder | data/parser.py:100-125 | the lines of the first k table entries come before those of the rest |
| Parser.LinesFirstTwo | data/parser.py:121-125 | when the first two table entries are present, their lines open the metric block |
| Parser.MeanVelocityLines | data/parser.py:101-102 | both of the first two table entries print as "Mean Velocity" lines in m/s with 2 decimals |
| Parser.MeanVelocityTwice | data/parser.py:100-125 | with both an `Average` and a `MeanVelocity(m/s)` column, "Mean Velocity" appears twice, right after the header |
| Parser.ParseCsv | data/parser.py:70-134 | any error gives the fallback `("Error parsing workout data", 60, 0, 0, 0)`; otherwise the description, elapsed 0 and the totals |
| Parser.TrailingDigits | data/parser.py:137-138 | part of the reverse parser for the title, used only to prove the round trip: the count of trailing digits is at most the length |
| Parser.TrailingDigitsSound | data/parser.py:137-138 | part of the reverse parser for the title, used only to prove the round trip: the counted characters are digits, and the one before them is not |
| Parser.DropSuffix | data/parser.py:137-138 | part of the reverse parser for the title, used only to prove the round trip: a suffix is dropped iff the text ends with it, and dropping it then adding it back gives the text |
| Parser.TrailingDigitsAppend | data/parser.py:137-138 | part of the reverse parser for the title, used only to prove the round trip: digits appended to text that does not end in a digit are exactly its trailing digits |
| Parser.SplitIntToString | data/parser.py:137-138 | part of the reverse parser for the title, used only to prove the round trip: a number printed at the end of a text is read back off it |
| Parser.UniqueNameRoundTrip | data/parser.py:137-138 | a title reads back as its base name, the truncated weight, the sets and the truncated reps |
| Parser.UniqueNameDetermines | data/parser.py:137-138 | titles are equal only when base name and the three printed numbers are equal |
| Text.Strip | data/parser.py:80 | the result neither starts nor ends with white space, and text already trimmed is unchanged |
| Text.StripTrims | data/parser.py:80 | what `strip` keeps is the slice of the input after its leading white space, and everything cut off on either side is white space |
| Text.RemoveCharRemovesAll | data/parser.py:80 | `replace(' ', '')` leaves no space behind |
| Text.ReplaceKeepsAbsentChar | data/parser.py:80 | `replace` never brings in a character that neither the text nor the replacement holds |
| Text.RemoveTrailingPattern | data/parser.py:90 | removing "kg" from a number followed by "kg" gives the number back |
| Text.ReplaceWithoutFirstChar | data/parser.py:80 | text without the pattern's first character is left unchanged |
| Text.ReplaceSplit | data/parser.py:80 | replacing in `a + b`, where `a` has no character of the pattern, touches only `b` |
| Text.IntToString | data/parser.py:137-138 | `str(i)` starts with '-' iff i < 0 and `int()` reads it back as i |
| Text.NatToString | data/parser.py:137-138 | a non-empty digit string with no leading zero whose value is n |
| Text.ParseIntRejectsWord | auth/credentials.py:14-18 | `int("abc")` is rejected |
| Credentials.WordClientIdRejected | auth/credentials.py:14-18 | once a secret is typed, the client ID "abc" stops the save with the not-a-number error |
| Text.ParseFloatOfNat | data/parser.py:90 | `float()` reads the digits of a natural number back as that number |
| Text.Trunc | data/parser.py:138 | `int(x)` truncates toward zero |
| Storage.Clean | utils/storage.py:20-21 | an entry survives iff its expiry is strictly after `now`, with its value unchanged; an entry without expiry is dropped for any `now >= 0` |
| Storage.CleanIdempotent | utils/storage.py:42-46 | cleaning again at the same time drops nothing |
| Storage.CleanMonotone | utils/storage.py:20-21 | a later clean keeps a subset, and cleaning at two times equals cleaning at the later one |
| Storage.CleanShrinksIff | utils/storage.py:23 | the size test detects exactly whether the clean dropped an entry |
| Storage.Loaded | utils/storage.py:13-29 | a missing or unreadable file loads as `{}`; otherwise the cleaned store is loaded |
| Storage.LoadWrites | utils/storage.py:23-24 | a load writes at most once, and writes iff it dropped an entry |
| Storage.AfterLoad | utils/storage.py:23-24 | a stored file always holds the loaded store afterwards (written back or already equal); a missing or unreadable file is left as it is |
| Storage.LoadTwice | utils/storage.py:13-29 | a second load at the same time returns the same store and writes nothing |
| Storage.TempStorage.Save | utils/storage.py:32-38 | the file holds the data, and the write is logged |
| Storage.TempStorage.Load | utils/storage.py:13-29 | returns `Loaded`; the file and the write log change as `AfterLoad` and `LoadWrites` say |
| Storage.TempStorage.CleanTempStorage | utils/storage.py:41-49 | load, filter again at the second clock reading, and write back only if that dropped more |
| Storage.CleanAfterLoadWritesNothing | utils/storage.py:42-48 | with one clock reading, the second filter of `clean_temp_storage` never writes |
| Credentials.Validate | auth/credentials.py:8-18 | the first failing check is reported: empty ID, then empty secret, then an ID `int()` rejects; no error iff all pass |
| Credentials.WithEntry | auth/credentials.py:24-33 | the store gains exactly the new key, holding the typed pair and expiring 300 s after `now`; all other entries are unchanged |
| Credentials.SavedState | auth/credentials.py:20-39 | after a save the session holds the typed ID and secret, the new key and the authorization phase, and no other key changes |
| Credentials.OneNewKey | auth/credentials.py:28-34 | a fresh key grows the store by one, and every live entry that was there survives |
| Credentials.CleanWithoutKey | auth/credentials.py:28-34 | cleaning the old store equals cleaning the new one without the new key |
| Credentials.NewEntryLifetime | auth/credentials.py:25 | the new pair survives a clean at t iff t is less than 300 s after the save |
| Credentials.SavedSessionMatchesStore | auth/credentials.py:20-39 | after a save the session's key names the stored pair, and the session holds that pair as typed |
| Credentials.SaveCredentials | auth/credentials.py:7-39 | on an error nothing changes; otherwise the session, the store and the write log are as the save prescribes |
| Credentials.Commit | auth/credentials.py:20-39 | session fields, new store entry, temp key and phase after checks pass |
| Credentials.StorePair | auth/credentials.py:25-34 | the store is loaded, extended by the new entry and written back |
| Credentials.LookupKey | auth/credentials.py:49-53 | the session's `temp_key` when it is set and non-empty, else the query's `state` |
| Credentials.Retrieved | auth/credentials.py:42-68 | a full session pair is returned as is; else the stored pair under the lookup key when there is one; else the session's pair |
| Credentials.RetrievedState | auth/credentials.py:55-64 | on a hit the session takes the returned pair and `temp_key` becomes the lookup key; otherwise it is unchanged; no other key ever changes |
| Credentials.GetCredentials | auth/credentials.py:42-68 | returns `Retrieved`, leaves `RetrievedState`, and reads the store only when a half is missing and there is a key |
| Credentials.RestoredSessionSuffices | auth/credentials.py:43-47 | once a non-empty pair is restored, the next call answers from the session alone |
| Credentials.HandOff | auth/credentials.py:24-68 | a pair saved under a key is found through the redirect's `state` before five minutes pass |
| App.Defaults | app.py:20-35 | each absent key takes its own default (credentials phase, empty ID and secret, no token, no success, debug off, no key), present keys keep their values, and a full session is unchanged |
| App.Restored | app.py:37-47 | the restore changes at most `temp_key`, `client_id`, `client_secret` and `phase` |
| App.Initialize | app.py:20-47 | after initialisation every default key is set, and without both query parameters only the defaults are written |
| App.RestoreIff | app.py:37-47 | the restore changes the session only when `state` and `code` are both there and `state` names a stored pair; it then holds that pair, the key and the authorization phase |
| App.InitIdempotent | app.py:20-47 | running initialisation twice against the same store is running it once |
| App.InitWithoutRedirect | app.py:20-35 | without both query parameters, initialisation only fills in absent keys |
| App.ApplyDefaults | app.py:20-35 | the session becomes `Defaults` of the old session |
| App.InitSessionState | app.py:20-47 | the session becomes `Initialize` of the old one; the store is read only when both query parameters are there |
| App.RestoreFromRedirect | app.py:37-47 | the session becomes `Restored`, and the store is read only with both query parameters |
| App.SelectedExercise | app.py:92-95 | "All Exercises" and an absent key give `None`; any other choice is passed on |
| App.ExpiredIff | app.py:61-64 | for `now >= 0`, the truncated clock test means exactly `now >= expires_at` |
| App.UploadSpec | app.py:55-95 | no token: an error and no change. Refresh is requested iff the token is expired and both credentials are there. Missing credentials: the restored session with only the phase set to credentials. Failed refresh: exactly the restored session, token kept. Successful refresh: the restored session with only the new token. A valid token leaves the session unchanged and gives the no-file error iff no file is selected, otherwise parsing with that stored access token. The file check comes last |
| App.HandleUpload | app.py:55-95 | outcome, refresh request and new session are those of `UploadSpec`; the store is read only on the expired path |
| App.RefreshBeforeFileCheck | app.py:64-90 | an expired token is refreshed and kept even when no file is selected |
| App.ExchangeSpec | app.py:212-233 | credentials missing iff either retrieved credential is empty, and then the restored session with only the phase set to credentials. Authorised iff credentials are there and the trade succeeds; it then sets the token, `auth_success` and the upload phase, and deletes the key exactly when it is non-empty and stored. A failed trade is exactly the restored session. On every path at most `token_data`, `auth_success` and `phase` change beyond the restore |
| App.HandedOffPairDeleted | app.py:224-229 | after a successful trade, the non-empty key that `get_credentials` leaves in the session names nothing in the store; every other entry is kept |
| App.RedirectHandOff | app.py:208-233 | a new session arriving with `state` and `code` is restored, trades the code with the stored pair, and deletes that pair |
| App.ExchangeStoreEffect | app.py:224-229 | the two loads of an exchange write the cleaned store at most once; the only other write is the store without the key |
| App.FinishAuthorization | app.py:219-231 | token, success flag and phase are set; the key's entry is removed from the store |
| App.Exchange | app.py:212-233 | outcome, request and session as `ExchangeSpec`; store and writes as `ExchangeFile` and `ExchangeWrites` |
| App.ProcessRedirectCode | app.py:208-233 | a trade happens iff the phase is authorization and the query has a `code`; otherwise nothing changes |
| App.VerifyManualCode | app.py:288-310 | a trade happens iff the pasted code is non-empty; otherwise nothing changes |
| App.ResetState | app.py:243-252 | the reset session keeps `debug_mode` and has no `temp_key` |
| App.ResetThenInit | app.py:242-252 | the next run turns a reset session into a fresh one with the old debug setting |
| App.Reset | app.py:242-257 | the session becomes `ResetState` of the old `debug_mode`; the store is loaded, then written back empty |

## Left out

- Streamlit rendering: widgets, messages, the sidebar toggle and the preview. Each widget appears only as the session key it fills.
- The network: `auth/oauth.py` and `api/starva_api.py` are not part of this model. The token endpoint's answer is a parameter (`refreshed`, `exchanged`). The model returns the request it would send (`RefreshRequest`, `ExchangeRequest`). The debug flag passed to those calls is not modelled.
- JSON and file I/O. The file is `Missing`, `Unreadable` or `Stored`; any read error loads as `{}`. Errors on write are swallowed in the source, so `Save` always succeeds here. The temp path is not modelled.
- `uuid.uuid4()` and `time.time()` are parameters: `key` and `now`. All clock readings within one operation are a single `now`. The one exception is `CleanTempStorage`, which takes the load's reading and its own second reading separately.
- pandas: CSV parsing, quoting, dtype inference and NaN. The model starts from header names and rows of cells, with `Empty` standing for NaN. A reps column holding non-numeric text fails here. pandas would instead concatenate the strings. Reps are whole numbers, so float reps that pandas prints as "30.0" are not modelled.
- The mean of a metric column and its `{:.{decimals}f}` rendering are a parameter `meanText(column, decimals)`. A metric column whose mean raises is therefore not modelled as falling back.
- Floating point: weights are exact reals. `float()` accepts only a sign, digits and one point. Exponents, `nan`, `inf` and underscores are not accepted. White space is ASCII only, and `int()` does not accept underscores or non-ASCII digits.
- Duplicate column names: a lookup uses the first match. In the source, two headers that normalise to the same weight name make `df['Load']` a DataFrame, which has no `.str`, so `parse_csv` falls back; the model sums the first such column instead.
- The session keys `activity_name` and `preview_generated`, and everything after the parse call in `handle_upload`. app.py unpacks six values from `parse_csv`, which returns five (data/parser.py:130), so the model stops at the call.
- `App.Reset` deletes the session keys field by field rather than by looping over a dictionary. The keys the model does not have are not represented.
- The commented-out older parser (data/parser.py:1-63).
- The debug `print` of the activity name (data/parser.py:77).
- `App.HandleUpload`, `App.ProcessRedirectCode`, `Credentials.SaveCredentials`, `Credentials.GetCredentials`, `App.VerifyManualCode` and `App.Reset` require the session keys they read as attributes to be present on the paths that read them. In the running app, `init_session_state` and the widgets always create those keys first. The exception is `debug_mode` at app.py:75 and app.py:218: the debug flag passed to the token endpoint is not modelled, so no requires names it there (`App.Reset` does require it, because it keeps its value).
- `Parser.Aggregate` filters on the raw header and with `None` matches no row, as the code does. There is no per-exercise grouping, and the total-weight line at data/parser.py:117 is commented out, so the description has none.

# Cyber Y2K Spotify player — a Dafny model of its logic

The player is a single-page web application. It signs the user in to Spotify
with the implicit OAuth 2.0 grant and reads the access token back from the
fragment of the redirect URL. It then drives a Spotify Web Playback SDK
player and shows the track in a retro interface. That interface has a
terminal that asks a language model about the current song, and a connect
screen with a boot log and a scrambling button label.

This project models the four parts of that program that hold logic, one
Dafny module each:

- `SpotifyService` (services/spotifyService.ts) covers three things. It
  builds the authorisation URL as string concatenation. It reads the token
  from the fragment with the `application/x-www-form-urlencoded` parser and
  `URLSearchParams.get`. It clears the fragment through a `Window` class.
  The standards these rely on get modules of their own:
  - `Strings`: JavaScript's `split`, `join` and single-character `replace`.
  - `Utf8`: the WHATWG Encoding Standard's UTF-8 encoder, and its decoder in
    replacement mode.
  - `Percent`: `encodeURIComponent` (ECMA-262 section 19.2.6.5) and the URL
    Standard's percent-decode (section 1.3).
  - `Form`: the URL Standard's form parser (section 5.1), and the
    `URLSearchParams` constructor and `get` (section 6.2).
- `App` (App.tsx) is the session state machine. The class `App.Session` has
  one method per event. Each method is proved against the pure transition
  function `App.Step`, and the lemmas are stated about that function.
- `PlayerWindow` (components/PlayerWindow.tsx) has two parts. The class
  `PlayerWindow.Controller` handles playback events, the controls and the
  one-at-a-time scan request. Pure functions derive the scan output and the
  display texts.
- `SpotifyConnect` (components/SpotifyConnect.tsx) has three parts: the
  four-line boot log, the scramble reveal, and the class
  `SpotifyConnect.ConnectScreen` with the hover interval.

`Types` holds the fields of the SDK's objects that the program reads
(types.ts).

JavaScript truthiness is modelled where the code uses it: `if (hashToken)`,
`if (!token)`, `{deviceId && …}`, `!artist || !track` and
`response.text || …` all treat the empty string as false.

External inputs the model takes as parameters:
- The value of `location.hash`.
- The SDK's player handles and device ids.
- The language model's reply: present, absent or failed.
- The random draws of the scramble.
- The order in which timers fire.

## Model

| member | source | states |
|---|---|---|
| `SpotifyService.GetLoginUrl` | services/spotifyService.ts:14-23 | The URL is `https://accounts.spotify.com/authorize`, '?', then the five pairs `client_id`, `redirect_uri`, `scope`, `response_type=token` and `show_dialog=true`, written as `name=value` and joined by '&'. The redirect URI is passed through `encodeURIComponent` and the scopes are joined with `%20`. The warning is issued exactly when CLIENT_ID is the placeholder. For a client id and scopes free of `& % + #`, a form parser reading the query gets back the five pairs in order, each decoded once: the client id unchanged, REDIRECT_URI, and the scopes in order separated by spaces. |
| `SpotifyService.LoginUrl` | services/spotifyService.ts:20-22 | The template string, written piece by piece, equals the authorize endpoint, '?', and the serialisation of the five login pairs. |
| `SpotifyService.PlaceholderStillBuildsUrl` | services/spotifyService.ts:2-17 | With the shipped placeholder id and scopes, the helper warns. Both are query-safe, so the read-back of `GetLoginUrl` holds for the shipped values too. |
| `SpotifyService.ShippedScopesSafe` | services/spotifyService.ts:6-12 | Every shipped scope is a word of letters, '-' and '_', and is query-safe. |
| `SpotifyService.WordDecodes` | services/spotifyService.ts:20-22 | A word, such as each fixed name and value of the template, decodes to itself. |
| `SpotifyService.LoginLiteralsAreWords` | services/spotifyService.ts:20-22 | The names `client_id`, `redirect_uri`, `scope`, `response_type` and `show_dialog`, and the values `token` and `true`, are words. |
| `SpotifyService.ScopeFieldExample` | services/spotifyService.ts:19 | `["a","b"]` joined with the literal `%20` is `a%20b`. |
| `SpotifyService.ScopeFieldDecodes` | services/spotifyService.ts:19 | Query-safe scopes joined by `%20` contain no `&` or `#`, and decode to the scopes joined by spaces. Nothing else is encoded. |
| `SpotifyService.PercentDecodeSpaceJoined` | services/spotifyService.ts:19 | Parts without '%' joined by `%20` percent-decode to the UTF-8 bytes of the parts joined by spaces. |
| `SpotifyService.RedirectFieldDecodes` | services/spotifyService.ts:3-21 | The encoded REDIRECT_URI contains no `&` or `#`, and decoding it once gives back REDIRECT_URI. |
| `SpotifyService.LoginQueryParses` | services/spotifyService.ts:20-22 | Parsing the login URL's query gives the template pairs, each part decoded. |
| `SpotifyService.LoginQueryReadBack` | services/spotifyService.ts:20-22 | The query reads back as the client id, REDIRECT_URI, and the scopes separated by spaces. |
| `SpotifyService.GetTokenFromUrl` | services/spotifyService.ts:25-31 | An empty fragment gives null. Otherwise the fragment after its '#' is read as URLSearchParams, and the result is the first `access_token` value (see the lemmas below). |
| `SpotifyService.TokenFromFragment` | services/spotifyService.ts:25-30 | For a fragment '#' + serialised pairs whose text does not begin with '?', the token is the first `access_token` value after decoding: `URLSearchParams` parses the fragment text, and `get` takes the first pair of that name. |
| `SpotifyService.TokenFromPlainFragment` | services/spotifyService.ts:29-30 | For pairs without `& % +`, the token is the first `access_token` value exactly as written. |
| `SpotifyService.TokenIsFirstAccessToken` | services/spotifyService.ts:29-30 | `#…&access_token=X&…`, where X has no `& % +`, yields exactly X. The other pairs may hold encoded text; only the pairs before X must have names that do not decode to `access_token`. When the key repeats, the first occurrence wins. |
| `SpotifyService.NoTokenWithoutAccessToken` | services/spotifyService.ts:29-30 | A fragment none of whose names decodes to `access_token` yields null, whatever its values hold, as in an error redirect with encoded text. |
| `SpotifyService.Window.ClearUrlHash` | services/spotifyService.ts:33-35 | Afterwards the fragment is empty, the rest of the location is unchanged, and `getTokenFromUrl` returns null. |
| `Strings.Split` | components/PlayerWindow.tsx:105 | `split` yields at least one piece, and no piece contains the separator. |
| `Strings.Join` | services/spotifyService.ts:19 | `join` starts with the first part. |
| `Strings.JoinSplit` | components/PlayerWindow.tsx:105 | Joining the pieces of a split with the separator gives back the string. |
| `Strings.SplitJoin` | components/PlayerWindow.tsx:105 | Splitting a join of separator-free parts gives back the parts. |
| `Strings.JoinExcludes` | services/spotifyService.ts:19 | A character in neither the parts nor the separator is not in their join. |
| `Strings.ReplaceAll` | services/spotifyService.ts:29 | A global single-character replace, as `'+'` to space, keeps the length and leaves no `from` behind (unless `from` is `to`). |
| `Strings.ReplaceAllAt` | services/spotifyService.ts:29 | The replace changes exactly the characters equal to `from`, and leaves the others in place. |
| `Strings.ReplaceAllExcludes` | services/spotifyService.ts:29 | A character that is neither in the text nor the replacement is not in the result. |
| `Strings.Before` | services/spotifyService.ts:29 | The name of a sequence is a prefix that holds no '=' and is followed by '=' unless it is the whole sequence. |
| `Strings.After` | services/spotifyService.ts:29 | The value of a sequence is a suffix of it, and is empty when the sequence has no '='. |
| `Strings.BeforeAfter` | services/spotifyService.ts:29 | The text before and the text after the first '=' split a sequence around it. |
| `Strings.SplitAtFirst` | services/spotifyService.ts:29 | For `p=q` where p has no '=', the name is p and the value is q. |
| `Utf8.EncodeChar` | services/spotifyService.ts:20-21 | A character encodes to one to four bytes. It takes one byte exactly when it is ASCII, and then that byte is the character itself. |
| `Utf8.Continue` | services/spotifyService.ts:29 | Accepting a continuation byte within bounds keeps the decoder consistent, and completes a scalar value. |
| `Utf8.DecodeEncodeChar` | services/spotifyService.ts:29 | Decoding the bytes of one character, then more bytes, gives the character, then what the rest decodes to. |
| `Utf8.Decode` | services/spotifyService.ts:29 | UTF-8 decode without BOM yields no more characters than it is given bytes. |
| `Utf8.DecodeFromLength` | services/spotifyService.ts:29 | From any consistent decoder state, decoding yields at most one character per byte, plus one for an unfinished sequence. |
| `Utf8.DecodeEncode` | services/spotifyService.ts:29 | UTF-8 decode without BOM undoes UTF-8 encode for every string. |
| `Percent.EncodeURIComponent` | services/spotifyService.ts:20-21 | The result contains only unreserved characters and '%', so none of `: / ? # & = +` appears raw. |
| `Percent.PercentDecode` | services/spotifyService.ts:29 | Percent-decoding never yields more bytes than the text's own UTF-8 encoding: each `%XY` gives one byte for three. |
| `Percent.PercentDecodePlain` | services/spotifyService.ts:29 | A string without '%' percent-decodes to its own UTF-8 bytes. |
| `Percent.PercentDecodeEncode` | services/spotifyService.ts:20-21 | Percent-decoding the result of `encodeURIComponent` once gives the UTF-8 bytes of the original: it is encoded exactly once. |
| `Form.DecodeComponent` | services/spotifyService.ts:29 | A name or value without '%' comes back with each '+' read as a space and nothing else changed. |
| `Form.Parse` | services/spotifyService.ts:29 | The parser gives at most one pair per '&'-separated sequence, nothing for the empty input, and for one sequence without '&' the one pair of its decoded name and value. |
| `Form.Get` | services/spotifyService.ts:30 | `get` is null exactly when no pair has the name. Otherwise it is the value of the first pair with that name. |
| `Form.GetDecoded` | services/spotifyService.ts:29-30 | `get` on decoded pairs returns the decoded value of the first pair whose name decodes to the one asked for. |
| `Form.GetFirst` | services/spotifyService.ts:30 | When the pair at k is the first with the name, `get` returns its value. |
| `Form.ParseSerialize` | services/spotifyService.ts:29 | Parsing serialised pairs without '&', and without '=' in the names, gives back those pairs, each part decoded. |
| `Form.DecodePlain` | services/spotifyService.ts:29 | Text without '%' and '+' decodes to itself. |
| `Form.DecodeEncoded` | services/spotifyService.ts:29 | The result of `encodeURIComponent` decodes to the original string. |
| `Form.ParseSerializePlain` | services/spotifyService.ts:29 | Plain pairs survive serialising and parsing exactly. |
| `App.Step` | App.tsx:28-106 | Each field changes only on the events that set it: the token on bootstrap, the two SDK errors, logout and back-to-connect; the player on SDK ready, logout and back-to-connect; the device id on `ready`, `not_ready`, logout and back-to-connect; the dialog flag on its two buttons; viewMode on bootstrap, logout, back-to-connect and demo mode; the ready handler on the token effect only. |
| `App.LoggedOut` | App.tsx:91-97 | `handleLogout` leaves no token, player or device id and viewMode 'connect', so the connect screen without the device banner; the dialog flag and the installed ready handler are kept. |
| `App.InitialValid` | App.tsx:8-12 | Initially there is no token, player or device id. The modal is closed and viewMode is 'player', so the player screen shows without the device overlay. |
| `App.StepValid` | App.tsx:28-106 | No event lets an empty token into the token, the ready handler or the player. |
| `App.RunValid` | App.tsx:28-106 | This validity survives any sequence of events. |
| `App.ConnectScreenIff` | App.tsx:138-160 | In a valid session, the connect screen is shown exactly when viewMode is 'connect' and the token is null. Otherwise the player screen shows the sync dialog as `isModalOpen` says. |
| `App.BootstrapEffect` | App.tsx:28-33 | A truthy fragment token sets the token and viewMode 'player'. Otherwise nothing changes. |
| `App.BootstrapFromRedirect` | App.tsx:28-33 | From the initial state, a redirect fragment whose first pair named `access_token` (after decoding) holds a non-empty X without '%' or '+' leaves token X and the player screen. The other pairs may hold encoded text. |
| `App.PlayerGetsEffectToken` | App.tsx:36-79 | With a falsy token the effect does nothing. Otherwise the player the SDK then creates hands out exactly that token. |
| `App.DeviceEvents` | App.tsx:52-60 | `ready` sets the device id. `not_ready` clears it and keeps the player. |
| `App.NoDeviceWithoutReady` | App.tsx:52-60 | Without a `ready` event the device id stays null, whatever else happens. |
| `App.DeviceOverlay` | App.tsx:163 | The device banner appears only through `ready`: from the initial state it stays hidden until a `ready` arrives, `ready` shows it exactly when the reported id is non-empty, and `not_ready` and logout hide it. Back-to-connect hides it too, unless there was no token and it was already shown. |
| `App.NoDeviceFromStart` | App.tsx:52-60 | From the initial state, a `not_ready` before any `ready` leaves the device id null. |
| `App.ErrorsClearTokenOnly` | App.tsx:62-75 | Initialisation and authentication errors set the token to null and nothing else. An account error changes no state. |
| `App.LogoutClears` | App.tsx:91-97 | Logout from any state makes token, player and device id null and viewMode 'connect'. It keeps the modal flag, shows the connect screen without the overlay, and a second logout changes nothing. |
| `App.BackToConnectIsLogout` | App.tsx:99-106 | With a truthy token, back-to-connect is exactly logout. Without one, it only sets viewMode to 'connect'. |
| `App.BackToConnectShowsConnect` | App.tsx:99-106 | After back-to-connect, the connect screen is shown, from any state. |
| `App.DemoModeShowsPlayer` | App.tsx:141 | Demo mode shows the player screen and keeps the token. |
| `App.Session.constructor` | App.tsx:8-12 | The session starts in the initial state with empty call logs. |
| `App.Session.Bootstrap` | App.tsx:28-33 | The new state is the bootstrap step for the token read from the location. The fragment is cleared exactly when that token is truthy. |
| `App.Session.RunTokenEffect` | App.tsx:36-85 | Only for a truthy token, the ready handler captures this token and device setup is logged with it. |
| `App.Session.OnSdkReady` | App.tsx:45-79 | If a ready handler is installed, a player with the captured token is created, connected once and kept. Every method keeps the session invariant: the ready handler and the player hold only non-empty tokens that device setup ran with. |
| `App.Session.OnReady` | App.tsx:52-55 | The state after `ready`. |
| `App.Session.OnNotReady` | App.tsx:57-60 | The state after `not_ready`. |
| `App.Session.OnInitializationError` | App.tsx:62-65 | The state after `initialization_error`: the token alone is cleared. |
| `App.Session.OnAuthenticationError` | App.tsx:67-70 | The state after `authentication_error`: the token alone is cleared. |
| `App.Session.OnAccountError` | App.tsx:72-75 | The state is unchanged, and the Premium alert is issued once. |
| `App.Session.Logout` | App.tsx:91-97 | The state after logout. `disconnect` is called once on the held player if there is one, and never otherwise. |
| `App.Session.BackToConnect` | App.tsx:99-106 | The state after back-to-connect. It disconnects exactly when it logs out with a player held. |
| `App.Session.OnDemoMode` | App.tsx:141 | viewMode becomes 'player'. |
| `App.Session.OnSyncClick` | App.tsx:150 | The sync dialog opens. |
| `App.Session.OnCloseSyncModal` | App.tsx:154-156 | The sync dialog closes. |
| `PlayerWindow.ScanSubject` | components/PlayerWindow.tsx:82-85 | Offline the subject is `CYBER_SIMULATION_V1` by `SYSTEM_ADMIN`; any subject has a non-empty track and a non-empty artist. |
| `PlayerWindow.ScanSubjectOnline` | components/PlayerWindow.tsx:82-89 | Online, a scan has a subject exactly when there is a track whose name is non-empty and whose first artist has a non-empty name. The subject is those two names. |
| `PlayerWindow.Trim` | components/PlayerWindow.tsx:105 | `trim` gives no more characters than it is given, with no whitespace at either end. |
| `PlayerWindow.TrimStart` | components/PlayerWindow.tsx:105 | What trimming the start leaves does not begin with whitespace. |
| `PlayerWindow.TrimEnd` | components/PlayerWindow.tsx:105 | Trimming the end leaves a prefix that does not end with whitespace. |
| `PlayerWindow.TrimEmptyIff` | components/PlayerWindow.tsx:105 | `l.trim().length > 0` holds exactly when l has a character other than ECMAScript whitespace or a line terminator. |
| `PlayerWindow.TrimStartEmpty` | components/PlayerWindow.tsx:105 | Trimming the start leaves nothing exactly for a blank line. |
| `PlayerWindow.TrimEndEmpty` | components/PlayerWindow.tsx:105 | Trimming the end leaves nothing exactly for a blank line. |
| `PlayerWindow.TrimStartSuffix` | components/PlayerWindow.tsx:105 | Trimming the start drops only a whitespace prefix. |
| `PlayerWindow.NonBlank` | components/PlayerWindow.tsx:105 | The filter keeps no more lines than it is given, and every kept line comes from the input and is non-blank. |
| `PlayerWindow.NonBlankMembers` | components/PlayerWindow.tsx:105 | A line is kept exactly when it is in the input and is not blank. |
| `PlayerWindow.NonBlankAppend` | components/PlayerWindow.tsx:105 | Filtering distributes over concatenation, so the kept lines stay in order. |
| `PlayerWindow.NonBlankKeeps` | components/PlayerWindow.tsx:105 | Lines with no blank among them are all kept. |
| `PlayerWindow.NonBlankIdempotent` | components/PlayerWindow.tsx:105 | Filtering twice is filtering once. |
| `PlayerWindow.ScanLines` | components/PlayerWindow.tsx:104-106 | The terminal after a successful scan starts with `> SCAN_COMPLETE`. |
| `PlayerWindow.ScanLinesFollowsSource` | components/PlayerWindow.tsx:104-106 | The output is `> SCAN_COMPLETE` followed by the non-blank lines of `response.text \|\| '> NO_DATA_FOUND'`, so an empty or absent text gives exactly `> SCAN_COMPLETE`, `> NO_DATA_FOUND`. |
| `PlayerWindow.NoDataIsOneLine` | components/PlayerWindow.tsx:104-105 | The no-data fallback is one line that the filter keeps. |
| `PlayerWindow.ScanLinesOfText` | components/PlayerWindow.tsx:104-106 | A non-empty reply is split at newlines and filtered. |
| `PlayerWindow.ScanLinesOfResponse` | components/PlayerWindow.tsx:104-106 | A reply made of newline-joined lines gives `> SCAN_COMPLETE`, then those lines that are not blank, in order. |
| `PlayerWindow.DisplayOf` | components/PlayerWindow.tsx:117-127 | Offline, the banner is the offline text over the placeholder cover; whenever rendering succeeds the marquee text is non-empty. |
| `PlayerWindow.DisplayCases` | components/PlayerWindow.tsx:117-127 | Rendering throws exactly when online with a track that has no artist or no image. Offline or without a track, the placeholder cover shows. With a track, its name leads the marquee and its first image is the cover. |
| `PlayerWindow.IsPlaying` | components/PlayerWindow.tsx:166 | While the disc spins, the pause icon shows and the readout is RPM 4800, LASER ON. |
| `PlayerWindow.IndicatorsAgree` | components/PlayerWindow.tsx:166-234 | The icon is always play or pause, and it is pause exactly when online and not paused. The pause icon shows exactly when RPM 4800 and LASER ON do. The disc spins exactly when, in addition, a track is present. |
| `PlayerWindow.Controller.constructor` | components/PlayerWindow.tsx:19-26 | Paused, no track, volume 0.5, the ready log, and not scanning. |
| `PlayerWindow.Controller.SetPlayer` | components/PlayerWindow.tsx:17 | The player prop changes and nothing else does. |
| `PlayerWindow.Controller.OnPlayerStateChanged` | components/PlayerWindow.tsx:34-45 | A null state changes nothing. Otherwise the event sets the track and the paused flag. The terminal becomes the new-media lines exactly when a previous track had a different id. |
| `PlayerWindow.Controller.OnVolumeReported` | components/PlayerWindow.tsx:47 | The reported volume is taken over. |
| `PlayerWindow.Controller.OnTogglePlay` | components/PlayerWindow.tsx:52-58 | With a player, `togglePlay` is forwarded to it. Without one, `onSyncClick` is called. |
| `PlayerWindow.Controller.OnNextTrack` | components/PlayerWindow.tsx:60-62 | `nextTrack` is forwarded only with a player. |
| `PlayerWindow.Controller.OnPrevTrack` | components/PlayerWindow.tsx:64-66 | `previousTrack` is forwarded only with a player. |
| `PlayerWindow.Controller.HandleVolume` | components/PlayerWindow.tsx:68-71 | The local volume always follows the slider. `setVolume` is forwarded only with a player. |
| `PlayerWindow.Controller.HandleScan` | components/PlayerWindow.tsx:74-102 | While scanning the call is a no-op, so at most one request is in flight. A failed client construction gives the failure lines. A missing subject gives `> ERR: NO_MEDIA_LOADED` with no request. Otherwise exactly one request is made, for that subject. |
| `PlayerWindow.Controller.CompleteScan` | components/PlayerWindow.tsx:104-113 | The terminal becomes the scan output and scanning ends. |
| `PlayerWindow.Controller.FailScan` | components/PlayerWindow.tsx:108-113 | The terminal becomes `> ERR: CONNECTION_REFUSED`, `> RETRY_LATER` and scanning ends. |
| `SpotifyConnect.Last` | components/SpotifyConnect.tsx:32 | `slice(-n)` keeps the last min(n, length) elements, in order; as in JavaScript, `slice(-0)` keeps them all. |
| `SpotifyConnect.AppendLog` | components/SpotifyConnect.tsx:29-33 | After an append the log has one to four entries, and the new text is last. |
| `SpotifyConnect.AppendLogCases` | components/SpotifyConnect.tsx:31-32 | Below four entries the result is `prev + [text]`. With four, the oldest entry is dropped and the rest keep their order. |
| `SpotifyConnect.Feed` | components/SpotifyConnect.tsx:27-36 | Fed into a log of at most four lines, the log stays at most four lines, and after any line arrives the last line is the newest. |
| `SpotifyConnect.FeedKeepsNewest` | components/SpotifyConnect.tsx:27-36 | Any sequence of appends leaves the newest four lines of everything so far. |
| `SpotifyConnect.LastAppend` | components/SpotifyConnect.tsx:31-32 | Taking the last n, appending, and taking the last n again is the same as taking the last n once. |
| `SpotifyConnect.BootLog` | components/SpotifyConnect.tsx:17-36 | The delays increase, so the timers fire in the listed order. Once all five have fired, the log holds messages 2 to 5. |
| `SpotifyConnect.Scramble` | components/SpotifyConnect.tsx:51-58 | The label keeps the original's length. Every index i with 2·i below the tick count shows the original character, and the others show a character of the alphabet. From the tick where `iteration` reaches the length, the label is the original. |
| `SpotifyConnect.ConnectScreen.constructor` | components/SpotifyConnect.tsx:11-13 | The label is `<CONNECT_SYSTEM />`, the log is empty, and there is no hover. |
| `SpotifyConnect.ConnectScreen.OnBootTimer` | components/SpotifyConnect.tsx:28-33 | The log becomes the bounded append of the line. |
| `SpotifyConnect.ConnectScreen.MouseEnter` | components/SpotifyConnect.tsx:45-50 | Entering starts a fresh interval with `iteration` at 0. Entering again while hovering changes nothing. |
| `SpotifyConnect.ConnectScreen.MouseLeave` | components/SpotifyConnect.tsx:67-71 | Leaving clears the interval and resets the label to the original. |
| `SpotifyConnect.ConnectScreen.Tick` | components/SpotifyConnect.tsx:50-66 | The label is redrawn for the current `iteration`, and `iteration` grows by one half. The interval stops exactly at the tick where `iteration` has reached the length, and the label is then the original. |

## Left out

- Rendering is not modelled: JSX, styling, animation, and the purely presentational components (CDPlayer, RetroButton, Marquee, SyncModal, ErrorBoundary, VolumeSlider).
- Loading the SDK script (App.tsx:40-43) and the SDK itself are foreign code. "SDK ready" is an event that carries an opaque player handle, and the ready handler is modelled by the token it captured.
- The language-model call (components/PlayerWindow.tsx:81, 91-102) is network I/O. Only its outcome is modelled: a text, an absent text, or a failure. A failure of the client constructor is the `clientMade` parameter of `HandleScan`. The prompt text is reduced to its track and artist.
- Floating point is not modelled: progress (components/PlayerWindow.tsx:44), the volume's range, and the sparkle positions (App.tsx:17-25). The volume is a value passed through unchanged.
- `Math.random` in the scramble is a sequence of draws given to `Tick`. `setTimeout` and `setInterval` become events called in the order the timers fire. Clearing the boot timers on unmount (components/SpotifyConnect.tsx:38) is not modelled.
- `SpotifyConnect.ConnectScreen.Tick`: the label is drawn for `iteration` as it was when the tick began. The code passes a functional updater to `setBtnText`, and React may run it after `iteration += 1 / 2`, which would reveal half a character more; that timing is not modelled.
- The effect cleanup at App.tsx:81-83 is not modelled. It closes over the `player` of the render in which the effect ran.
- The SDK-ready handler at App.tsx:45 is not removed at logout. The model keeps it installed, so a late ready event still creates a player.
- Listener bookkeeping in the player window (components/PlayerWindow.tsx:31-49) is not modelled. The effect adds a new listener whenever the track changes and never removes the old ones. So in the code, stale `player_state_changed` listeners keep the `currentTrack` they captured, and after a second track every state change resets the terminal to the new-media lines. The model has one listener that sees the current track, and the "exactly when" of `PlayerWindow.Controller.OnPlayerStateChanged` holds for that one-listener model only.
- React's batching of state updates is not modelled: each handler runs on the state as it is when the event arrives. Because of batching, two scan clicks within one render could both pass the guard; the disabled button also prevents that.
- `console` output, the navigation to the login URL (App.tsx:87-89), and the message text of SDK errors are not modelled. The `alert` is a ghost log in `App.Session`.
- The invariant "deviceId is set only while a token is present" does not hold in the code, since the error handlers keep the device, and it is not proved.
- `GetLoginUrl` takes CLIENT_ID and SCOPES as parameters. `PlaceholderClientId` and `Scopes` are the shipped values.
- REDIRECT_URI is computed from a `Location` value (origin + pathname) rather than read once at module load.
- `SpotifyService.GetLoginUrl`: the URL is stated as the endpoint, '?' and the serialised login pairs, not as one literal string. The names read back are stated as words that decode to themselves (`LoginLiteralsAreWords`, `WordDecodes`), not in the read-back ensures.
- `SpotifyService.GetTokenFromUrl`: a pair whose name contains an encoded `access_token` (for example `access%5Ftoken`) is covered by `TokenFromFragment` only, which compares names after decoding.
- `PlayerWindow.DisplayCases`: when an artist or an image is missing, the model gives None. The error boundary's fallback screen is not modelled.
- types.ts: only the fields the program reads are modelled (`id`, `name`, `artists[].name`, `album.images[].url`, `paused`).
- Strings are sequences of Unicode scalar values, not of UTF-16 code units. A lone surrogate cannot occur, so the `URIError` that `encodeURIComponent` throws for one is not modelled. The origin and pathname of a real page cannot hold one either.
- `SpotifyService.TokenIsFirstAccessToken`, `App.BootstrapFromRedirect` and `SpotifyService.NoTokenWithoutAccessToken` are stated for fragments written as `name=value` pairs joined by '&'. Fragments with an empty sequence or a sequence without '=' (`#&access_token=X`, `#a&access_token=X`) are parsed by `Form.Parse`, which skips the empty ones and reads the others as a name with an empty value, but no lemma states the token for them.

/** The session held by the top-level component: the access token, the SDK
    player and its device, which screen is selected and whether the sync
    dialog is open, driven by the start-up check of the URL fragment, the
    playback SDK's events and the logout and back buttons. */
module App {
  import opened Wrappers
  import Types
  import Form
  import SpotifyService

  datatype ViewMode = PlayerView | ConnectView

  /** JavaScript truthiness of a nullable string: null and "" are both falsy. */
  predicate Truthy(s: Option<string>)
  {
    s.Some? && s.value != ""
  }

  /** The state fields of the component, together with the token that the
      installed SDK-ready handler has captured (None while none is installed). */
  datatype SessionState = SessionState(
    token: Option<string>,
    player: Option<Types.Player>,
    deviceId: Option<string>,
    isModalOpen: bool,
    viewMode: ViewMode,
    readyHandler: Option<string>)

  /** The state before any effect has run. */
  const Initial := SessionState(None, None, None, false, PlayerView, None)

  /** What can happen to the session. */
  datatype Event =
    | Bootstrap(hashToken: Option<string>)  // the mount effect, given what the fragment yields
    | TokenEffect                            // the effect that runs whenever `token` changes
    | SdkReady(handle: nat)                  // the SDK calls the installed ready handler
    | DeviceReady(deviceId: string)
    | DeviceNotReady
    | InitializationError
    | AuthenticationError
    | AccountError
    | Logout
    | BackToConnect
    | DemoMode
    | OpenSyncModal
    | CloseSyncModal

  /** `handleLogout`'s updates: no token, player or device, and the connect
      view, so the connect screen without the device banner; the dialog flag
      and the installed ready handler are left alone. */
  function LoggedOut(s: SessionState): (r: SessionState)
    ensures r.token == None && r.player == None && r.deviceId == None && r.viewMode == ConnectView
    ensures r.isModalOpen == s.isModalOpen && r.readyHandler == s.readyHandler
    ensures View(r) == ConnectScreen && !ShowsDeviceOverlay(r)
  {
    s.(token := None, player := None, deviceId := None, viewMode := ConnectView)
  }

  /** The new state after one event. Each field has its own events: only the
      ones that call its setter (`handleLogout` through either button) change it. */
  function Step(s: SessionState, e: Event): (r: SessionState)
    ensures r.token != s.token ==>
      e.Bootstrap? || e.InitializationError? || e.AuthenticationError? || e.Logout? || e.BackToConnect?
    ensures r.player != s.player ==> e.SdkReady? || e.Logout? || e.BackToConnect?
    ensures r.deviceId != s.deviceId ==> e.DeviceReady? || e.DeviceNotReady? || e.Logout? || e.BackToConnect?
    ensures r.isModalOpen != s.isModalOpen ==> e.OpenSyncModal? || e.CloseSyncModal?
    ensures r.viewMode != s.viewMode ==> e.Bootstrap? || e.Logout? || e.BackToConnect? || e.DemoMode?
    ensures r.readyHandler != s.readyHandler ==> e.TokenEffect?
  {
    match e
    case Bootstrap(t) => if Truthy(t) then s.(token := t, viewMode := PlayerView) else s
    case TokenEffect => if Truthy(s.token) then s.(readyHandler := s.token) else s
    case SdkReady(h) =>
      if s.readyHandler.Some? then s.(player := Some(Types.Player(h, s.readyHandler.value))) else s
    case DeviceReady(d) => s.(deviceId := Some(d))
    case DeviceNotReady => s.(deviceId := None)
    case InitializationError => s.(token := None)
    case AuthenticationError => s.(token := None)
    case AccountError => s
    case Logout => LoggedOut(s)
    case BackToConnect => if Truthy(s.token) then LoggedOut(s) else s.(viewMode := ConnectView)
    case DemoMode => s.(viewMode := PlayerView)
    case OpenSyncModal => s.(isModalOpen := true)
    case CloseSyncModal => s.(isModalOpen := false)
  }

  /** The state after a sequence of events, in order. */
  function Run(s: SessionState, events: seq<Event>): SessionState
    decreases |events|
  {
    if events == [] then s else Run(Step(s, events[0]), events[1..])
  }

  /** What the page shows: the connect screen, or the player screen with the
      sync dialog open or closed. */
  datatype Screen = ConnectScreen | PlayerScreen(modalOpen: bool)

  function View(s: SessionState): Screen
  {
    if s.viewMode == ConnectView && !Truthy(s.token) then ConnectScreen else PlayerScreen(s.isModalOpen)
  }

  /** The device banner is shown while the device id is truthy: a null or
      empty id hides it. */
  predicate ShowsDeviceOverlay(s: SessionState)
  {
    Truthy(s.deviceId)
  }

  /** The token, when present, is never empty, and so is every token the
      ready handler or the player holds. */
  predicate Valid(s: SessionState)
  {
    (s.token.Some? ==> s.token.value != "") &&
    (s.readyHandler.Some? ==> s.readyHandler.value != "") &&
    (s.player.Some? ==> s.player.value.oauthToken != "")
  }

  lemma InitialValid()
    ensures Valid(Initial) && View(Initial) == PlayerScreen(false) && !ShowsDeviceOverlay(Initial)
  {
  }

  /** Every event keeps the session valid. */
  lemma StepValid(s: SessionState, e: Event)
    requires Valid(s)
    ensures Valid(Step(s, e))
  {
  }

  lemma {:induction false} RunValid(s: SessionState, events: seq<Event>)
    requires Valid(s)
    ensures Valid(Run(s, events))
    decreases |events|
  {
    if events != [] {
      StepValid(s, events[0]);
      RunValid(Step(s, events[0]), events[1..]);
    }
  }

  /** In a valid session the connect screen is shown exactly when the view
      mode is 'connect' and there is no token at all. */
  lemma ConnectScreenIff(s: SessionState)
    requires Valid(s)
    ensures View(s) == ConnectScreen <==> s.viewMode == ConnectView && s.token == None
    ensures View(s).PlayerScreen? ==> View(s).modalOpen == s.isModalOpen
  {
  }

  /** Bootstrap with a truthy fragment token takes that token and selects the
      player view; otherwise nothing changes. */
  lemma BootstrapEffect(s: SessionState, t: Option<string>)
    ensures Truthy(t) ==> Step(s, Bootstrap(t)) == s.(token := t, viewMode := PlayerView)
    ensures !Truthy(t) ==> Step(s, Bootstrap(t)) == s
  {
  }

  /** Starting from a redirect whose fragment's first `access_token` value
      is a non-empty x without '%' or '+', bootstrap holds exactly x and the
      player screen is shown. */
  lemma BootstrapFromRedirect(loc: SpotifyService.Location, before: seq<Form.Pair>, x: string, after: seq<Form.Pair>)
    requires var list := before + [("access_token", x)] + after;
      loc.hash == "#" + Form.Serialize(list) && Form.Writable(list) && SpotifyService.NoLeadingQuestionMark(list)
    requires '%' !in x && '+' !in x
    requires forall i :: 0 <= i < |before| ==> Form.DecodeComponent(before[i].0) != "access_token"
    requires x != ""
    ensures Step(Initial, Bootstrap(SpotifyService.GetTokenFromUrl(loc))).token == Some(x)
    ensures View(Step(Initial, Bootstrap(SpotifyService.GetTokenFromUrl(loc)))) == PlayerScreen(false)
  {
    SpotifyService.TokenIsFirstAccessToken(loc, before, x, after);
  }

  /** Device setup happens only for a truthy token, and the player the SDK
      then makes hands out exactly that token. */
  lemma PlayerGetsEffectToken(s: SessionState, h: nat)
    ensures !Truthy(s.token) ==> Step(s, TokenEffect) == s
    ensures Truthy(s.token) ==> Step(Step(s, TokenEffect), SdkReady(h)).player == Some(Types.Player(h, s.token.value))
  {
  }

  /** `ready` sets the device id; `not_ready` clears it and keeps the player. */
  lemma DeviceEvents(s: SessionState, d: string)
    ensures Step(s, DeviceReady(d)) == s.(deviceId := Some(d))
    ensures Step(s, DeviceNotReady).deviceId == None && Step(s, DeviceNotReady).player == s.player
  {
  }

  predicate NoReady(events: seq<Event>)
  {
    forall i :: 0 <= i < |events| ==> !events[i].DeviceReady?
  }

  /** Without a `ready` event the device id stays null, whatever else happens,
      `not_ready` included. */
  lemma {:induction false} NoDeviceWithoutReady(s: SessionState, events: seq<Event>)
    requires s.deviceId == None && NoReady(events)
    ensures Run(s, events).deviceId == None
    decreases |events|
  {
    if events != [] {
      assert !events[0].DeviceReady?;
      assert NoReady(events[1..]) by {
        forall i | 0 <= i < |events[1..]| ensures !events[1..][i].DeviceReady? {
          assert events[1..][i] == events[i + 1];
        }
      }
      NoDeviceWithoutReady(Step(s, events[0]), events[1..]);
    }
  }

  lemma NoDeviceFromStart(events: seq<Event>)
    requires NoReady(events)
    ensures Run(Initial, events).deviceId == None
  {
    NoDeviceWithoutReady(Initial, events);
  }

  /** The device banner appears only through a `ready` event: from the start
      it stays hidden until one arrives, `ready` shows it exactly when the id
      it reports is non-empty, and `not_ready`, logout and back-to-connect
      hide it. */
  lemma DeviceOverlay(s: SessionState, d: string, events: seq<Event>)
    ensures NoReady(events) ==> !ShowsDeviceOverlay(Run(Initial, events))
    ensures ShowsDeviceOverlay(Step(s, DeviceReady(d))) <==> d != ""
    ensures !ShowsDeviceOverlay(Step(s, DeviceNotReady)) && !ShowsDeviceOverlay(Step(s, Logout))
    ensures !ShowsDeviceOverlay(Step(s, BackToConnect)) || (!Truthy(s.token) && ShowsDeviceOverlay(s))
  {
    if NoReady(events) {
      NoDeviceFromStart(events);
    }
  }

  /** The two error events drop the token and touch nothing else; an account
      error changes nothing. */
  lemma ErrorsClearTokenOnly(s: SessionState)
    ensures Step(s, InitializationError) == s.(token := None)
    ensures Step(s, AuthenticationError) == s.(token := None)
    ensures Step(s, AccountError) == s
  {
  }

  /** Logout from any state leaves no token, player or device, selects the
      connect view and so shows the connect screen without the device banner;
      a second logout changes nothing. */
  lemma LogoutClears(s: SessionState)
    ensures var r := Step(s, Logout);
      r.token == None && r.player == None && r.deviceId == None && r.viewMode == ConnectView &&
      r.isModalOpen == s.isModalOpen && r.readyHandler == s.readyHandler &&
      View(r) == ConnectScreen && !ShowsDeviceOverlay(r) && Step(r, Logout) == r
  {
  }

  /** Back-to-connect with a token is logout; without one it only selects
      the connect view. */
  lemma BackToConnectIsLogout(s: SessionState)
    ensures Truthy(s.token) ==> Step(s, BackToConnect) == Step(s, Logout)
    ensures !Truthy(s.token) ==> Step(s, BackToConnect) == s.(viewMode := ConnectView)
  {
  }

  /** After back-to-connect the connect screen is shown, whatever the state was. */
  lemma BackToConnectShowsConnect(s: SessionState)
    ensures View(Step(s, BackToConnect)) == ConnectScreen
  {
  }

  /** Demo mode leaves the connect screen for the player screen, keeping any token. */
  lemma DemoModeShowsPlayer(s: SessionState)
    ensures View(Step(s, DemoMode)).PlayerScreen? && Step(s, DemoMode).token == s.token
  {
  }

  const PremiumRequired := "Spotify Premium is required for Web Playback."

  /** The component itself, one method per event. The ghost fields record
      the player calls and alerts the handlers make. */
  class Session {
    var token: Option<string>
    var player: Option<Types.Player>
    var deviceId: Option<string>
    var isModalOpen: bool
    var viewMode: ViewMode
    var readyHandler: Option<string>
    ghost var connects: seq<Types.Player>
    ghost var disconnects: seq<Types.Player>
    ghost var alerts: seq<string>
    /** The tokens with which device setup ran, in order. */
    ghost var effectTokens: seq<string>

    function State(): SessionState
      reads this
    {
      SessionState(token, player, deviceId, isModalOpen, viewMode, readyHandler)
    }

    /** The player and the ready handler only ever hold tokens device setup ran with. */
    ghost predicate Invariant()
      reads this
    {
      Valid(State()) &&
      (readyHandler.Some? ==> readyHandler.value in effectTokens) &&
      (player.Some? ==> player.value.oauthToken in effectTokens) &&
      (forall i :: 0 <= i < |effectTokens| ==> effectTokens[i] != "")
    }

    constructor ()
      ensures State() == Initial && Invariant()
      ensures connects == [] && disconnects == [] && alerts == [] && effectTokens == []
    {
      token, player, deviceId := None, None, None;
      isModalOpen, viewMode, readyHandler := false, PlayerView, None;
      connects, disconnects, alerts, effectTokens := [], [], [], [];
    }

    /** The mount effect: a truthy token in the fragment is taken, the player
        view selected and the fragment cleared; otherwise nothing happens. */
    method Bootstrap(win: SpotifyService.Window)
      requires Invariant()
      modifies this, win
      ensures Invariant()
      ensures State() == Step(old(State()), Event.Bootstrap(SpotifyService.GetTokenFromUrl(old(win.location))))
      ensures win.location == if Truthy(SpotifyService.GetTokenFromUrl(old(win.location)))
                              then old(win.location).(hash := "") else old(win.location)
      ensures connects == old(connects) && disconnects == old(disconnects) && alerts == old(alerts)
      ensures effectTokens == old(effectTokens)
    {
      var hashToken := SpotifyService.GetTokenFromUrl(win.location);
      if hashToken.Some? && hashToken.value != "" {
        token := hashToken;
        viewMode := PlayerView;
        win.ClearUrlHash();
      }
    }

    /** The effect on `token`: nothing for a falsy token; otherwise the SDK
        script is loaded and a ready handler capturing this token installed. */
    method RunTokenEffect()
      requires Invariant()
      modifies this
      ensures Invariant()
      ensures State() == Step(old(State()), TokenEffect)
      ensures effectTokens == if Truthy(old(token)) then old(effectTokens) + [old(token).value] else old(effectTokens)
      ensures connects == old(connects) && disconnects == old(disconnects) && alerts == old(alerts)
    {
      if token.Some? && token.value != "" {
        readyHandler := token;
        effectTokens := effectTokens + [token.value];
      }
    }

    /** The SDK runs the installed ready handler: a player whose token
        callback supplies the captured token is made, connected and kept. */
    method OnSdkReady(handle: nat)
      requires Invariant()
      modifies this
      ensures Invariant()
      ensures State() == Step(old(State()), SdkReady(handle))
      ensures connects == if old(readyHandler).Some? then old(connects) + [Types.Player(handle, old(readyHandler).value)]
                          else old(connects)
      ensures disconnects == old(disconnects) && alerts == old(alerts) && effectTokens == old(effectTokens)
    {
      if readyHandler.Some? {
        var p := Types.Player(handle, readyHandler.value);
        connects := connects + [p];
        player := Some(p);
      }
    }

    method OnReady(id: string)
      requires Invariant()
      modifies this`deviceId
      ensures Invariant()
      ensures State() == Step(old(State()), DeviceReady(id))
    {
      deviceId := Some(id);
    }

    method OnNotReady()
      requires Invariant()
      modifies this`deviceId
      ensures Invariant()
      ensures State() == Step(old(State()), DeviceNotReady)
    {
      deviceId := None;
    }

    method OnInitializationError()
      requires Invariant()
      modifies this`token
      ensures Invariant()
      ensures State() == Step(old(State()), InitializationError)
    {
      token := None;
    }

    method OnAuthenticationError()
      requires Invariant()
      modifies this`token
      ensures Invariant()
      ensures State() == Step(old(State()), AuthenticationError)
    {
      token := None;
    }

    /** An account error only alerts that Premium is required. */
    method OnAccountError()
      requires Invariant()
      modifies this`alerts
      ensures Invariant()
      ensures State() == Step(old(State()), AccountError)
      ensures alerts == old(alerts) + [PremiumRequired]
    {
      alerts := alerts + [PremiumRequired];
    }

    /** `handleLogout`: disconnects the player once if there is one. */
    method Logout()
      requires Invariant()
      modifies this
      ensures Invariant()
      ensures State() == Step(old(State()), Event.Logout)
      ensures disconnects == if old(player).Some? then old(disconnects) + [old(player).value] else old(disconnects)
      ensures connects == old(connects) && alerts == old(alerts) && effectTokens == old(effectTokens)
    {
      token := None;
      if player.Some? {
        disconnects := disconnects + [player.value];
      }
      player := None;
      deviceId := None;
      viewMode := ConnectView;
    }

    /** `handleBackToConnect`: logout when there is a token, otherwise only
        the connect view is selected. */
    method BackToConnect()
      requires Invariant()
      modifies this
      ensures Invariant()
      ensures State() == Step(old(State()), Event.BackToConnect)
      ensures disconnects == if Truthy(old(token)) && old(player).Some? then old(disconnects) + [old(player).value]
                             else old(disconnects)
      ensures connects == old(connects) && alerts == old(alerts) && effectTokens == old(effectTokens)
    {
      if token.Some? && token.value != "" {
        Logout();
      } else {
        viewMode := ConnectView;
      }
    }

    method OnDemoMode()
      requires Invariant()
      modifies this`viewMode
      ensures Invariant()
      ensures State() == Step(old(State()), DemoMode)
    {
      viewMode := PlayerView;
    }

    method OnSyncClick()
      requires Invariant()
      modifies this`isModalOpen
      ensures Invariant()
      ensures State() == Step(old(State()), OpenSyncModal)
    {
      isModalOpen := true;
    }

    method OnCloseSyncModal()
      requires Invariant()
      modifies this`isModalOpen
      ensures Invariant()
      ensures State() == Step(old(State()), CloseSyncModal)
    {
      isModalOpen := false;
    }
  }
}

/** The player window: it follows the SDK's playback state, forwards the
    transport and volume controls to the player, runs the one-at-a-time
    track analysis request and derives the texts it displays. */
module PlayerWindow {
  import opened Wrappers
  import Types
  import Strings

  const ReadyLog := ["> SYSTEM_READY", "> WAITING_FOR_MEDIA..."]
  const NewMediaLog := ["> NEW_MEDIA_DETECTED", "> PRESS [SCAN] FOR ANALYSIS"]
  const UplinkLog := ["> ESTABLISHING_NEURAL_UPLINK...", "> ACCESSING_GLOBAL_DATABASE..."]
  const NoMediaLog := ["> ERR: NO_MEDIA_LOADED"]
  const FailureLog := ["> ERR: CONNECTION_REFUSED", "> RETRY_LATER"]
  const ScanComplete := "> SCAN_COMPLETE"
  const NoData := "> NO_DATA_FOUND"

  const OfflineArtist := "SYSTEM_ADMIN"
  const OfflineTrack := "CYBER_SIMULATION_V1"

  /** What an analysis request asks about. */
  datatype Subject = Subject(track: string, artist: string)

  /** The track and artist a scan asks about: fixed names when offline,
      otherwise the current track's name and first artist's name, or
      nothing when either is missing or empty (both are tested for
      truthiness). */
  function ScanSubject(offline: bool, current: Option<Types.Track>): (r: Option<Subject>)
    ensures offline ==> r == Some(Subject(OfflineTrack, OfflineArtist))
    ensures r.Some? ==> r.value.track != "" && r.value.artist != ""
  {
    if offline then Some(Subject(OfflineTrack, OfflineArtist))
    else if current.None? || |current.value.artists| == 0 then None
    else
      var artist := current.value.artists[0].name;
      var track := current.value.name;
      if artist == "" || track == "" then None else Some(Subject(track, artist))
  }

  /** Online, a scan has a subject exactly when there is a track with a
      non-empty name and a first artist with a non-empty name, and then asks
      about those two names. */
  lemma ScanSubjectOnline(current: Option<Types.Track>)
    ensures ScanSubject(false, current).Some? <==>
      current.Some? && current.value.name != "" &&
      |current.value.artists| > 0 && current.value.artists[0].name != ""
    ensures ScanSubject(false, current).Some? ==>
      ScanSubject(false, current).value == Subject(current.value.name, current.value.artists[0].name)
  {
  }

  /** The characters `String.prototype.trim` removes: the ECMAScript
      WhiteSpace (tab, vertical tab, form feed, space, no-break space, the
      byte order mark and the space separators of Unicode category Zs) and
      LineTerminator (line feed, carriage return, line and paragraph
      separators) code points. */
  predicate IsJsWhitespace(c: char)
  {
    var n := c as int;
    n == 0x09 || n == 0x0A || n == 0x0B || n == 0x0C || n == 0x0D || n == 0x20 ||
    n == 0xA0 || n == 0x1680 || (0x2000 <= n <= 0x200A) || n == 0x2028 || n == 0x2029 ||
    n == 0x202F || n == 0x205F || n == 0x3000 || n == 0xFEFF
  }

  /** A line made of nothing but whitespace, the empty line included. */
  predicate Blank(s: string)
  {
    forall i :: 0 <= i < |s| ==> IsJsWhitespace(s[i])
  }

  /** `s.trimStart()`: what is left begins with no whitespace. */
  function TrimStart(s: string): (r: string)
    ensures |r| <= |s|
    ensures r == [] || !IsJsWhitespace(r[0])
  {
    if s != [] && IsJsWhitespace(s[0]) then TrimStart(s[1..]) else s
  }

  /** `s.trimEnd()`: a prefix of s that ends with no whitespace. */
  function TrimEnd(s: string): (r: string)
    ensures |r| <= |s| && r == s[..|r|]
    ensures r == [] || !IsJsWhitespace(r[|r| - 1])
  {
    if s != [] && IsJsWhitespace(s[|s| - 1]) then TrimEnd(s[..|s| - 1]) else s
  }

  /** `s.trim()`: no longer than s, and whitespace at neither end. */
  function Trim(s: string): (r: string)
    ensures |r| <= |s|
    ensures r == [] || (!IsJsWhitespace(r[0]) && !IsJsWhitespace(r[|r| - 1]))
  {
    TrimEnd(TrimStart(s))
  }

  lemma {:induction false} TrimStartEmpty(s: string)
    ensures TrimStart(s) == [] <==> Blank(s)
  {
    if s != [] && IsJsWhitespace(s[0]) {
      TrimStartEmpty(s[1..]);
      assert Blank(s) <==> Blank(s[1..]) by {
        assert forall i :: 1 <= i < |s| ==> s[i] == s[1..][i - 1];
      }
    }
  }

  lemma {:induction false} TrimEndEmpty(s: string)
    ensures TrimEnd(s) == [] <==> Blank(s)
  {
    if s != [] && IsJsWhitespace(s[|s| - 1]) {
      var p := s[..|s| - 1];
      TrimEndEmpty(p);
      assert Blank(s) <==> Blank(p) by {
        assert forall i :: 0 <= i < |p| ==> s[i] == p[i];
      }
    }
  }

  /** `l.trim().length > 0` holds exactly for the lines that are not blank. */
  lemma TrimEmptyIff(s: string)
    ensures |Trim(s)| > 0 <==> !Blank(s)
  {
    TrimStartEmpty(s);
    TrimEndEmpty(TrimStart(s));
    assert Blank(TrimStart(s)) ==> Blank(s) by {
      TrimStartSuffix(s);
    }
  }

  /** What trimming the start leaves is a suffix of s after only whitespace. */
  lemma {:induction false} TrimStartSuffix(s: string)
    ensures |TrimStart(s)| <= |s| && TrimStart(s) == s[|s| - |TrimStart(s)|..]
    ensures Blank(s[..|s| - |TrimStart(s)|])
  {
    if s != [] && IsJsWhitespace(s[0]) {
      TrimStartSuffix(s[1..]);
      var k := |s[1..]| - |TrimStart(s[1..])|;
      assert s[1..][k..] == s[k + 1..];
      assert s[..k + 1] == [s[0]] + s[1..][..k];
    }
  }

  /** `lines.filter(l => l.trim().length > 0)`. */
  function NonBlank(lines: seq<string>): (r: seq<string>)
    ensures |r| <= |lines|
    ensures forall i :: 0 <= i < |r| ==> r[i] in lines && |Trim(r[i])| > 0
  {
    if lines == [] then []
    else (if |Trim(lines[0])| > 0 then [lines[0]] else []) + NonBlank(lines[1..])
  }

  /** The filter keeps exactly the lines that are not blank. */
  lemma {:induction false} NonBlankMembers(lines: seq<string>, x: string)
    ensures x in NonBlank(lines) <==> x in lines && !Blank(x)
  {
    TrimEmptyIff(x);
    if lines != [] {
      NonBlankMembers(lines[1..], x);
      assert lines == [lines[0]] + lines[1..];
    }
  }

  /** Filtering distributes over concatenation, so the kept lines stay in order. */
  lemma {:induction false} NonBlankAppend(a: seq<string>, b: seq<string>)
    ensures NonBlank(a + b) == NonBlank(a) + NonBlank(b)
  {
    if a == [] {
      assert a + b == b;
    } else {
      assert (a + b)[0] == a[0] && (a + b)[1..] == a[1..] + b;
      NonBlankAppend(a[1..], b);
    }
  }

  /** Lines none of which is blank are all kept; in particular filtering twice
      is filtering once. */
  lemma {:induction false} NonBlankKeeps(lines: seq<string>)
    requires forall i :: 0 <= i < |lines| ==> !Blank(lines[i])
    ensures NonBlank(lines) == lines
  {
    if lines != [] {
      TrimEmptyIff(lines[0]);
      NonBlankKeeps(lines[1..]);
    }
  }

  lemma NonBlankIdempotent(lines: seq<string>)
    ensures NonBlank(NonBlank(lines)) == NonBlank(lines)
  {
    var r := NonBlank(lines);
    forall i | 0 <= i < |r| ensures !Blank(r[i]) {
      TrimEmptyIff(r[i]);
    }
    NonBlankKeeps(r);
  }

  /** The terminal after a successful request: the completion marker, then
      the response's lines that are not blank; an absent or empty text gives
      the no-data line instead. */
  function ScanLines(text: Option<string>): (r: seq<string>)
    ensures |r| >= 1 && r[0] == ScanComplete
  {
    if text.None? || text.value == "" then [ScanComplete, NoData]
    else [ScanComplete] + NonBlank(Strings.Split(text.value, '\n'))
  }

  /** `response.text || '> NO_DATA_FOUND'`. */
  function ResponseText(text: Option<string>): string
  {
    if text.None? || text.value == "" then NoData else text.value
  }

  /** ScanLines is `['> SCAN_COMPLETE', ...lines]` for the lines of
      `response.text || '> NO_DATA_FOUND'` that survive the filter: the
      no-data fallback is itself one line that the filter keeps. */
  lemma ScanLinesFollowsSource(text: Option<string>)
    ensures ScanLines(text) == [ScanComplete] + NonBlank(Strings.Split(ResponseText(text), '\n'))
  {
    if text.None? || text.value == "" {
      assert ResponseText(text) == NoData;
      NoDataIsOneLine();
    }
  }

  /** The no-data text is a single line that the filter keeps. */
  lemma NoDataIsOneLine()
    ensures NonBlank(Strings.Split(NoData, '\n')) == [NoData]
  {
    Strings.SplitPlain(NoData, '\n');
    assert !IsJsWhitespace(NoData[0]);
    NonBlankKeeps([NoData]);
  }

  /** A response made of the given lines joined by newlines shows the
      completion line and then those of them that are not blank, in order. */
  lemma ScanLinesOfResponse(lines: seq<string>)
    requires |lines| >= 1 && lines != [""]
    requires forall i :: 0 <= i < |lines| ==> '\n' !in lines[i]
    ensures ScanLines(Some(Strings.Join(lines, "\n"))) == [ScanComplete] + NonBlank(lines)
  {
    JoinedNonEmpty(lines, "\n");
    Strings.SplitJoin(lines, '\n');
    ScanLinesOfText(Strings.Join(lines, "\n"), lines);
  }

  /** Lines other than a single empty one join into a non-empty text. */
  lemma JoinedNonEmpty(lines: seq<string>, sep: string)
    requires |lines| >= 1 && lines != [""] && sep != ""
    ensures Strings.Join(lines, sep) != ""
  {
    if |lines| == 1 {
      assert lines == [lines[0]];
    }
  }

  /** A non-empty response text is split at newlines and filtered. */
  lemma ScanLinesOfText(text: string, lines: seq<string>)
    requires text != "" && Strings.Split(text, '\n') == lines
    ensures ScanLines(Some(text)) == [ScanComplete] + NonBlank(lines)
  {
  }

  /** The marquee text and the cover image. */
  datatype Display = Display(trackName: string, albumArt: string)

  const DefaultArt := "https://picsum.photos/300/300?grayscale"
  const OfflineBanner := "OFFLINE MODE // INSERT DISC // CLICK [SYNC] TO CONNECT"
  const WaitingBanner := "CONNECTED // WAITING FOR PLAYBACK"

  /** The display texts, or None where rendering throws: a current track
      without an artist or without an image is indexed at [0] unguarded. */
  function DisplayOf(offline: bool, current: Option<Types.Track>): (r: Option<Display>)
    ensures offline ==> r == Some(Display(OfflineBanner, DefaultArt))
    ensures r.Some? ==> |r.value.trackName| > 0
  {
    if offline then Some(Display(OfflineBanner, DefaultArt))
    else if current.Some? then
      var t := current.value;
      if |t.artists| == 0 || |t.album.images| == 0 then None
      else Some(Display(t.name + " - " + t.artists[0].name, t.album.images[0].url))
    else Some(Display(WaitingBanner, DefaultArt))
  }

  /** Rendering fails exactly when online with a track lacking an artist or
      an image; without a track, or offline, the placeholder cover is shown;
      with one, its name leads the marquee and its first image is the cover. */
  lemma DisplayCases(offline: bool, current: Option<Types.Track>)
    ensures DisplayOf(offline, current).None? <==>
      !offline && current.Some? && (|current.value.artists| == 0 || |current.value.album.images| == 0)
    ensures (offline || current.None?) ==> DisplayOf(offline, current).value.albumArt == DefaultArt
    ensures DisplayOf(offline, current).Some? && !offline && current.Some? ==>
      var d := DisplayOf(offline, current).value;
      d.trackName[..|current.value.name|] == current.value.name &&
      d.albumArt == current.value.album.images[0].url
  {
  }

  /** The disc spins while online, unpaused and holding a track. */
  predicate IsPlaying(offline: bool, paused: bool, current: Option<Types.Track>): (r: bool)
    ensures r ==> PlayIcon(offline, paused) == "fas fa-pause" && Readout(offline, paused) == ("4800", "ON")
  {
    !offline && !paused && current.Some?
  }

  /** The play button's icon. */
  function PlayIcon(offline: bool, paused: bool): string
  {
    if paused || offline then "fas fa-play" else "fas fa-pause"
  }

  /** The drive readout: motor speed and laser state. */
  function Readout(offline: bool, paused: bool): (string, string)
  {
    if !offline && !paused then ("4800", "ON") else ("0000", "OFF")
  }

  /** The pause icon, the spinning drive readout and playback agree: the
      pause icon shows exactly when the drive runs, and the disc spins
      exactly when, in addition, there is a track. */
  lemma IndicatorsAgree(offline: bool, paused: bool, current: Option<Types.Track>)
    ensures PlayIcon(offline, paused) == "fas fa-pause" <==> Readout(offline, paused) == ("4800", "ON")
    ensures IsPlaying(offline, paused, current) <==> PlayIcon(offline, paused) == "fas fa-pause" && current.Some?
    ensures PlayIcon(offline, paused) == "fas fa-pause" <==> !offline && !paused
    ensures PlayIcon(offline, paused) == "fas fa-play" || PlayIcon(offline, paused) == "fas fa-pause"
  {
  }

  /** The calls the window makes on the SDK player. */
  datatype Command =
    | TogglePlay(player: nat)
    | NextTrack(player: nat)
    | PreviousTrack(player: nat)
    | SetVolume(player: nat, volume: real)

  /** The component's state. `player` is the prop it is given; the ghost
      fields record the calls it makes on the player, the requests it sends
      and how often it asked its parent to open the sync dialog. */
  class Controller {
    var player: Option<Types.Player>
    var isPaused: bool
    var currentTrack: Option<Types.Track>
    var volume: real
    var terminalData: seq<string>
    var isScanning: bool
    ghost var commands: seq<Command>
    ghost var requests: seq<Subject>
    ghost var syncClicks: nat
    /** How many requests have been answered or failed. */
    ghost var settled: nat

    /** At most one request is in flight, and exactly while scanning. */
    ghost predicate Valid()
      reads this
    {
      |requests| == settled + (if isScanning then 1 else 0)
    }

    function Offline(): bool
      reads this
    {
      player.None?
    }

    constructor (player: Option<Types.Player>)
      ensures Valid()
      ensures this.player == player && isPaused && currentTrack == None && volume == 0.5
      ensures terminalData == ReadyLog && !isScanning
      ensures commands == [] && requests == [] && syncClicks == 0 && settled == 0
    {
      this.player := player;
      isPaused, currentTrack, volume := true, None, 0.5;
      terminalData, isScanning := ReadyLog, false;
      commands, requests, syncClicks, settled := [], [], 0, 0;
    }

    /** The parent passes a new player (or none). */
    method SetPlayer(p: Option<Types.Player>)
      requires Valid()
      modifies this`player
      ensures Valid() && player == p
    {
      player := p;
    }

    /** `player_state_changed`: a null state is ignored; otherwise the track
        and pause flag are taken over, and the terminal is reset when a
        previous track had a different id. */
    method OnPlayerStateChanged(state: Option<Types.PlayerState>)
      requires Valid()
      modifies this`currentTrack, this`isPaused, this`terminalData
      ensures Valid()
      ensures state.None? ==> currentTrack == old(currentTrack) && isPaused == old(isPaused) &&
                              terminalData == old(terminalData)
      ensures state.Some? ==> currentTrack == Some(state.value.currentTrack) && isPaused == state.value.paused
      ensures state.Some? ==> terminalData ==
                                (if old(currentTrack).Some? && old(currentTrack).value.id != state.value.currentTrack.id
                                 then NewMediaLog else old(terminalData))
    {
      if state.Some? {
        var s := state.value;
        if currentTrack.Some? && s.currentTrack.id != currentTrack.value.id {
          terminalData := NewMediaLog;
        }
        currentTrack := Some(s.currentTrack);
        isPaused := s.paused;
      }
    }

    /** The player reports its volume. */
    method OnVolumeReported(v: real)
      requires Valid()
      modifies this`volume
      ensures Valid() && volume == v
    {
      volume := v;
    }

    /** Play/pause: forwarded to the player, or, without one, a request to
        the parent to open the sync dialog. */
    method OnTogglePlay()
      requires Valid()
      modifies this`commands, this`syncClicks
      ensures Valid()
      ensures player.Some? ==> commands == old(commands) + [TogglePlay(player.value.handle)] && syncClicks == old(syncClicks)
      ensures player.None? ==> commands == old(commands) && syncClicks == old(syncClicks) + 1
    {
      if player.Some? {
        commands := commands + [TogglePlay(player.value.handle)];
      } else {
        syncClicks := syncClicks + 1;
      }
    }

    method OnNextTrack()
      requires Valid()
      modifies this`commands
      ensures Valid()
      ensures commands == if player.Some? then old(commands) + [NextTrack(player.value.handle)] else old(commands)
    {
      if player.Some? {
        commands := commands + [NextTrack(player.value.handle)];
      }
    }

    method OnPrevTrack()
      requires Valid()
      modifies this`commands
      ensures Valid()
      ensures commands == if player.Some? then old(commands) + [PreviousTrack(player.value.handle)] else old(commands)
    {
      if player.Some? {
        commands := commands + [PreviousTrack(player.value.handle)];
      }
    }

    /** The slider moved: the local value always follows it, the player only
        when there is one. */
    method HandleVolume(v: real)
      requires Valid()
      modifies this`volume, this`commands
      ensures Valid() && volume == v
      ensures commands == if player.Some? then old(commands) + [SetVolume(player.value.handle, v)] else old(commands)
    {
      volume := v;
      if player.Some? {
        commands := commands + [SetVolume(player.value.handle, v)];
      }
    }

    /** `handleScan` up to the request: a no-op while a scan is running;
        otherwise the uplink lines are shown and, unless the client could not
        be made or there is no subject, the request is sent and the scan
        stays running until it settles. `clientMade` says whether the
        client constructor returned rather than threw. */
    method HandleScan(clientMade: bool)
      requires Valid()
      modifies this`isScanning, this`terminalData, this`requests, this`settled
      ensures Valid()
      ensures old(isScanning) ==> isScanning && terminalData == old(terminalData) &&
                                  requests == old(requests) && settled == old(settled)
      ensures !old(isScanning) && !clientMade ==>
        !isScanning && terminalData == FailureLog && requests == old(requests)
      ensures !old(isScanning) && clientMade && ScanSubject(Offline(), currentTrack).None? ==>
        !isScanning && terminalData == NoMediaLog && requests == old(requests)
      ensures !old(isScanning) && clientMade && ScanSubject(Offline(), currentTrack).Some? ==>
        isScanning && terminalData == UplinkLog &&
        requests == old(requests) + [ScanSubject(Offline(), currentTrack).value]
    {
      if isScanning {
        return;
      }
      isScanning := true;
      terminalData := UplinkLog;
      if !clientMade {
        terminalData := FailureLog;
        isScanning := false;
        return;
      }
      var subject := ScanSubject(player.None?, currentTrack);
      if subject.None? {
        terminalData := NoMediaLog;
        isScanning := false;
        return;
      }
      requests := requests + [subject.value];
    }

    /** The running request answered with `text` (None when it has none). */
    method CompleteScan(text: Option<string>)
      requires Valid() && isScanning
      modifies this`isScanning, this`terminalData, this`settled
      ensures Valid() && !isScanning && terminalData == ScanLines(text)
      ensures settled == old(settled) + 1
    {
      terminalData := ScanLines(text);
      isScanning := false;
      settled := settled + 1;
    }

    /** The running request failed. */
    method FailScan()
      requires Valid() && isScanning
      modifies this`isScanning, this`terminalData, this`settled
      ensures Valid() && !isScanning && terminalData == FailureLog
      ensures settled == old(settled) + 1
    {
      terminalData := FailureLog;
      isScanning := false;
      settled := settled + 1;
    }
  }
}

/** The connect screen: a boot log that keeps its newest four lines, and a
    connect button whose label scrambles on hover and is revealed from the
    left, half a character per tick. */
module SpotifyConnect {
  import SpotifyService

  /** How many log lines the screen keeps. */
  const LogCapacity := 4

  /** `s.slice(-n)`: the last n elements, or all of them when there are
      fewer. As in JavaScript, `slice(-0)` is `slice(0)`: the whole sequence. */
  function Last<T>(s: seq<T>, n: nat): (r: seq<T>)
    ensures |r| == if n == 0 || |s| <= n then |s| else n
    ensures forall i :: 0 <= i < |r| ==> r[i] == s[|s| - |r| + i]
  {
    if n == 0 || |s| <= n then s else s[|s| - n..]
  }

  /** `prev => [...prev, text].slice(-4)`. */
  function AppendLog(prev: seq<string>, text: string): (r: seq<string>)
    ensures 1 <= |r| <= LogCapacity
    ensures r[|r| - 1] == text
  {
    Last(prev + [text], LogCapacity)
  }

  /** Below capacity nothing is dropped; at capacity the oldest line goes
      and the others keep their order. */
  lemma AppendLogCases(prev: seq<string>, text: string)
    ensures |prev| < LogCapacity ==> AppendLog(prev, text) == prev + [text]
    ensures |prev| == LogCapacity ==> AppendLog(prev, text) == prev[1..] + [text]
  {
    if |prev| == LogCapacity {
      assert (prev + [text])[1..] == prev[1..] + [text];
    }
  }

  /** The log after the given lines arrive, in order. */
  function Feed(log: seq<string>, lines: seq<string>): (r: seq<string>)
    ensures |log| <= LogCapacity ==> |r| <= LogCapacity
    ensures lines != [] ==> |r| > 0 && r[|r| - 1] == lines[|lines| - 1]
    decreases |lines|
  {
    if lines == [] then log
    else
      assert lines[1..] != [] ==> lines[1..][|lines[1..]| - 1] == lines[|lines| - 1];
      Feed(AppendLog(log, lines[0]), lines[1..])
  }

  /** Whatever arrives, the log holds the newest four of all lines so far. */
  lemma {:induction false} FeedKeepsNewest(log: seq<string>, lines: seq<string>)
    requires |log| <= LogCapacity
    ensures Feed(log, lines) == Last(log + lines, LogCapacity)
    decreases |lines|
  {
    if lines != [] {
      var next := AppendLog(log, lines[0]);
      FeedKeepsNewest(next, lines[1..]);
      LastAppend(log + [lines[0]], lines[1..], LogCapacity);
      assert Feed(log, lines) == Feed(next, lines[1..]);
      ConsTail(log, lines);
    }
  }

  /** Appending the first line and then the others appends them all. */
  lemma ConsTail<T>(log: seq<T>, lines: seq<T>)
    requires lines != []
    ensures log + [lines[0]] + lines[1..] == log + lines
  {
  }

  /** Taking the last n before appending more and then the last n again is
      taking the last n once. */
  lemma LastAppend<T>(a: seq<T>, b: seq<T>, n: nat)
    ensures Last(Last(a, n) + b, n) == Last(a + b, n)
  {
    if n > 0 && |a| > n {
      var k := |a| - n;
      assert Last(a, n) + b == (a + b)[k..];
      DropDrop(a + b, k, n);
    }
  }

  /** The last n of a suffix still n long are the last n of the whole. */
  lemma DropDrop<T>(c: seq<T>, k: nat, n: nat)
    requires k <= |c| && 0 < n <= |c| - k
    ensures Last(c[k..], n) == Last(c, n)
  {
    if |c| - k > n {
      assert c[k..][|c| - k - n..] == c[|c| - n..];
    }
  }

  /** One line of the boot sequence and the delay, in milliseconds, after
      which it is appended. */
  datatype BootLine = BootLine(text: string, delay: nat)

  function BootSequence(redirectUri: string): seq<BootLine>
  {
    [ BootLine("> SYSTEM_BOOT_SEQUENCE_INITIATED...", 500),
      BootLine("> DETECTED_URI: " + redirectUri, 800),
      BootLine("> SEARCHING_FOR_HOST...", 1500),
      BootLine("> PROTOCOL: OAUTH_2.0 [IMPLICIT_GRANT]", 2500),
      BootLine("> WAITING_FOR_USER_INPUT_", 3500) ]
  }

  function Texts(lines: seq<BootLine>): (r: seq<string>)
    ensures |r| == |lines| && forall i :: 0 <= i < |r| ==> r[i] == lines[i].text
  {
    seq(|lines|, i requires 0 <= i < |lines| => lines[i].text)
  }

  /** The delays strictly increase, so the timers fire in the listed order,
      and once all five have fired the log holds the second to fifth lines:
      the first one has been pushed out. */
  lemma BootLog(loc: SpotifyService.Location)
    ensures var b := BootSequence(SpotifyService.RedirectUri(loc));
      (forall i, j :: 0 <= i < j < |b| ==> b[i].delay < b[j].delay) &&
      Feed([], Texts(b)) == Texts(b)[1..]
  {
    FeedFive(Texts(BootSequence(SpotifyService.RedirectUri(loc))));
  }

  /** Five lines fed to an empty log leave the last four. */
  lemma FeedFive(t: seq<string>)
    requires |t| == 5
    ensures Feed([], t) == t[1..]
  {
    FeedKeepsNewest([], t);
    assert [] + t == t;
  }

  /** The button's label and the characters a scrambled position may show. */
  const OriginalText := "<CONNECT_SYSTEM />"
  const Alphabet := "ABCDEFGHIJKLMNOPQRSTUVWXYZ0123456789@#$%&"

  /** A draw of `Math.floor(Math.random() * chars.length)` for every
      position of a label of length n. */
  predicate Picks(picks: seq<nat>, n: nat)
  {
    |picks| == n && forall i :: 0 <= i < |picks| ==> picks[i] < |Alphabet|
  }

  /** The label at the tick where `iteration` is halfSteps / 2: positions
      with index < iteration show the original character, the others the
      drawn one. The label keeps its length; positions not yet passed show a
      character of the alphabet; from the tick where iteration reaches the
      length, the label is the original. */
  function Scramble(original: string, halfSteps: nat, picks: seq<nat>): (r: string)
    requires Picks(picks, |original|)
    ensures |r| == |original|
    ensures forall i :: 0 <= i < |r| && 2 * i < halfSteps ==> r[i] == original[i]
    ensures forall i :: 0 <= i < |r| && 2 * i >= halfSteps ==> r[i] in Alphabet
    ensures halfSteps >= 2 * |original| ==> r == original
  {
    seq(|original|, i requires 0 <= i < |original| =>
      if 2 * i < halfSteps then original[i] else Alphabet[picks[i]])
  }

  /** The connect screen's state: the label, the hover flag and the boot
      log, with the scramble interval's counter (in halves) and whether the
      interval is still running. */
  class ConnectScreen {
    var btnText: string
    var isHovering: bool
    var logs: seq<string>
    var halfSteps: nat
    var intervalActive: bool

    /** The interval only runs while hovering, and never past the tick that
        reveals the whole label. */
    ghost predicate Valid()
      reads this
    {
      |btnText| == |OriginalText| && |logs| <= LogCapacity &&
      (intervalActive ==> isHovering && halfSteps <= 2 * |OriginalText|)
    }

    constructor ()
      ensures Valid()
      ensures btnText == OriginalText && !isHovering && logs == [] && !intervalActive
    {
      btnText, isHovering, logs := OriginalText, false, [];
      halfSteps, intervalActive := 0, false;
    }

    /** A boot timer fires with its line. */
    method OnBootTimer(text: string)
      requires Valid()
      modifies this`logs
      ensures Valid() && logs == AppendLog(old(logs), text)
    {
      logs := AppendLog(logs, text);
    }

    /** Hover starts: a fresh interval with the counter at zero. */
    method MouseEnter()
      requires Valid()
      modifies this`isHovering, this`halfSteps, this`intervalActive
      ensures Valid() && isHovering
      ensures !old(isHovering) ==> halfSteps == 0 && intervalActive
      ensures old(isHovering) ==> halfSteps == old(halfSteps) && intervalActive == old(intervalActive)
    {
      if !isHovering {
        isHovering := true;
        halfSteps := 0;
        intervalActive := true;
      }
    }

    /** Hover ends: the interval is cleared and the label reset. */
    method MouseLeave()
      requires Valid()
      modifies this`isHovering, this`intervalActive, this`btnText
      ensures Valid() && !isHovering && !intervalActive
      ensures btnText == if old(isHovering) then OriginalText else old(btnText)
    {
      if isHovering {
        isHovering := false;
        intervalActive := false;
        btnText := OriginalText;
      }
    }

    /** One interval tick: the label is redrawn with the given draws, the
        interval stops once iteration has reached the length, and iteration
        grows by a half. */
    method Tick(picks: seq<nat>)
      requires Valid() && intervalActive && Picks(picks, |OriginalText|)
      modifies this`btnText, this`halfSteps, this`intervalActive
      ensures Valid()
      ensures btnText == Scramble(OriginalText, old(halfSteps), picks)
      ensures halfSteps == old(halfSteps) + 1
      ensures intervalActive <==> old(halfSteps) < 2 * |OriginalText|
      ensures !intervalActive ==> btnText == OriginalText
    {
      btnText := Scramble(OriginalText, halfSteps, picks);
      if halfSteps >= 2 * |OriginalText| {
        intervalActive := false;
      }
      halfSteps := halfSteps + 1;
    }
  }
}

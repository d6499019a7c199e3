/** The authorisation helpers: the implicit-grant login URL, reading the
    access token from the URL fragment the authorisation server redirects
    back with, and clearing that fragment. */
module SpotifyService {
  import opened Wrappers
  import Strings
  import Percent
  import Form
  import Utf8

  /** The parts of `window.location` the program reads. `hash` is what the
      `location.hash` getter returns: empty, or '#' and the fragment. */
  datatype Location = Location(origin: string, pathname: string, hash: string)

  /** The browser window, whose location's fragment the program clears. */
  class Window {
    var location: Location

    constructor (location: Location)
      ensures this.location == location
    {
      this.location := location;
    }

    /** `window.location.hash = ''`: the fragment is emptied, nothing else
        changes, and no token can be read from it any more. */
    method ClearUrlHash()
      modifies this
      ensures location == old(location).(hash := "")
      ensures GetTokenFromUrl(location) == None
    {
      location := location.(hash := "");
    }
  }

  /** The value CLIENT_ID ships with, which the login helper warns about. */
  const PlaceholderClientId := "YOUR_SPOTIFY_CLIENT_ID_HERE"

  const ClientIdWarning := "Please update the CLIENT_ID in services/spotifyService.ts"

  const Scopes: seq<string> := [
    "streaming",
    "user-read-email",
    "user-read-private",
    "user-read-playback-state",
    "user-modify-playback-state"
  ]

  const AuthorizeEndpoint := "https://accounts.spotify.com/authorize"

  /** REDIRECT_URI: the page's own address, without query or fragment. */
  function RedirectUri(loc: Location): string
  {
    loc.origin + loc.pathname
  }

  /** What `getLoginUrl` produces: the URL, and the console warning it issues first, if any. */
  datatype LoginRequest = LoginRequest(url: string, warning: Option<string>)

  /** The query of an absolute URL: after the first '?', up to the first '#'. */
  function QueryOf(url: string): string
  {
    Strings.Before(Strings.After(url, '?'), '#')
  }

  /** Text that can stand in the query as it is: it holds no '&', '%', '+' or
      '#'. The shipped placeholder client id and every shipped scope are such. */
  predicate QuerySafe(s: string)
  {
    '&' !in s && '%' !in s && '+' !in s && '#' !in s
  }

  predicate AllQuerySafe(parts: seq<string>)
  {
    forall i :: 0 <= i < |parts| ==> QuerySafe(parts[i])
  }

  /** A field that neither ends its pair nor the query: no '&' and no '#'. */
  predicate StaysInQuery(s: string)
  {
    '&' !in s && '#' !in s
  }

  /** The URL template of `getLoginUrl`, written out piece by piece at its
      '?', '=' and '&' characters: the authorize endpoint, '?', and the five
      login pairs written out as "name=value" joined by '&'. */
  function LoginUrl(clientId: string, scopes: seq<string>, loc: Location): (r: string)
    ensures r == AuthorizeEndpoint + "?" + Form.Serialize(LoginPairs(clientId,
                   Percent.EncodeURIComponent(RedirectUri(loc)), Strings.Join(scopes, "%20")))
  {
    SerializeFive(LoginPairs(clientId, Percent.EncodeURIComponent(RedirectUri(loc)), Strings.Join(scopes, "%20")));
    AuthorizeEndpoint + "?"
      + ("client_id" + "=" + clientId
      + "&" + "redirect_uri" + "=" + Percent.EncodeURIComponent(RedirectUri(loc))
      + "&" + "scope" + "=" + Strings.Join(scopes, "%20")
      + "&" + "response_type" + "=" + "token"
      + "&" + "show_dialog" + "=" + "true")
  }

  /** `getLoginUrl`, with CLIENT_ID and SCOPES as parameters (the shipped
      values are `PlaceholderClientId` and `Scopes`). The URL is the
      authorize endpoint with the five login pairs as its query. The warning
      is issued exactly for the placeholder, and it changes nothing else: for every
      query-safe client id and scopes, placeholder or not, the server's form
      parser reads back the five template pairs in order, each part decoded
      once, and so the client id as it is, REDIRECT_URI, and the scopes in
      order separated by spaces. The names and the fixed values decode to
      themselves (`LoginLiteralsAreWords`, `WordDecodes`). */
  function GetLoginUrl(clientId: string, scopes: seq<string>, loc: Location): (r: LoginRequest)
    ensures r.url == AuthorizeEndpoint + "?" + Form.Serialize(LoginPairs(clientId,
                       Percent.EncodeURIComponent(RedirectUri(loc)), Strings.Join(scopes, "%20")))
    ensures r.warning == (if clientId == PlaceholderClientId then Some(ClientIdWarning) else None)
    ensures QuerySafe(clientId) && AllQuerySafe(scopes) ==>
      var q := Form.Parse(QueryOf(r.url));
      q == Form.DecodePairs(LoginPairs(clientId, Percent.EncodeURIComponent(RedirectUri(loc)), Strings.Join(scopes, "%20"))) &&
      q[0].1 == clientId && q[1].1 == RedirectUri(loc) && q[2].1 == Strings.Join(scopes, " ")
  {
    var r := LoginRequest(LoginUrl(clientId, scopes, loc),
                          if clientId == PlaceholderClientId then Some(ClientIdWarning) else None);
    if QuerySafe(clientId) && AllQuerySafe(scopes) then LoginQueryReadBack(clientId, scopes, loc); r else r
  }

  /** With the shipped placeholder and scopes the helper warns and still
      builds the URL the server reads as for any other client id. */
  lemma PlaceholderStillBuildsUrl(loc: Location)
    ensures GetLoginUrl(PlaceholderClientId, Scopes, loc).warning == Some(ClientIdWarning)
    ensures QuerySafe(PlaceholderClientId) && AllQuerySafe(Scopes)
  {
    ShippedScopesSafe();
    assert Word(PlaceholderClientId);
    WordSafe(PlaceholderClientId);
  }

  /** A word: ASCII letters, '-' and '_'. The fixed names and values of the
      login query, the shipped scopes and the placeholder client id are words. */
  predicate Word(s: string)
  {
    forall i :: 0 <= i < |s| ==> 'a' <= s[i] <= 'z' || 'A' <= s[i] <= 'Z' || s[i] == '-' || s[i] == '_'
  }

  /** A word is query-safe and holds no '='. */
  lemma WordSafe(s: string)
    requires Word(s)
    ensures QuerySafe(s) && '=' !in s
  {
  }

  /** A word decodes to itself. */
  lemma WordDecodes(s: string)
    requires Word(s)
    ensures Form.DecodeComponent(s) == s
  {
    WordSafe(s);
    Form.DecodePlain(s);
  }

  /** The shipped scopes are words, hence query-safe. */
  lemma ShippedScopesSafe()
    ensures forall i :: 0 <= i < |Scopes| ==> Word(Scopes[i])
    ensures AllQuerySafe(Scopes)
  {
    ShippedScopesAreWords();
    forall i | 0 <= i < |Scopes| ensures QuerySafe(Scopes[i]) {
      WordSafe(Scopes[i]);
    }
  }

  lemma ShippedScopesAreWords()
    ensures Word("streaming") && Word("user-read-email") && Word("user-read-private")
    ensures Word("user-read-playback-state") && Word("user-modify-playback-state")
  {
    PlaybackScopesAreWords();
  }

  lemma PlaybackScopesAreWords()
    ensures Word("user-read-playback-state") && Word("user-modify-playback-state")
  {
  }

  /** The names and the fixed values of the login query are
      words, so each decodes to itself. */
  lemma LoginLiteralsAreWords()
    ensures Word("client_id") && Word("redirect_uri") && Word("scope")
    ensures Word("response_type") && Word("token")
    ensures Word("show_dialog") && Word("true")
  {
  }

  /** The scope field joins the scopes in list order with the literal "%20"
      and encodes nothing else. */
  lemma ScopeFieldExample()
    ensures Strings.Join(["a", "b"], "%20") == "a%20b"
  {
    assert Strings.Join(["b"], "%20") == "b";
  }

  /** Parts without '%' joined by "%20" percent-decode to the UTF-8 bytes of
      the parts joined by spaces. */
  lemma {:induction false} PercentDecodeSpaceJoined(parts: seq<string>)
    requires forall i :: 0 <= i < |parts| ==> '%' !in parts[i]
    ensures Percent.PercentDecode(Strings.Join(parts, "%20")) == Utf8.Encode(Strings.Join(parts, " "))
  {
    if |parts| == 1 {
      Percent.PercentDecodePlain(parts[0]);
    } else if |parts| > 1 {
      var rest := Strings.Join(parts[1..], "%20");
      var spaced := Strings.Join(parts[1..], " ");
      var t := "%20" + rest;
      assert Strings.Join(parts, "%20") == parts[0] + t;
      assert t[0] == '%' && t[1] == '2' && t[2] == '0' && t[3..] == rest;
      assert Percent.PercentDecode(t) == [0x20] + Percent.PercentDecode(rest);
      Percent.PercentDecodePlainPrefix(parts[0], t);
      PercentDecodeSpaceJoined(parts[1..]);
      assert Strings.Join(parts, " ") == parts[0] + (" " + spaced);
      Utf8.EncodeAppend(parts[0], " " + spaced);
      Utf8.EncodeAppend(" ", spaced);
    }
  }

  /** Query-safe parts joined by "%20" stay in the query and decode to the
      parts joined by spaces: the scope field is encoded once and nothing more. */
  lemma ScopeFieldDecodes(parts: seq<string>)
    requires AllQuerySafe(parts)
    ensures StaysInQuery(Strings.Join(parts, "%20"))
    ensures Form.DecodeComponent(Strings.Join(parts, "%20")) == Strings.Join(parts, " ")
  {
    var j := Strings.Join(parts, "%20");
    Strings.JoinExcludes(parts, "%20", '+');
    Strings.JoinExcludes(parts, "%20", '&');
    Strings.JoinExcludes(parts, "%20", '#');
    Strings.ReplaceAllAbsent(j, '+', ' ');
    PercentDecodeSpaceJoined(parts);
    Utf8.DecodeEncode(Strings.Join(parts, " "));
  }

  /** The encoded redirect URI stays in the query and decodes once back to REDIRECT_URI. */
  lemma RedirectFieldDecodes(loc: Location)
    ensures StaysInQuery(Percent.EncodeURIComponent(RedirectUri(loc)))
    ensures Form.DecodeComponent(Percent.EncodeURIComponent(RedirectUri(loc))) == RedirectUri(loc)
  {
    Form.DecodeEncoded(RedirectUri(loc));
  }

  /** The pairs the login URL's query is written from, before decoding, with
      the encoded redirect URI and the joined scopes as fields. */
  function LoginPairs(clientId: string, redirectField: string, scopeField: string): seq<Form.Pair>
  {
    [("client_id", clientId),
     ("redirect_uri", redirectField),
     ("scope", scopeField),
     ("response_type", "token"),
     ("show_dialog", "true")]
  }

  /** Five pairs written out, one separator at a time. */
  lemma SerializeFive(list: seq<Form.Pair>)
    requires |list| == 5
    ensures Form.Serialize(list)
         == list[0].0 + "=" + list[0].1 + "&" + list[1].0 + "=" + list[1].1 + "&"
          + list[2].0 + "=" + list[2].1 + "&" + list[3].0 + "=" + list[3].1 + "&"
          + list[4].0 + "=" + list[4].1
  {
    var p := Form.Sequences(list);
    var j4 := Strings.Join(p[4..], "&");
    var j3 := Strings.Join(p[3..], "&");
    var j2 := Strings.Join(p[2..], "&");
    var j1 := Strings.Join(p[1..], "&");
    assert j4 == p[4];
    assert j3 == p[3] + "&" + j4 by { assert p[3..][1..] == p[4..]; }
    assert j2 == p[2] + "&" + j3 by { assert p[2..][1..] == p[3..]; }
    assert j1 == p[1] + "&" + j2 by { assert p[1..][1..] == p[2..]; }
    assert Form.Serialize(list) == p[0] + "&" + j1;
  }

  /** The query of an endpoint without '?', followed by '?' and a list of
      pairs written out without '#', is that written-out list. */
  lemma QueryOfSerialized(endpoint: string, list: seq<Form.Pair>)
    requires '?' !in endpoint
    requires forall i :: 0 <= i < |list| ==> '#' !in list[i].0 && '#' !in list[i].1
    ensures QueryOf(endpoint + "?" + Form.Serialize(list)) == Form.Serialize(list)
  {
    var q := Form.Serialize(list);
    var p := Form.Sequences(list);
    assert forall i :: 0 <= i < |p| ==> '#' !in p[i] by {
      forall i | 0 <= i < |p| ensures '#' !in p[i] {
        assert p[i] == list[i].0 + "=" + list[i].1;
      }
    }
    Strings.JoinExcludes(p, "&", '#');
    Strings.SplitAtFirst(endpoint, '?', q);
    Strings.BeforeAfter(q, '#');
  }

  /** The login pairs of fields that stay in the query can be written into it. */
  lemma LoginPairsWritable(clientId: string, redirectField: string, scopeField: string)
    requires StaysInQuery(clientId) && StaysInQuery(redirectField) && StaysInQuery(scopeField)
    ensures Form.Writable(LoginPairs(clientId, redirectField, scopeField))
    ensures forall i :: 0 <= i < 5 ==>
      '#' !in LoginPairs(clientId, redirectField, scopeField)[i].0 &&
      '#' !in LoginPairs(clientId, redirectField, scopeField)[i].1
  {
    var list := LoginPairs(clientId, redirectField, scopeField);
    LoginLiteralsAreWords();
    WordSafe("client_id");
    WordSafe("redirect_uri");
    WordSafe("scope");
    WordSafe("response_type");
    WordSafe("token");
    WordSafe("show_dialog");
    WordSafe("true");
    assert list[0].0 == "client_id" && list[1].0 == "redirect_uri" && list[2].0 == "scope";
    assert list[3] == ("response_type", "token") && list[4] == ("show_dialog", "true");
  }

  /** The query of the login URL parses into the login pairs, each part decoded. */
  lemma LoginQueryParses(clientId: string, scopes: seq<string>, loc: Location)
    requires QuerySafe(clientId) && AllQuerySafe(scopes)
    ensures Form.Parse(QueryOf(LoginUrl(clientId, scopes, loc)))
         == Form.DecodePairs(LoginPairs(clientId, Percent.EncodeURIComponent(RedirectUri(loc)), Strings.Join(scopes, "%20")))
  {
    var e := Percent.EncodeURIComponent(RedirectUri(loc));
    var j := Strings.Join(scopes, "%20");
    var list := LoginPairs(clientId, e, j);
    RedirectFieldDecodes(loc);
    ScopeFieldDecodes(scopes);
    LoginPairsWritable(clientId, e, j);
    QueryOfSerialized(AuthorizeEndpoint, list);
    Form.ParseSerialize(list);
  }

  /** The query of the login URL reads back as the login pairs, each part
      decoded: the client id as it is, REDIRECT_URI, and the scopes
      separated by spaces. */
  lemma LoginQueryReadBack(clientId: string, scopes: seq<string>, loc: Location)
    requires QuerySafe(clientId) && AllQuerySafe(scopes)
    ensures var q := Form.Parse(QueryOf(LoginUrl(clientId, scopes, loc)));
      q == Form.DecodePairs(LoginPairs(clientId, Percent.EncodeURIComponent(RedirectUri(loc)), Strings.Join(scopes, "%20"))) &&
      q[0].1 == clientId && q[1].1 == RedirectUri(loc) && q[2].1 == Strings.Join(scopes, " ")
  {
    var list := LoginPairs(clientId, Percent.EncodeURIComponent(RedirectUri(loc)), Strings.Join(scopes, "%20"));
    LoginQueryParses(clientId, scopes, loc);
    RedirectFieldDecodes(loc);
    ScopeFieldDecodes(scopes);
    Form.DecodePlain(clientId);
    FirstThreeValues(list, Form.Parse(QueryOf(LoginUrl(clientId, scopes, loc))),
                     clientId, RedirectUri(loc), Strings.Join(scopes, " "));
  }

  /** The first three values of a decoded list of at least three pairs. */
  lemma FirstThreeValues(list: seq<Form.Pair>, q: seq<Form.Pair>, a: string, b: string, c: string)
    requires |list| >= 3 && q == Form.DecodePairs(list)
    requires Form.DecodeComponent(list[0].1) == a && Form.DecodeComponent(list[1].1) == b
    requires Form.DecodeComponent(list[2].1) == c
    ensures q[0].1 == a && q[1].1 == b && q[2].1 == c
  {
    Form.DecodedValue(list, 0);
    Form.DecodedValue(list, 1);
    Form.DecodedValue(list, 2);
  }

  /** `getTokenFromUrl`: null for an empty fragment; otherwise the fragment
      without its leading '#' is read as URLSearchParams and the first
      `access_token` value is returned. It only reads the location, so asking
      twice gives the same answer. */
  function GetTokenFromUrl(loc: Location): (r: Option<string>)
    ensures loc.hash == "" ==> r == None
  {
    if loc.hash == "" then None
    else Form.Get(Form.SearchParams(loc.hash[1..]), "access_token")
  }

  /** The text of a list of pairs does not start with '?' (which URLSearchParams would drop). */
  predicate NoLeadingQuestionMark(list: seq<Form.Pair>)
  {
    list == [] || list[0].0 == [] || list[0].0[0] != '?'
  }

  /** For a fragment written as '#' and "name=value" pairs joined by '&' (no
      part holding '&', no name holding '='), the token is the value of the
      first pair whose decoded name is `access_token`, decoded; null if none. */
  lemma TokenFromFragment(loc: Location, list: seq<Form.Pair>)
    requires loc.hash == "#" + Form.Serialize(list)
    requires Form.Writable(list) && NoLeadingQuestionMark(list)
    ensures GetTokenFromUrl(loc) == Form.Get(Form.DecodePairs(list), "access_token")
  {
    var text := Form.Serialize(list);
    assert loc.hash[1..] == text;
    if list != [] {
      var pieces := Form.Sequences(list);
      assert pieces[0] == list[0].0 + "=" + list[0].1;
      if |pieces| > 1 {
        assert text == pieces[0] + "&" + Strings.Join(pieces[1..], "&");
      }
      assert text[0] == pieces[0][0];
    }
    Form.ParseSerialize(list);
  }

  /** For plain pairs (no '&', '%' or '+' anywhere, no '=' in names) the token
      is exactly the first `access_token` value as written. */
  lemma TokenFromPlainFragment(loc: Location, list: seq<Form.Pair>)
    requires loc.hash == "#" + Form.Serialize(list)
    requires Form.Plain(list) && NoLeadingQuestionMark(list)
    ensures GetTokenFromUrl(loc) == Form.Get(list, "access_token")
  {
    TokenFromFragment(loc, list);
    Form.ParseSerializePlain(list);
    Form.ParseSerialize(list);
  }

  /** A fragment in which the first pair whose name reads as `access_token`
      holds x, where x has no '%' or '+' (nor '&'), yields exactly x, whatever
      the other pairs hold and whatever follows, repeats included. */
  lemma TokenIsFirstAccessToken(loc: Location, before: seq<Form.Pair>, x: string, after: seq<Form.Pair>)
    requires var list := before + [("access_token", x)] + after;
      loc.hash == "#" + Form.Serialize(list) && Form.Writable(list) && NoLeadingQuestionMark(list)
    requires '%' !in x && '+' !in x
    requires forall i :: 0 <= i < |before| ==> Form.DecodeComponent(before[i].0) != "access_token"
    ensures GetTokenFromUrl(loc) == Some(x)
  {
    var list := before + [("access_token", x)] + after;
    Form.DecodePlain(x);
    AccessTokenAt(before, x, after);
    EarlierNames(before, ("access_token", x), after);
    TokenAt(loc, list, |before|, x);
  }

  lemma AccessTokenAt(before: seq<Form.Pair>, x: string, after: seq<Form.Pair>)
    ensures var list := before + [("access_token", x)] + after;
      |before| < |list| && Form.DecodeComponent(list[|before|].0) == "access_token" && list[|before|].1 == x
  {
    AccessTokenDecodes();
    var list := before + [("access_token", x)] + after;
    assert list[|before|] == ("access_token", x);
  }

  lemma EarlierNames(before: seq<Form.Pair>, p: Form.Pair, after: seq<Form.Pair>)
    ensures forall j :: 0 <= j < |before| ==> (before + [p] + after)[j] == before[j]
  {
  }

  /** The token is the decoded value of the first pair whose name decodes to
      `access_token`. */
  lemma TokenAt(loc: Location, list: seq<Form.Pair>, k: nat, x: string)
    requires loc.hash == "#" + Form.Serialize(list) && Form.Writable(list) && NoLeadingQuestionMark(list)
    requires k < |list| && Form.DecodeComponent(list[k].0) == "access_token" && Form.DecodeComponent(list[k].1) == x
    requires forall j :: 0 <= j < k ==> Form.DecodeComponent(list[j].0) != "access_token"
    ensures GetTokenFromUrl(loc) == Some(x)
  {
    TokenFromFragment(loc, list);
    Form.GetDecoded(list, k, "access_token", x);
  }

  /** The name `access_token` is a word, so it decodes to itself. */
  lemma AccessTokenDecodes()
    ensures Form.DecodeComponent("access_token") == "access_token"
  {
    assert Word("access_token");
    WordDecodes("access_token");
  }

  /** A fragment none of whose names decodes to `access_token` yields null,
      whatever the values hold (an error redirect, say). */
  lemma NoTokenWithoutAccessToken(loc: Location, list: seq<Form.Pair>)
    requires loc.hash == "#" + Form.Serialize(list) && Form.Writable(list) && NoLeadingQuestionMark(list)
    requires forall i :: 0 <= i < |list| ==> Form.DecodeComponent(list[i].0) != "access_token"
    ensures GetTokenFromUrl(loc) == None
  {
    TokenFromFragment(loc, list);
    var q := Form.DecodePairs(list);
    forall i | 0 <= i < |q| ensures q[i].0 != "access_token" {
      Form.DecodedName(list, i);
    }
  }
}

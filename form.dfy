/** The application/x-www-form-urlencoded parser of the WHATWG URL Standard
    (section 5.1) and the two members of URLSearchParams the program uses: its
    constructor from a string (section 6.2) and `get`. */
module Form {
  import opened Wrappers
  import Strings
  import Utf8
  import Percent

  /** A name-value pair the way the parser produces it. */
  type Pair = (string, string)

  /** A sequence split at its first '=': the name before it and the value
      after it, or the whole sequence and an empty value when it has none. */
  function NameValue(bytes: string): Pair
  {
    (Strings.Before(bytes, '='), Strings.After(bytes, '='))
  }

  /** Replace '+' by a space, percent-decode, then UTF-8 decode without BOM.
      Text without '%' comes back as it is, each '+' read as a space. */
  function DecodeComponent(s: string): (r: string)
    ensures '%' !in s ==> r == Strings.ReplaceAll(s, '+', ' ')
  {
    var spaced := Strings.ReplaceAll(s, '+', ' ');
    if '%' in s then Utf8.Decode(Percent.PercentDecode(spaced))
    else
      Strings.ReplaceAllExcludes(s, '+', ' ', '%');
      Percent.PercentDecodePlain(spaced);
      Utf8.DecodeEncode(spaced);
      Utf8.Decode(Percent.PercentDecode(spaced))
  }

  /** The parser after the input has been split on '&': empty sequences are
      skipped, every other one gives one decoded pair. */
  function ParseSequences(sequences: seq<string>): (r: seq<Pair>)
    ensures |r| <= |sequences|
    ensures |r| == |sequences| ==> forall i :: 0 <= i < |sequences| ==> sequences[i] != []
  {
    if sequences == [] then []
    else
      var pair := NameValue(sequences[0]);
      var rest := ParseSequences(sequences[1..]);
      assert forall i :: 1 <= i < |sequences| ==> sequences[i] == sequences[1..][i - 1];
      (if sequences[0] == [] then [] else [(DecodeComponent(pair.0), DecodeComponent(pair.1))])
      + rest
  }

  /** The parser: at most one pair per '&'-separated sequence, none for the
      empty input, and exactly one for a non-empty input without '&'. */
  function Parse(input: string): (r: seq<Pair>)
    ensures |r| <= |Strings.Split(input, '&')|
    ensures input == [] ==> r == []
    ensures input != [] && '&' !in input ==>
      r == [(DecodeComponent(Strings.Before(input, '=')), DecodeComponent(Strings.After(input, '=')))]
  {
    if input != [] && '&' !in input then
      Strings.SplitPlain(input, '&');
      assert [input][1..] == [];
      ParseSequences(Strings.Split(input, '&'))
    else ParseSequences(Strings.Split(input, '&'))
  }

  /** `new URLSearchParams(init)` for a string: one leading '?' is dropped
      first, and a string that does not start with '?' is parsed whole. */
  function SearchParams(init: string): seq<Pair>
  {
    if |init| > 0 && init[0] == '?' then Parse(init[1..]) else Parse(init)
  }

  /** `URLSearchParams.get(name)`: the value of the first pair with that name. */
  function Get(list: seq<Pair>, name: string): (r: Option<string>)
    ensures r.None? <==> forall i :: 0 <= i < |list| ==> list[i].0 != name
    ensures r.Some? ==> exists i :: 0 <= i < |list| && list[i] == (name, r.value) &&
                                    forall j :: 0 <= j < i ==> list[j].0 != name
  {
    if list == [] then None
    else if list[0].0 == name then Some(list[0].1)
    else
      var r := Get(list[1..], name);
      assert r.Some? ==> exists i :: 1 <= i < |list| && list[i] == (name, r.value) &&
                                     forall j :: 0 <= j < i ==> list[j].0 != name by {
        if r.Some? {
          var i :| 0 <= i < |list[1..]| && list[1..][i] == (name, r.value) &&
                   forall j :: 0 <= j < i ==> list[1..][j].0 != name;
          assert list[i + 1] == (name, r.value);
          assert forall j :: 1 <= j < i + 1 ==> list[j].0 == list[1..][j - 1].0;
        }
      }
      r
  }

  /** The value of the first pair with a name is what `get` returns for it. */
  lemma {:induction false} GetFirst(list: seq<Pair>, k: nat, name: string)
    requires k < |list| && list[k].0 == name
    requires forall j :: 0 <= j < k ==> list[j].0 != name
    ensures Get(list, name) == Some(list[k].1)
  {
    if k > 0 {
      GetFirst(list[1..], k - 1, name);
    }
  }

  /** After decoding, `get` returns the decoded value of the first pair whose
      name decodes to the one asked for. */
  lemma GetDecoded(list: seq<Pair>, k: nat, name: string, value: string)
    requires k < |list| && DecodeComponent(list[k].0) == name && DecodeComponent(list[k].1) == value
    requires forall j :: 0 <= j < k ==> DecodeComponent(list[j].0) != name
    ensures Get(DecodePairs(list), name) == Some(value)
  {
    GetFirst(DecodePairs(list), k, name);
  }

  /** The text "n=v&n=v..." of a list of pairs, before any encoding. */
  function Serialize(list: seq<Pair>): string
  {
    Strings.Join(Sequences(list), "&")
  }

  function Sequences(list: seq<Pair>): (r: seq<string>)
    ensures |r| == |list|
    ensures forall i :: 0 <= i < |r| ==> r[i] == list[i].0 + "=" + list[i].1
  {
    if list == [] then [] else [list[0].0 + "=" + list[0].1] + Sequences(list[1..])
  }

  /** Every part of every pair decoded. */
  function DecodePairs(list: seq<Pair>): seq<Pair>
  {
    seq(|list|, i requires 0 <= i < |list| => (DecodeComponent(list[i].0), DecodeComponent(list[i].1)))
  }

  /** The name of the decoded pair at i is the name at i, decoded. */
  lemma DecodedName(list: seq<Pair>, i: nat)
    requires i < |list|
    ensures |DecodePairs(list)| == |list| && DecodePairs(list)[i].0 == DecodeComponent(list[i].0)
  {
  }

  /** The value of the decoded pair at i is the value at i, decoded. */
  lemma DecodedValue(list: seq<Pair>, i: nat)
    requires i < |list|
    ensures |DecodePairs(list)| == |list| && DecodePairs(list)[i].1 == DecodeComponent(list[i].1)
  {
  }

  /** A list of pairs can be written out and read back, each part decoded,
      as long as no part holds '&' and no name holds '='. */
  predicate Writable(list: seq<Pair>)
  {
    forall i :: 0 <= i < |list| ==> '&' !in list[i].0 && '&' !in list[i].1 && '=' !in list[i].0
  }

  lemma {:induction false} ParseSequencesOf(list: seq<Pair>)
    requires Writable(list)
    ensures ParseSequences(Sequences(list)) == DecodePairs(list)
  {
    if list != [] {
      var s := Sequences(list);
      assert s[0] == list[0].0 + "=" + list[0].1 && s[0] != [];
      assert s[1..] == Sequences(list[1..]);
      Strings.SplitAtFirst(list[0].0, '=', list[0].1);
      assert NameValue(s[0]) == list[0];
      WritableTail(list);
      ParseSequencesOf(list[1..]);
      DecodePairsCons(list);
    }
  }

  lemma WritableTail(list: seq<Pair>)
    requires Writable(list) && list != []
    ensures Writable(list[1..])
  {
    forall i | 0 <= i < |list[1..]|
      ensures '&' !in list[1..][i].0 && '&' !in list[1..][i].1 && '=' !in list[1..][i].0
    {
      assert list[1..][i] == list[i + 1];
    }
  }

  lemma DecodePairsCons(list: seq<Pair>)
    requires list != []
    ensures DecodePairs(list) == [(DecodeComponent(list[0].0), DecodeComponent(list[0].1))] + DecodePairs(list[1..])
  {
  }

  /** Parsing a serialized list gives back its pairs, each part decoded. */
  lemma ParseSerialize(list: seq<Pair>)
    requires Writable(list)
    ensures Parse(Serialize(list)) == DecodePairs(list)
  {
    var s := Sequences(list);
    if list == [] {
      assert Strings.Split([], '&') == [[]];
    } else {
      forall i | 0 <= i < |s| ensures '&' !in s[i] {
        assert s[i] == list[i].0 + "=" + list[i].1;
      }
      Strings.SplitJoin(s, '&');
    }
    ParseSequencesOf(list);
  }

  /** Text without '%' and '+' decodes to itself. */
  lemma DecodePlain(s: string)
    requires '%' !in s && '+' !in s
    ensures DecodeComponent(s) == s
  {
    Strings.ReplaceAllAbsent(s, '+', ' ');
    Percent.PercentDecodePlain(s);
    Utf8.DecodeEncode(s);
  }

  /** An encodeURIComponent result decodes to the original string. */
  lemma DecodeEncoded(s: string)
    ensures DecodeComponent(Percent.EncodeURIComponent(s)) == s
  {
    var e := Percent.EncodeURIComponent(s);
    Strings.ReplaceAllAbsent(e, '+', ' ');
    Percent.PercentDecodeEncode(s);
    Utf8.DecodeEncode(s);
  }

  /** Plain pairs: neither part holds '&', '%' or '+', and names hold no '='. */
  predicate Plain(list: seq<Pair>)
  {
    forall i :: 0 <= i < |list| ==>
      '&' !in list[i].0 && '&' !in list[i].1 && '=' !in list[i].0 &&
      '%' !in list[i].0 && '%' !in list[i].1 && '+' !in list[i].0 && '+' !in list[i].1
  }

  /** Plain pairs survive the round trip exactly. */
  lemma ParseSerializePlain(list: seq<Pair>)
    requires Plain(list)
    ensures Parse(Serialize(list)) == list
  {
    ParseSerialize(list);
    forall i | 0 <= i < |list|
      ensures DecodePairs(list)[i] == list[i]
    {
      DecodePlain(list[i].0);
      DecodePlain(list[i].1);
    }
  }
}

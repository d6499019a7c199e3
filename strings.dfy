/** The few string operations of the JavaScript standard library the program
    relies on: `split` on a one-character separator, `join`, and replacing
    every occurrence of one character by another. */
module Strings {
  /** `s.split(sep)`: the pieces between separators in order, empty pieces
      included, so that the empty string splits into one empty piece. */
  function Split(s: string, sep: char): (r: seq<string>)
    ensures |r| >= 1
    ensures forall i :: 0 <= i < |r| ==> sep !in r[i]
    decreases |s|
  {
    if s == [] then [[]]
    else
      var rest := Split(s[1..], sep);
      if s[0] == sep then [[]] + rest
      else [[s[0]] + rest[0]] + rest[1..]
  }

  /** `parts.join(sep)`: it starts with the first part. */
  function Join(parts: seq<string>, sep: string): (r: string)
    ensures |parts| > 0 ==> parts[0] <= r
  {
    if |parts| == 0 then []
    else if |parts| == 1 then parts[0]
    else parts[0] + sep + Join(parts[1..], sep)
  }

  /** Joining the pieces with the separator gives back the string. */
  lemma {:induction false} JoinSplit(s: string, sep: char)
    ensures Join(Split(s, sep), [sep]) == s
  {
    if s != [] {
      var rest := Split(s[1..], sep);
      JoinSplit(s[1..], sep);
      if s[0] == sep {
        assert Split(s, sep) == [[]] + rest;
        assert ([[]] + rest)[1..] == rest;
        assert s == [sep] + s[1..];
      } else if |rest| == 1 {
        assert Split(s, sep) == [[s[0]] + rest[0]];
        assert s == [s[0]] + s[1..];
      } else {
        var r := [[s[0]] + rest[0]] + rest[1..];
        assert Split(s, sep) == r;
        assert r[1..] == rest[1..];
        assert Join(rest, [sep]) == rest[0] + [sep] + Join(rest[1..], [sep]);
        assert s == [s[0]] + s[1..];
      }
    }
  }

  /** A piece without the separator splits into itself. */
  lemma {:induction false} SplitPlain(p: string, sep: char)
    requires sep !in p
    ensures Split(p, sep) == [p]
  {
    if p != [] {
      SplitPlain(p[1..], sep);
      assert p == [p[0]] + p[1..];
    }
  }

  /** A piece without the separator, then the separator, splits off first. */
  lemma {:induction false} SplitFirst(p: string, rest: string, sep: char)
    requires sep !in p
    ensures Split(p + [sep] + rest, sep) == [p] + Split(rest, sep)
  {
    var s := p + [sep] + rest;
    if p == [] {
      assert s == [sep] + rest;
      assert s[1..] == rest;
    } else {
      assert s[0] == p[0] && s[1..] == p[1..] + [sep] + rest;
      SplitFirst(p[1..], rest, sep);
      assert p == [p[0]] + p[1..];
    }
  }

  /** Splitting undoes joining when no part holds the separator. */
  lemma {:induction false} SplitJoin(parts: seq<string>, sep: char)
    requires |parts| >= 1
    requires forall i :: 0 <= i < |parts| ==> sep !in parts[i]
    ensures Split(Join(parts, [sep]), sep) == parts
  {
    if |parts| == 1 {
      SplitPlain(parts[0], sep);
    } else {
      SplitJoin(parts[1..], sep);
      SplitFirst(parts[0], Join(parts[1..], [sep]), sep);
      assert parts == [parts[0]] + parts[1..];
    }
  }

  /** `s.replace(/from/g, to)` for single characters: the length is kept and
      no `from` is left, unless it is also `to`. */
  function ReplaceAll(s: string, from: char, to: char): (r: string)
    ensures |r| == |s|
    ensures from != to ==> from !in r
  {
    if s == [] then [] else [if s[0] == from then to else s[0]] + ReplaceAll(s[1..], from, to)
  }

  /** Replacing leaves every other character in place. */
  lemma {:induction false} ReplaceAllAt(s: string, from: char, to: char, i: nat)
    requires i < |s|
    ensures ReplaceAll(s, from, to)[i] == if s[i] == from then to else s[i]
  {
    if i > 0 {
      ReplaceAllAt(s[1..], from, to, i - 1);
    }
  }

  /** A character that is neither in s nor `to` is not in the result. */
  lemma {:induction false} ReplaceAllExcludes(s: string, from: char, to: char, c: char)
    requires c !in s && c != to
    ensures c !in ReplaceAll(s, from, to)
  {
    if s != [] {
      ReplaceAllExcludes(s[1..], from, to, c);
    }
  }

  /** A string without `from` is left as it is. */
  lemma {:induction false} ReplaceAllAbsent(s: string, from: char, to: char)
    requires from !in s
    ensures ReplaceAll(s, from, to) == s
  {
    if s != [] {
      ReplaceAllAbsent(s[1..], from, to);
      assert s == [s[0]] + s[1..];
    }
  }

  /** The text before the first `c`, or all of `s` when it has none. */
  function Before(s: string, c: char): (r: string)
    ensures c !in r
    ensures r <= s && (|r| < |s| ==> s[|r|] == c)
  {
    if s == [] || s[0] == c then [] else [s[0]] + Before(s[1..], c)
  }

  /** The text after the first `c`, or nothing when `s` has none. */
  function After(s: string, c: char): (r: string)
    ensures |r| <= |s| && r == s[|s| - |r|..]
    ensures c !in s ==> r == []
  {
    if s == [] then [] else if s[0] == c then s[1..] else After(s[1..], c)
  }

  /** Together, Before and After split a string at its first `c`. */
  lemma {:induction false} BeforeAfter(s: string, c: char)
    ensures c in s ==> s == Before(s, c) + [c] + After(s, c)
    ensures c !in s ==> Before(s, c) == s && After(s, c) == []
  {
    if s != [] && s[0] != c {
      BeforeAfter(s[1..], c);
      assert s == [s[0]] + s[1..];
    }
  }

  /** Splitting at the first `c` of p + [c] + q, where p has none, gives p and q. */
  lemma {:induction false} SplitAtFirst(p: string, c: char, q: string)
    requires c !in p
    ensures Before(p + [c] + q, c) == p
    ensures After(p + [c] + q, c) == q
  {
    var s := p + [c] + q;
    if p == [] {
      assert s[0] == c && s[1..] == q;
    } else {
      assert s[0] == p[0] && s[1..] == p[1..] + [c] + q;
      SplitAtFirst(p[1..], c, q);
      assert p == [p[0]] + p[1..];
    }
  }

  /** A character in neither the parts nor the separator is not in their join. */
  lemma {:induction false} JoinExcludes(parts: seq<string>, sep: string, c: char)
    requires c !in sep
    requires forall i :: 0 <= i < |parts| ==> c !in parts[i]
    ensures c !in Join(parts, sep)
  {
    if |parts| > 1 {
      JoinExcludes(parts[1..], sep, c);
      assert c !in parts[0];
    }
  }
}

/** Path text: splitting at slashes with `strtok`, and joining names (lib/libc/libc.c:205-231,
fs/filesystem.c:476-500). */
module Paths {
  import opened Options

  const SLASH := '/'

  /** Longest prefix of `s` without a slash, as a length. */
  function TokenLength(s: string): (n: nat)
    ensures n <= |s| && SLASH !in s[..n] && (n < |s| ==> s[n] == SLASH)
  {
    if s == [] || s[0] == SLASH then 0 else
    var n := 1 + TokenLength(s[1..]);
    assert s[..n] == [s[0]] + s[1..][..n - 1];
    n
  }

  /** The maximal slash-free pieces of a text, in order; empty pieces do not count. */
  function Tokens(s: string): seq<string>
    decreases |s|
  {
    if s == [] then []
    else if s[0] == SLASH then Tokens(s[1..])
    else
      var n := TokenLength(s);
      [s[..n]] + Tokens(s[n..])
  }

  /** `"/" + name` for each name in turn. */
  function Join(names: seq<string>): string {
    if names == [] then "" else "/" + names[0] + Join(names[1..])
  }

  predicate PlainName(name: string) { name != "" && SLASH !in name }

  lemma {:induction false} TokenLengthOfName(name: string, rest: string)
    requires SLASH !in name && (rest == [] || rest[0] == SLASH)
    ensures TokenLength(name + rest) == |name|
  {
    if name == [] {
      assert name + rest == rest;
    } else {
      assert (name + rest)[1..] == name[1..] + rest;
      TokenLengthOfName(name[1..], rest);
    }
  }

  lemma TokensOfName(name: string, rest: string)
    requires PlainName(name) && (rest == [] || rest[0] == SLASH)
    ensures Tokens(name + rest) == [name] + Tokens(rest)
  {
    var s := name + rest;
    TokenLengthOfName(name, rest);
    assert s[..|name|] == name && s[|name|..] == rest;
    assert s[0] == name[0] && name[0] in name;
  }

  /** Splitting undoes joining. */
  lemma {:induction false} TokensOfJoin(names: seq<string>)
    requires forall i :: 0 <= i < |names| ==> PlainName(names[i])
    ensures Tokens(Join(names)) == names
  {
    if names != [] {
      var rest := Join(names[1..]);
      assert Join(names) == [SLASH] + (names[0] + rest);
      assert Join(names)[1..] == names[0] + rest;
      TokensOfName(names[0], rest);
      TokensOfJoin(names[1..]);
      assert names == [names[0]] + names[1..];
    }
  }

  lemma {:induction false} JoinAppend(names: seq<string>, name: string)
    ensures Join(names + [name]) == Join(names) + "/" + name
  {
    if names == [] {
      assert Join([name]) == "/" + name + Join([name][1..]);
    } else {
      assert (names + [name])[1..] == names[1..] + [name];
      JoinAppend(names[1..], name);
      assert Join(names) == "/" + names[0] + Join(names[1..]);
    }
  }

  lemma {:induction false} JoinBound(names: seq<string>, n: nat)
    requires forall i :: 0 <= i < |names| ==> |names[i]| < n
    ensures |Join(names)| <= n * |names|
  {
    if names != [] {
      JoinBound(names[1..], n);
      assert n * |names| == n * (|names| - 1) + n;
    }
  }

  lemma {:induction false} JoinConcat(a: seq<string>, b: seq<string>)
    ensures Join(a + b) == Join(a) + Join(b) && |Join(a)| >= |a|
  {
    if a == [] {
      assert a + b == b;
    } else {
      assert (a + b)[1..] == a[1..] + b;
      JoinConcat(a[1..], b);
    }
  }

  /** Tokens are plain names, and joining them gives back no more than the text: each had a slash or the start of the
  text before it. */
  lemma {:induction false} JoinOfTokens(s: string)
    ensures forall i :: 0 <= i < |Tokens(s)| ==> PlainName(Tokens(s)[i])
    ensures |Join(Tokens(s))| <= |s| + 1
    ensures s == [] || s[0] == SLASH ==> |Join(Tokens(s))| <= |s|
    decreases |s|
  {
    if s != [] {
      if s[0] == SLASH {
        JoinOfTokens(s[1..]);
      } else {
        var n := TokenLength(s);
        JoinOfTokens(s[n..]);
        JoinConcat([s[..n]], Tokens(s[n..]));
        assert Join([s[..n]]) == "/" + s[..n] + Join([s[..n]][1..]);
      }
    }
  }

  lemma {:induction false} TokensSkip(s: string, i: nat)
    requires i <= |s| && forall k :: 0 <= k < i ==> s[k] == SLASH
    ensures Tokens(s) == Tokens(s[i..])
  {
    if i > 0 {
      TokensSkip(s[1..], i - 1);
      assert s[1..][i - 1..] == s[i..];
    }
  }

  /** One token: slashes from `start` to `first`, and a slash-free piece from there to `end`. */
  lemma TokensStep(text: string, start: nat, first: nat, end: nat)
    requires start <= first < end <= |text| && (end < |text| ==> text[end] == SLASH)
    requires forall k :: start <= k < first ==> text[k] == SLASH
    requires forall k :: first <= k < end ==> text[k] != SLASH
    ensures Tokens(text[start..]) == [text[first..end]] + Tokens(text[end..])
    ensures end < |text| ==> Tokens(text[end..]) == Tokens(text[end + 1..])
  {
    TokensSkip(text[start..], first - start);
    assert text[start..][first - start..] == text[first..];
    assert text[first..] == text[first..end] + text[end..];
    TokensOfName(text[first..end], text[end..]);
    if end < |text| { assert text[end..][1..] == text[end + 1..]; }
  }

  /** `strtok` with the delimiter `"/"`: the text, and the saved position between calls. */
  class Tokenizer {
    var text: string
    var pos: nat

    ghost predicate Valid()
      reads this
    {
      pos <= |text|
    }

    /** Tokens that the calls to come will return. */
    ghost function Left(): seq<string>
      reads this
      requires Valid()
    {
      Tokens(text[pos..])
    }

    constructor (s: string)
      ensures Valid() && Left() == Tokens(s)
    {
      text, pos := s, 0;
    }

    method Next() returns (token: Option<string>)
      requires Valid()
      modifies this`pos
      ensures Valid()
      ensures if old(Left()) == [] then token == None && Left() == []
              else token == Some(old(Left())[0]) && Left() == old(Left())[1..]
    {
      ghost var start := pos;
      while pos < |text| && text[pos] == SLASH
        invariant start <= pos <= |text| && forall k :: start <= k < pos ==> text[k] == SLASH
      {
        pos := pos + 1;
      }
      if pos == |text| {
        TokensSkip(text[start..], pos - start);
        assert text[start..][pos - start..] == [];
        return None;
      }
      var first := pos;
      while pos < |text| && text[pos] != SLASH
        invariant first <= pos <= |text| && forall k :: first <= k < pos ==> text[k] != SLASH
      {
        pos := pos + 1;
      }
      TokensStep(text, start, first, pos);
      assert Tokens(text[start..])[1..] == Tokens(text[pos..]);
      token := Some(text[first..pos]);
      if pos < |text| {
        pos := pos + 1;
      }
    }
  }
}

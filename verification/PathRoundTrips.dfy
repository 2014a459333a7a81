/** When changing to a printed path leads back (fs/filesystem.c:387-435 and 476-500). */
module PathRoundTrips {
  import opened Options
  import opened FileTable
  import opened Paths

  /** Plain names joined to at most 256 characters lead, from anywhere, where the names lead. */
  lemma JoinedPath(t: Table, elsewhere: int, names: seq<string>)
    requires 0 <= elsewhere < |t| && names != [] && forall i :: 0 <= i < |names| ==> PlainName(names[i])
    requires |Join(names)| <= 256
    ensures ChangedDirectory(t, elsewhere, Join(names)) ==
            match Resolve(t, 0, names) case None => (-1, elsewhere) case Some(d) => (0, d)
  {
    var path := Join(names);
    assert path[0] == SLASH && |path| > 1;
    assert path != "/" && path != "." && path != "..";
    TokensOfJoin(names);
    assert Tokens(path) == Tokens(path[1..]);
  }

  /** Changing to the printed path of a directory ends in that directory, from anywhere, if its names are plain and the
  path is within the limits on depth and length. */
  lemma WithinLimits(t: Table, directory: int, current: int)
    requires Ordered(t) && DistinctSiblings(t) && Rooted(t, directory) && 0 <= current < |t|
    requires PrintsBack(t, directory)
    ensures ChangedDirectory(t, current, CurrentPath(t, directory)) == (0, directory)
  {
    var chain := Chain(t, directory);
    if directory != 0 {
      var names := Names(t, chain);
      assert chain[0..] == chain;
      JoinedPath(t, current, names);
      ChainResolves(t, directory);
    }
  }

  /** The names on the chain are plain, there are at most 64 of them, and they print to at most 256 characters. */
  predicate PrintsBack(t: Table, directory: int)
    requires Rooted(t, directory)
  {
    && (forall k | k in Chain(t, directory) :: PlainName(t[k].name))
    && |Chain(t, directory)| <= 64 && |CurrentPath(t, directory)| <= 256
  }

  /** What a sequence of names resolves to has exactly those names on its chain. */
  lemma {:induction false} ResolvedChain(t: Table, names: seq<string>)
    requires Ordered(t) && Resolve(t, 0, names).Some?
    ensures var d := Resolve(t, 0, names).value; Rooted(t, d) && Names(t, Chain(t, d)) == names
    decreases |names|
  {
    if names != [] {
      var rest, name := names[..|names| - 1], names[|names| - 1];
      assert names == rest + [name];
      ResolveAppend(t, 0, rest, name);
      ResolvedChain(t, rest);
      var d, e := Resolve(t, 0, rest).value, Resolve(t, 0, names).value;
      assert Chain(t, e) == Chain(t, d) + [e];
      assert Names(t, Chain(t, e)) == Names(t, Chain(t, d)) + [name];
    }
  }

  /** If the tokens of a printed path, cut to `cut` characters after its first slash, are all the names of the chain,
  then the names are plain, none was left out, and nothing was cut off. */
  lemma TokensTellLimits(names: seq<string>, path: string, text: string)
    requires names != [] && path == Join(names[if |names| <= 64 then 0 else |names| - 64..])
    requires path != "" && text == PathCopy(path) && Tokens(text) == names
    ensures forall i :: 0 <= i < |names| ==> PlainName(names[i])
    ensures |names| <= 64 && |path| <= 256
  {
    JoinOfTokens(text);
    if |names| > 64 {
      var n := |names| - 64;
      assert names == names[..n] + names[n..];
      JoinConcat(names[..n], names[n..]);
    } else {
      assert names[0..] == names;
    }
  }

  /** A printed path is made of the last 64 names of the chain. */
  lemma PrintedNames(t: Table, directory: int)
    requires Rooted(t, directory) && directory != 0
    ensures var names := Names(t, Chain(t, directory));
            names != [] && CurrentPath(t, directory) == Join(names[if |names| <= 64 then 0 else |names| - 64..])
    ensures CurrentPath(t, directory) != "" && CurrentPath(t, directory)[0] == SLASH
  {
    var chain := Chain(t, directory);
    var n := if |chain| <= 64 then 0 else |chain| - 64;
    assert Names(t, chain[n..]) == Names(t, chain)[n..];
  }

  lemma NamesAreTokens(t: Table, directory: int, current: int)
    requires Ordered(t) && Rooted(t, directory) && 0 <= current < |t| && directory != 0
    requires ChangedDirectory(t, current, CurrentPath(t, directory)) == (0, directory)
    ensures CurrentPath(t, directory) != ""
    ensures Tokens(PathCopy(CurrentPath(t, directory))) == Names(t, Chain(t, directory))
  {
    PrintedNames(t, directory);
    ReachedByTokens(t, current, CurrentPath(t, directory), directory);
    ResolvedChain(t, Tokens(PathCopy(CurrentPath(t, directory))));
  }

  /** A printed path that leads back has kept the limits. */
  lemma LimitsKept(t: Table, directory: int, current: int)
    requires Ordered(t) && Rooted(t, directory) && 0 <= current < |t| && directory != 0
    requires ChangedDirectory(t, current, CurrentPath(t, directory)) == (0, directory)
    ensures PrintsBack(t, directory)
  {
    PrintedNames(t, directory);
    NamesAreTokens(t, directory, current);
    LimitsFromTokens(t, directory, Names(t, Chain(t, directory)), CurrentPath(t, directory));
  }

  lemma LimitsFromTokens(t: Table, directory: int, names: seq<string>, path: string)
    requires Rooted(t, directory) && names == Names(t, Chain(t, directory)) && path == CurrentPath(t, directory)
    requires names != [] && path == Join(names[if |names| <= 64 then 0 else |names| - 64..])
    requires path != "" && Tokens(PathCopy(path)) == names
    ensures PrintsBack(t, directory)
  {
    TokensTellLimits(names, path, PathCopy(path));
    NamesTellPlain(t, directory);
  }

  lemma ReachedByTokens(t: Table, current: int, path: string, directory: int)
    requires 0 <= current < |t| && path != "" && path[0] == SLASH && directory != 0
    requires ChangedDirectory(t, current, path) == (0, directory)
    ensures Resolve(t, 0, Tokens(PathCopy(path))) == Some(directory)
  {
  }

  lemma NamesTellPlain(t: Table, directory: int)
    requires Rooted(t, directory) && |CurrentPath(t, directory)| <= 256
    requires var names := Names(t, Chain(t, directory));
             |names| <= 64 && forall i :: 0 <= i < |names| ==> PlainName(names[i])
    ensures PrintsBack(t, directory)
  {
    var chain := Chain(t, directory);
    forall k | k in chain ensures PlainName(t[k].name) {
      var i :| 0 <= i < |chain| && chain[i] == k;
      assert PlainName(Names(t, chain)[i]);
    }
  }

  /** The round trip succeeds if and only if the names are plain and both limits are kept. */
  lemma PathRoundTrip(t: Table, directory: int, current: int)
    requires Ordered(t) && DistinctSiblings(t) && Rooted(t, directory) && 0 <= current < |t|
    ensures ChangedDirectory(t, current, CurrentPath(t, directory)) == (0, directory) <==> PrintsBack(t, directory)
  {
    if PrintsBack(t, directory) {
      WithinLimits(t, directory, current);
    } else if ChangedDirectory(t, current, CurrentPath(t, directory)) == (0, directory) {
      LimitsKept(t, directory, current);
    }
  }

  // ---- Beyond each limit

  /** The table after making `n` directories of one name, each in the one before. */
  function Nested(n: nat, name: string, now: nat): Table {
    if n == 0 then [Node("/", Directory, 0, -1, 0x1ED, now, now, None)]
    else Created(Nested(n - 1, name, now), name, Directory, n - 1, now).0
  }

  /** Entry `i` is a directory of that name in the one before. */
  predicate Links(t: Table, name: string, i: nat)
    requires i < |t|
  {
    i > 0 ==> t[i].kind == Directory && t[i].name == name && t[i].parent == i - 1
  }

  ghost predicate Straight(t: Table, name: string) {
    forall i: nat | i < |t| :: Links(t, name, i)
  }

  lemma {:induction false} NestedIsStraight(n: nat, name: string, now: nat)
    requires n < MAX_FILES && |name| < MAX_FILENAME
    ensures var t := Nested(n, name, now); |t| == n + 1 && Ordered(t) && DistinctSiblings(t) && Straight(t, name)
  {
    if n > 0 {
      var t := Nested(n - 1, name, now);
      NestedIsStraight(n - 1, name, now);
      assert Nested(n, name, now) == Created(t, name, Directory, |t| - 1, now).0;
      OneDeeper(t, name, now);
    }
  }

  lemma OneDeeper(t: Table, name: string, now: nat)
    requires Ordered(t) && DistinctSiblings(t) && Straight(t, name) && |t| < MAX_FILES && |name| < MAX_FILENAME
    ensures var t' := Created(t, name, Directory, |t| - 1, now).0;
            |t'| == |t| + 1 && Ordered(t') && DistinctSiblings(t') && Straight(t', name)
  {
    CreateKeepsInvariants(t, name, Directory, |t| - 1, now);
    assert forall i: nat | i < |t| :: t[i].parent < |t| - 1;
    var t' := Created(t, name, Directory, |t| - 1, now).0;
    forall i: nat | i < |t'| ensures Links(t', name, i) {
      if i < |t| { assert Links(t, name, i); }
    }
  }

  lemma {:induction false} StraightChain(t: Table, name: string, i: nat)
    requires Straight(t, name) && i < |t|
    ensures Rooted(t, i) && |Chain(t, i)| == i && (i > 0 ==> i in Chain(t, i))
    ensures |Join(Names(t, Chain(t, i)))| == i * (1 + |name|)
  {
    if i > 0 {
      StraightChain(t, name, i - 1);
      assert Links(t, name, i);
      var chain := Chain(t, i - 1);
      assert Chain(t, i) == chain + [i];
      assert Names(t, chain + [i]) == Names(t, chain) + [name];
      JoinAppend(Names(t, chain), name);
      Times(i, 1 + |name|);
    }
  }

  lemma Times(i: nat, n: nat)
    requires i > 0
    ensures i * n == (i - 1) * n + n
  {
  }

  /** For nested directories of one short name the round trip succeeds exactly if that name is plain and the limits
  hold. */
  lemma NestedRoundTrip(n: nat, name: string, now: nat)
    requires 0 < n < MAX_FILES && |name| < MAX_FILENAME
    ensures var t := Nested(n, name, now);
            && |t| == n + 1 && Rooted(t, n)
            && (ChangedDirectory(t, 0, CurrentPath(t, n)) == (0, n) <==>
                PlainName(name) && n <= 64 && n * (1 + |name|) <= 256)
  {
    var t := Nested(n, name, now);
    NestedIsStraight(n, name, now);
    StraightChain(t, name, n);
    PathRoundTrip(t, n, 0);
    var chain := Chain(t, n);
    assert chain[0..] == chain;
    forall k | k in chain ensures t[k].name == name { assert Links(t, name, k); }
  }

  /** Sixteen levels of names of 31 characters print to more than the static buffer holds with its terminator. */
  lemma PathOverrunsBuffer(now: nat)
    ensures var t := Nested(16, seq(31, _ => 'd'), now);
            |t| == 17 && Rooted(t, 16) && |CurrentPath(t, 16)| == PATH_BUFFER
  {
    var t := Nested(16, seq(31, _ => 'd'), now);
    NestedIsStraight(16, seq(31, _ => 'd'), now);
    StraightChain(t, seq(31, _ => 'd'), 16);
    PrintedNames(t, 16);
    assert Names(t, Chain(t, 16))[0..] == Names(t, Chain(t, 16));
  }

  /** An input beyond each limit: 65 levels, 288 characters, and a name with a slash, which the shell accepts. */
  lemma PathTooDeep(now: nat)
    ensures var t := Nested(65, "d", now);
            |t| == 66 && Rooted(t, 65) && ChangedDirectory(t, 0, CurrentPath(t, 65)) != (0, 65)
  {
    NestedRoundTrip(65, "d", now);
  }

  lemma PathTooLong(now: nat)
    ensures var t := Nested(9, seq(31, _ => 'd'), now);
            |t| == 10 && Rooted(t, 9) && ChangedDirectory(t, 0, CurrentPath(t, 9)) != (0, 9)
  {
    NestedRoundTrip(9, seq(31, _ => 'd'), now);
  }

  lemma PathWithSlash(now: nat)
    ensures var t := Nested(1, "a/b", now);
            |t| == 2 && Rooted(t, 1) && ChangedDirectory(t, 0, CurrentPath(t, 1)) != (0, 1)
  {
    assert "a/b"[1] == SLASH;
    NestedRoundTrip(1, "a/b", now);
  }
}

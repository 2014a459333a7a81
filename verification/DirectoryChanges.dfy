/** Where `change_directory` leads (fs/filesystem.c:387-435): what its branches have to do with one another, with the
printed path and with the entries of the table. */
module DirectoryChanges {
  import opened FileTable
  import opened Paths
  import opened PathRoundTrips

  /** A path that names an entry of the current directory. */
  predicate Relative(path: string) {
    path != "." && path != ".." && (path == "" || path[0] != '/')
  }

  /** The three special paths; every other path either changes the directory or fails and leaves it alone. */
  lemma SpecialPaths(t: Table, current: int, path: string)
    requires Ordered(t) && 0 <= current < |t|
    ensures ChangedDirectory(t, current, ".") == (0, current)
    ensures ChangedDirectory(t, current, "/") == ChangedDirectory(t, 0, "..") == (0, 0)
    ensures ChangedDirectory(t, current, path).0 in {0, -1, -2}
    ensures ChangedDirectory(t, current, path).0 != 0 ==> ChangedDirectory(t, current, path).1 == current
  {
  }

  /** A relative path leads to the first entry of that name in the current directory, with -1 exactly if there is none
  and -2 exactly if the first one is no directory. */
  lemma RelativePath(t: Table, current: int, path: string)
    requires 0 <= current < |t| && Relative(path)
    ensures ChangedDirectory(t, current, path).0 == -1 <==>
              forall i :: 0 <= i < |t| ==> !(t[i].parent == current && t[i].name == path)
    ensures forall i | 0 <= i < |t| && t[i].parent == current && t[i].name == path &&
                       forall j :: 0 <= j < i ==> !(t[j].parent == current && t[j].name == path) ::
              ChangedDirectory(t, current, path) == if t[i].kind == Directory then (0, i) else (-2, current)
  {
    var d := Find(t, path, current);
    assert d != -1 ==> t[d].parent == current && t[d].name == path;
  }

  /** Entering a directory by its name and going up comes back to where one was. */
  lemma EnterAndLeave(t: Table, current: int, path: string)
    requires Ordered(t) && 0 <= current < |t| && Relative(path) && ChangedDirectory(t, current, path).0 == 0
    ensures var inside := ChangedDirectory(t, current, path).1;
            && 0 < inside < |t| && inside != current && t[inside].name == path
            && ChangedDirectory(t, inside, "..") == (0, current)
  {
    assert t[0].parent == -1;
  }

  /** Going up drops the last name: of the names on the chain, and of the printed path while that shows all of them. */
  lemma UpDropsLastName(t: Table, directory: int)
    requires Ordered(t) && Rooted(t, directory) && directory != 0
    ensures var up := ChangedDirectory(t, directory, "..").1;
            && 0 <= up < directory < |t| && Rooted(t, up)
            && Names(t, Chain(t, directory)) == Names(t, Chain(t, up)) + [t[directory].name]
            && (|Chain(t, directory)| <= 64 ==>
                CurrentPath(t, directory) == (if up == 0 then "" else CurrentPath(t, up)) + "/" + t[directory].name)
  {
    var up := t[directory].parent;
    var chain := Chain(t, up);
    assert Chain(t, directory) == chain + [directory];
    assert Names(t, chain + [directory]) == Names(t, chain) + [t[directory].name];
    assert chain[0..] == chain && (chain + [directory])[0..] == chain + [directory];
    JoinAppend(Names(t, chain), t[directory].name);
    assert up == 0 ==> Join(Names(t, chain)) == "";
  }

  lemma PrintedInFull(t: Table, current: int, name: string)
    requires Rooted(t, current) && 0 <= current < |t| && PrintsBack(t, current)
    ensures var names := Names(t, Chain(t, current));
            && (forall i :: 0 <= i < |names| ==> PlainName(names[i]))
            && (if current == 0 then "" else CurrentPath(t, current)) + "/" + name == Join(names + [name])
  {
    var chain := Chain(t, current);
    assert chain[0..] == chain;
    JoinAppend(Names(t, chain), name);
    assert current == 0 ==> Join(Names(t, chain)) == "";
  }

  /** A plain name leads where the printed path of the current directory, a slash and that name lead from anywhere. */
  lemma RelativeIsAbsolute(t: Table, current: int, name: string, elsewhere: int)
    requires Ordered(t) && DistinctSiblings(t) && Rooted(t, current) && 0 <= current < |t| && 0 <= elsewhere < |t|
    requires PrintsBack(t, current) && PlainName(name) && name != "." && name != ".."
    requires var full := (if current == 0 then "" else CurrentPath(t, current)) + "/" + name; |full| <= 256
    ensures var full := (if current == 0 then "" else CurrentPath(t, current)) + "/" + name;
            var near, far := ChangedDirectory(t, current, name), ChangedDirectory(t, elsewhere, full);
            if near.0 == 0 then far == near else far == (-1, elsewhere)
  {
    var all := Names(t, Chain(t, current)) + [name];
    PrintedInFull(t, current, name);
    JoinedPath(t, elsewhere, all);
    ChainResolves(t, current);
    ResolveAppend(t, 0, Names(t, Chain(t, current)), name);
    assert name[0] in name;
  }

  /** An absolute path leads to the one directory whose names, from the root down, are the pieces of the path between
  its slashes, of which the first 255 characters behind the first slash are read; it fails exactly if there is none. */
  lemma AbsolutePath(t: Table, current: int, path: string, d: int)
    requires Ordered(t) && DistinctSiblings(t) && 0 <= current < |t| && path != "" && path[0] == '/'
    ensures var names := Tokens(path[1..if |path| <= 256 then |path| else 256]);
            ChangedDirectory(t, current, path) == (0, d) <==> Rooted(t, d) && Names(t, Chain(t, d)) == names
    ensures ChangedDirectory(t, current, path).0 in {0, -1}
  {
    var names := Tokens(PathCopy(path));
    assert PathCopy(path) == path[1..if |path| <= 256 then |path| else 256];
    if path == "/" { assert names == []; }
    assert path != "." && path != "..";
    if Resolve(t, 0, names).Some? { ResolvedChain(t, names); }
    if Rooted(t, d) && Names(t, Chain(t, d)) == names { ChainResolves(t, d); }
  }

  /** A directory that has been made is entered by its name, and a file that has been made is not. */
  lemma MadeIsEntered(t: Table, current: nat, name: string, kind: Kind, now: nat)
    requires Ordered(t) && current < |t| && Relative(name) && |name| <= 31
    requires Created(t, name, kind, current, now).1 >= 0
    ensures var t' := Created(t, name, kind, current, now).0;
            ChangedDirectory(t', current, name) == if kind == Directory then (0, |t|) else (-2, current)
  {
    var t' := Created(t, name, kind, current, now).0;
    assert t'[..|t|] == t;
    RelativePath(t', current, name);
    assert t'[|t|].name == name && t'[|t|].parent == current;
  }
}

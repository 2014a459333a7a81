/** The table of files and directories as a value (fs/filesystem.c): entries refer to their parents by index. */
module FileTable {
  import opened Options
  import opened Paths

  const MAX_FILES: nat := 256
  const MAX_FILENAME: nat := 32
  const MAX_FILE_SIZE: nat := 4096
  const PATH_BUFFER: nat := 512
  const SIZE_LIMIT: nat := 0x1_0000_0000  // values of the 32-bit `size_t`

  datatype Kind = Regular | Directory

  /** `content` is the buffer that writing allocates, of which the first `size` characters count. */
  datatype Node = Node(name: string, kind: Kind, size: nat, parent: int, permissions: int, created: nat, modified: nat,
                       content: Option<string>)

  type Table = seq<Node>

  /** Index of the first entry from `i` on with this name and parent, -1 if there is none. */
  function FindFrom(t: Table, name: string, parent: int, i: nat): (r: int)
    requires i <= |t|
    ensures r == -1 || (i <= r < |t| && t[r].parent == parent && t[r].name == name)
    ensures forall k :: i <= k < (if r == -1 then |t| else r) ==> !(t[k].parent == parent && t[k].name == name)
    decreases |t| - i
  {
    if i == |t| then -1
    else if t[i].parent == parent && t[i].name == name then i
    else FindFrom(t, name, parent, i + 1)
  }

  function Find(t: Table, name: string, parent: int): int { FindFrom(t, name, parent, 0) }

  /** What a name field of 32 bytes keeps of a longer name. */
  function Truncated(name: string): string {
    if |name| < MAX_FILENAME then name else name[..MAX_FILENAME - 1]
  }

  /** The entry that `create_file` and `create_directory` append, and their result. */
  function NewNode(name: string, kind: Kind, parent: int, now: nat): Node {
    Node(Truncated(name), kind, 0, parent, if kind == Regular then 0x1A4 else 0x1ED, now, now, None)
  }

  function Created(t: Table, name: string, kind: Kind, parent: int, now: nat): (Table, int) {
    if |t| >= MAX_FILES then (t, -1)
    else if Find(t, name, parent) != -1 then (t, -2)
    else (t + [NewNode(name, kind, parent, now)], |t|)
  }

  /** An index after entry `k` has been removed; entries that referred to it refer to nothing. */
  function Shift(i: int, k: int): int {
    if i == k then -1 else if i > k then i - 1 else i
  }

  function Deleted(t: Table, k: nat): (r: Table)
    requires k < |t|
    ensures |r| == |t| - 1
    ensures forall i :: 0 <= i < |r| ==> r[i] == Renumbered(t[Unshift(i, k)], k)
  {
    seq(|t| - 1, i requires 0 <= i < |t| - 1 => Renumbered(t[Unshift(i, k)], k))
  }

  function Renumbered(n: Node, k: int): Node { n.(parent := Shift(n.parent, k)) }

  function Unshift(i: int, k: int): int { if i < k then i else i + 1 }

  function CurrentAfterDelete(current: int, k: int): int {
    if current == k then 0 else Shift(current, k)
  }

  /** The root comes first, and every other entry after its parent; orphans have the parent -1. */
  ghost predicate Ordered(t: Table) {
    && 0 < |t| <= MAX_FILES && t[0].parent == -1 && t[0].kind == Directory
    && forall i :: 0 <= i < |t| ==> -1 <= t[i].parent < i
  }

  /** Names are unique in every directory. */
  ghost predicate DistinctSiblings(t: Table) {
    forall i, j | 0 <= i < |t| && 0 <= j < |t| && t[i].parent == t[j].parent && t[i].name == t[j].name ::
      t[i].parent >= 0 ==> i == j
  }

  // ---- Stable identities

  /** An entry as seen through identities that deletion does not renumber. */
  datatype Entry = Entry(node: Node, owner: Option<nat>)

  ghost predicate Identities(t: Table, ids: seq<nat>) {
    |ids| == |t| && forall i, j :: 0 <= i < j < |ids| ==> ids[i] != ids[j]
  }

  /** Identity of the entry an index refers to. */
  ghost function Who(ids: seq<nat>, i: int): Option<nat> {
    if 0 <= i < |ids| then Some(ids[i]) else None
  }

  /** The table as a map from identities to entries; the parent index is replaced by the parent's identity. */
  ghost function View(t: Table, ids: seq<nat>): map<nat, Entry>
    requires Identities(t, ids)
  {
    map i | 0 <= i < |t| :: ids[i] := Entry(t[i].(parent := 0), Who(ids, t[i].parent))
  }

  function Without(ids: seq<nat>, k: nat): (r: seq<nat>)
    requires k < |ids|
    ensures |r| == |ids| - 1 && forall i :: 0 <= i < |r| ==> r[i] == ids[Unshift(i, k)]
  {
    ids[..k] + ids[k + 1..]
  }

  lemma WhoAfterDelete(ids: seq<nat>, k: nat, i: int)
    requires k < |ids| && -1 <= i < |ids|
    ensures Who(Without(ids, k), Shift(i, k)) == if i == k then None else Who(ids, i)
  {
  }

  /** A view without `gone`, whose children become orphans. */
  ghost function Orphaning(v: map<nat, Entry>, gone: nat): map<nat, Entry> {
    map id | id in v && id != gone :: if v[id].owner == Some(gone) then v[id].(owner := None) else v[id]
  }

  lemma ViewAt(t: Table, ids: seq<nat>, i: nat)
    requires Identities(t, ids) && i < |t|
    ensures ids[i] in View(t, ids) && View(t, ids)[ids[i]] == Entry(t[i].(parent := 0), Who(ids, t[i].parent))
  {
  }

  lemma OneFewer(t: Table, ids: seq<nat>, k: nat)
    requires Identities(t, ids) && k < |t|
    ensures Identities(Deleted(t, k), Without(ids, k)) && ids[k] !in Without(ids, k)
    ensures forall id :: id in Without(ids, k) <==> id in ids && id != ids[k]
  {
    var ids' := Without(ids, k);
    forall id | id in ids && id != ids[k] ensures id in ids' {
      var j :| 0 <= j < |ids| && ids[j] == id;
      assert ids'[if j < k then j else j - 1] == id;
    }
  }

  lemma EntryAfterDelete(t: Table, ids: seq<nat>, k: nat, i: nat)
    requires Ordered(t) && Identities(t, ids) && k < |t| && i < |t| - 1
    ensures var e := Entry(t[Unshift(i, k)].(parent := 0), Who(ids, t[Unshift(i, k)].parent));
            Entry(Deleted(t, k)[i].(parent := 0), Who(Without(ids, k), Deleted(t, k)[i].parent))
            == if e.owner == Some(ids[k]) then e.(owner := None) else e
  {
    WhoAfterDelete(ids, k, t[Unshift(i, k)].parent);
  }

  /** Deleting an entry removes its identity and orphans its children; every other entry keeps its name, its contents,
  its attributes and the identity of its parent. */
  lemma DeleteSeenByIdentity(t: Table, ids: seq<nat>, k: nat)
    requires Ordered(t) && Identities(t, ids) && k < |t|
    ensures Identities(Deleted(t, k), Without(ids, k))
    ensures View(Deleted(t, k), Without(ids, k)) == Orphaning(View(t, ids), ids[k])
  {
    var t', ids' := Deleted(t, k), Without(ids, k);
    OneFewer(t, ids, k);
    ViewKeys(t, ids);
    ViewKeys(t', ids');
    forall id | id in ids' ensures View(t', ids')[id] == Orphaning(View(t, ids), ids[k])[id] {
      var i :| 0 <= i < |ids'| && ids'[i] == id;
      SameEntryAfterDelete(t, ids, k, i);
    }
  }

  lemma SameEntryAfterDelete(t: Table, ids: seq<nat>, k: nat, i: nat)
    requires Ordered(t) && Identities(t, ids) && k < |t| && i < |t| - 1 && Identities(Deleted(t, k), Without(ids, k))
    ensures var id := Without(ids, k)[i];
            && id in View(Deleted(t, k), Without(ids, k)) && id in Orphaning(View(t, ids), ids[k])
            && View(Deleted(t, k), Without(ids, k))[id] == Orphaning(View(t, ids), ids[k])[id]
  {
    ViewAt(Deleted(t, k), Without(ids, k), i);
    ViewAt(t, ids, Unshift(i, k));
    EntryAfterDelete(t, ids, k, i);
  }

  lemma ViewKeys(t: Table, ids: seq<nat>)
    requires Identities(t, ids)
    ensures forall id :: id in View(t, ids) <==> id in ids
  {
    forall id | id in ids ensures id in View(t, ids) {
      var i :| 0 <= i < |ids| && ids[i] == id;
      ViewAt(t, ids, i);
    }
  }

  /** The current directory keeps its identity, unless it is the entry deleted; then the root becomes current. */
  lemma CurrentSeenByIdentity(ids: seq<nat>, k: nat, current: int)
    requires 0 < k < |ids| && 0 <= current < |ids|
    ensures Who(Without(ids, k), CurrentAfterDelete(current, k)) ==
            if current == k then Some(ids[0]) else Some(ids[current])
  {
  }

  // ---- Lookups and uniqueness

  lemma FindUnique(t: Table, i: nat)
    requires DistinctSiblings(t) && i < |t| && t[i].parent >= 0
    ensures Find(t, t[i].name, t[i].parent) == i
  {
  }

  lemma ShiftInjective(a: int, p: int, k: nat)
    requires -1 <= a && 0 <= p && p != k
    ensures Shift(a, k) == Shift(p, k) <==> a == p
  {
  }

  /** A lookup in a directory that stays finds the same entry, unless that is the one deleted. */
  lemma DeleteKeepsLookups(t: Table, k: nat, name: string, p: nat)
    requires Ordered(t) && DistinctSiblings(t) && k < |t| && p < |t| && p != k
    ensures var r := Find(t, name, p);
            Find(Deleted(t, k), name, Shift(p, k)) == if r == -1 || r == k then -1 else Shift(r, k)
  {
    var t', r, r' := Deleted(t, k), Find(t, name, p), Find(Deleted(t, k), name, Shift(p, k));
    forall i | 0 <= i < |t'|
      ensures t'[i].parent == Shift(p, k) && t'[i].name == name <==>
              t[Unshift(i, k)].parent == p && t[Unshift(i, k)].name == name
    {
      ShiftInjective(t[Unshift(i, k)].parent, p, k);
    }
    if r != -1 && r != k { assert Unshift(Shift(r, k), k) == r; }
    if r' != -1 { assert t[Unshift(r', k)].parent == p; }
  }

  lemma DeleteKeepsInvariants(t: Table, k: nat)
    requires Ordered(t) && DistinctSiblings(t) && 0 < k < |t|
    ensures Ordered(Deleted(t, k)) && DistinctSiblings(Deleted(t, k))
  {
    var t' := Deleted(t, k);
    forall i, j | 0 <= i < |t'| && 0 <= j < |t'| && t'[i].parent == t'[j].parent && t'[i].name == t'[j].name &&
                  t'[i].parent >= 0
      ensures i == j
    {
      assert t[Unshift(i, k)].parent == t[Unshift(j, k)].parent;
    }
  }

  /** What creating does, in its own terms: it fails for a full table, then for a name that the directory has; otherwise
  the entry comes last, with at most 31 characters of the name, empty, and with the modes 0644 and 0755. */
  lemma CreatedIs(t: Table, name: string, kind: Kind, parent: int, now: nat)
    ensures var (t', r) := Created(t, name, kind, parent, now);
            && (r == -1 <==> |t| >= 256)
            && (r == -2 <==> |t| < 256 && exists i :: 0 <= i < |t| && t[i].parent == parent && t[i].name == name)
            && (r < 0 ==> t' == t)
            && (r >= 0 ==>
                  && r == |t| == |t'| - 1 && t'[..|t|] == t
                  && t'[r].name == (if |name| <= 31 then name else name[..31])
                  && t'[r].kind == kind && t'[r].parent == parent && t'[r].size == 0 && t'[r].content.None?
                  && t'[r].created == t'[r].modified == now
                  && t'[r].permissions == if kind == Regular then 6 * 64 + 4 * 8 + 4 else 7 * 64 + 5 * 8 + 5)
  {
    var r := Find(t, name, parent);
    if r != -1 { assert t[r].parent == parent && t[r].name == name; }
  }

  /** Creating an entry keeps sibling names unique exactly when its stored name, not only the name given, is new. */
  lemma CreateKeepsInvariants(t: Table, name: string, kind: Kind, parent: nat, now: nat)
    requires Ordered(t) && DistinctSiblings(t) && parent < |t|
    ensures Ordered(Created(t, name, kind, parent, now).0)
    ensures Created(t, name, kind, parent, now).1 >= 0 ==>
              (DistinctSiblings(Created(t, name, kind, parent, now).0) <==> Find(t, Truncated(name), parent) == -1)
    ensures |name| < MAX_FILENAME ==> DistinctSiblings(Created(t, name, kind, parent, now).0)
  {
    var t' := Created(t, name, kind, parent, now).0;
    if Created(t, name, kind, parent, now).1 >= 0 {
      var n, r := |t|, Find(t, Truncated(name), parent);
      assert t'[n].name == Truncated(name) && t'[n].parent == parent;
      if r != -1 { assert t'[r] == t[r] && !DistinctSiblings(t'); }
    }
  }

  /** Two long names that agree in 31 characters are both accepted and stored as one name. */
  lemma LongNamesCollide(now: nat)
    ensures var t := [Node("/", Directory, 0, -1, 0x1ED, now, now, None)];
            var long := seq(31, _ => 'a');
            var t1 := Created(t, long + "b", Regular, 0, now).0;
            DistinctSiblings(t1) && Created(t1, long + "c", Regular, 0, now).1 == 2 &&
            !DistinctSiblings(Created(t1, long + "c", Regular, 0, now).0)
  {
    var t := [Node("/", Directory, 0, -1, 0x1ED, now, now, None)];
    var long := seq(31, _ => 'a');
    var b, c := long + "b", long + "c";
    var t1 := Created(t, b, Regular, 0, now).0;
    assert b[..31] == long && c[..31] == long && long != c by { assert |long| == 31 && |c| == 32; }
    CreateKeepsInvariants(t, b, Regular, 0, now);
    assert t1 == t + [NewNode(b, Regular, 0, now)];
    assert Find(t1, c, 0) == -1;
    var t2 := Created(t1, c, Regular, 0, now).0;
    assert t2[1].name == t2[2].name == long;
  }

  // ---- Parent chains and paths

  /** A chain of directories leads from the root to `i`. */
  predicate Rooted(t: Table, i: int)
    decreases if i < 0 then 0 else i
  {
    i == 0 || (0 < i < |t| && t[i].kind == Directory && t[i].parent < i && Rooted(t, t[i].parent))
  }

  /** Indices on the chain, below the root. */
  function Chain(t: Table, i: int): (r: seq<int>)
    requires Rooted(t, i)
    ensures forall k :: 0 <= k < |r| ==> 0 < r[k] < |t|
    decreases i
  {
    if i == 0 then [] else Chain(t, t[i].parent) + [i]
  }

  function Names(t: Table, indices: seq<int>): (r: seq<string>)
    requires forall k :: 0 <= k < |indices| ==> 0 <= indices[k] < |t|
    ensures |r| == |indices| && forall k :: 0 <= k < |r| ==> r[k] == t[indices[k]].name
  {
    seq(|indices|, k requires 0 <= k < |indices| => t[indices[k]].name)
  }

  /** The last 64 names of the chain. */
  function LastNames(t: Table, current: int): seq<string>
    requires Rooted(t, current)
  {
    var chain := Chain(t, current);
    Names(t, chain[if |chain| <= 64 then 0 else |chain| - 64..])
  }

  /** `get_current_path` */
  function CurrentPath(t: Table, current: int): string
    requires Rooted(t, current)
  {
    if current == 0 then "/" else Join(LastNames(t, current))
  }

  /** Stored names have at most 31 characters, so paths of up to 15 names fit the static buffer they are printed
  into. */
  lemma PathFits(t: Table, current: int)
    requires Rooted(t, current) && forall i :: 0 <= i < |t| ==> |t[i].name| < MAX_FILENAME
    ensures |CurrentPath(t, current)| <= if current == 0 then 1 else MAX_FILENAME * |Chain(t, current)|
    ensures |Chain(t, current)| <= 15 ==> |CurrentPath(t, current)| < PATH_BUFFER
  {
    JoinBound(LastNames(t, current), MAX_FILENAME);
  }

  /** The directory that a sequence of names leads to. */
  function Resolve(t: Table, from: int, names: seq<string>): Option<int>
    decreases |names|
  {
    if names == [] then Some(from) else
    var d := Find(t, names[0], from);
    if d == -1 || t[d].kind != Directory then None else Resolve(t, d, names[1..])
  }

  /** What `change_directory` copies of an absolute path: at most 255 characters after the first slash. */
  function PathCopy(path: string): string
    requires path != ""
  {
    if |path| <= 256 then path[1..] else path[1..256]
  }

  /** Result and new current directory of `change_directory` */
  function ChangedDirectory(t: Table, current: int, path: string): (int, int)
    requires 0 <= current < |t|
  {
    if path == ".." then (0, if current != 0 then t[current].parent else 0)
    else if path == "." then (0, current)
    else if path == "/" then (0, 0)
    else if path != "" && path[0] == SLASH then
      match Resolve(t, 0, Tokens(PathCopy(path)))
      case None => (-1, current)
      case Some(d) => (0, d)
    else
      var d := Find(t, path, current);
      if d == -1 then (-1, current) else if t[d].kind != Directory then (-2, current) else (0, d)
  }

  lemma {:induction false} ResolveAppend(t: Table, from: int, names: seq<string>, name: string)
    ensures Resolve(t, from, names + [name]) ==
            match Resolve(t, from, names)
            case None => None
            case Some(d) =>
              var e := Find(t, name, d);
              if e == -1 || t[e].kind != Directory then None else Some(e)
    decreases |names|
  {
    if names == [] {
      assert (names + [name])[1..] == [];
    } else {
      assert (names + [name])[1..] == names[1..] + [name];
      var d := Find(t, names[0], from);
      if d != -1 && t[d].kind == Directory { ResolveAppend(t, d, names[1..], name); }
    }
  }

  /** The names on the chain of a directory lead back to it. */
  lemma {:induction false} ChainResolves(t: Table, i: int)
    requires Ordered(t) && DistinctSiblings(t) && Rooted(t, i)
    ensures Resolve(t, 0, Names(t, Chain(t, i))) == Some(i)
    decreases i
  {
    if i > 0 {
      var p := t[i].parent;
      ChainResolves(t, p);
      assert Names(t, Chain(t, i)) == Names(t, Chain(t, p)) + [t[i].name];
      ResolveAppend(t, 0, Names(t, Chain(t, p)), t[i].name);
      FindUnique(t, i);
    }
  }

  /** A deletion cuts the chain of every entry below the one deleted, and no other. */
  lemma {:induction false} RootedAfterDelete(t: Table, k: nat, i: int)
    requires Ordered(t) && 0 < k < |t| && Rooted(t, i) && 0 <= i < |t| && i != k
    ensures Rooted(Deleted(t, k), Shift(i, k)) <==> k !in Chain(t, i)
    decreases i
  {
    if i > 0 {
      var j := Shift(i, k);
      assert Deleted(t, k)[j] == Renumbered(t[i], k);
      if t[i].parent != k { RootedAfterDelete(t, k, t[i].parent); } else { assert k == 0 || k in Chain(t, k); }
    }
  }

  /** After a deletion the current directory is connected to the root exactly if none of its ancestors was deleted. */
  lemma DeleteKeepsCurrentRooted(t: Table, k: nat, current: int)
    requires Ordered(t) && 0 < k < |t| && Rooted(t, current) && 0 <= current < |t|
    ensures Rooted(Deleted(t, k), CurrentAfterDelete(current, k)) <==> k == current || k !in Chain(t, current)
  {
    if current != k { RootedAfterDelete(t, k, current); }
  }

  // ---- Runs

  datatype FileSystem = FileSystem(t: Table, current: int)

  datatype Op =
    | Create(name: string, kind: Kind, parent: nat)
    | Write(file: int, data: string)
    | Delete(index: nat)
    | ChangeDirectory(path: string)

  function Written(n: Node, data: string, now: nat): Node {
    var kept := if |data| > MAX_FILE_SIZE then data[..MAX_FILE_SIZE] else data;
    var buffer := if n.content.None? then seq(MAX_FILE_SIZE, _ => '\0') else n.content.value;
    n.(content := Some(if |buffer| < |kept| then kept else kept + buffer[|kept|..]), size := |kept|, modified := now)
  }

  /** What the file system asks of its callers: parents and deleted entries exist, and the root stays. */
  predicate Allowed(s: FileSystem, op: Op) {
    match op
    case Create(_, _, parent) => parent < |s.t|
    case Delete(k) => 0 < k < |s.t|
    case _ => true
  }

  /** The shell deletes only children of the current directory. */
  predicate AllowedInShell(s: FileSystem, op: Op) {
    Allowed(s, op) && (op.Delete? ==> s.t[op.index].parent == s.current)
  }

  function After(s: FileSystem, op: Op, now: nat): FileSystem
    requires Allowed(s, op) && 0 <= s.current < |s.t|
  {
    match op
    case Create(name, kind, parent) => s.(t := Created(s.t, name, kind, parent, now).0)
    case Write(i, data) =>
      if 0 <= i < |s.t| && s.t[i].kind == Regular then s.(t := s.t[i := Written(s.t[i], data, now)]) else s
    case Delete(k) => FileSystem(Deleted(s.t, k), CurrentAfterDelete(s.current, k))
    case ChangeDirectory(path) => s.(current := ChangedDirectory(s.t, s.current, path).1)
  }

  /** An entry that is created is new under the name that is stored, not only under the name given. */
  predicate NewName(s: FileSystem, op: Op) {
    op.Create? && |s.t| < MAX_FILES && Find(s.t, op.name, op.parent) == -1 ==>
      Find(s.t, Truncated(op.name), op.parent) == -1
  }

  lemma {:induction false} RootedIsIndex(t: Table, i: int)
    requires Rooted(t, i) && |t| > 0
    ensures 0 <= i < |t|
  {
  }

  lemma StepKeepsOrdered(s: FileSystem, op: Op, now: nat)
    requires Ordered(s.t) && 0 <= s.current < |s.t| && Allowed(s, op)
    ensures Ordered(After(s, op, now).t)
  {
  }

  /** Sibling names stay unique exactly if no entry is created under a stored name that is taken. */
  lemma StepKeepsDistinct(s: FileSystem, op: Op, now: nat)
    requires Ordered(s.t) && DistinctSiblings(s.t) && 0 <= s.current < |s.t| && Allowed(s, op)
    ensures DistinctSiblings(After(s, op, now).t) <==> NewName(s, op)
  {
    match op
    case Create(name, kind, parent) => CreateKeepsInvariants(s.t, name, kind, parent, now);
    case Write(i, data) =>
    case Delete(k) => DeleteKeepsInvariants(s.t, k);
    case ChangeDirectory(path) =>
  }

  /** Entries below `n` and their parents are untouched, so their chains are. */
  lemma {:induction false} RootedBelow(t: Table, t': Table, n: nat, i: int)
    requires i < n <= |t| && n <= |t'|
    requires forall j :: 0 <= j < n ==> t'[j].parent == t[j].parent && t'[j].kind == t[j].kind
    ensures Rooted(t', i) == Rooted(t, i)
    decreases if i < 0 then 0 else i
  {
    if i > 0 && t[i].parent < i { RootedBelow(t, t', n, t[i].parent); }
  }

  lemma {:induction false} ResolveRooted(t: Table, from: int, names: seq<string>)
    requires Ordered(t) && Rooted(t, from)
    ensures Resolve(t, from, names).Some? ==> Rooted(t, Resolve(t, from, names).value)
    decreases |names|
  {
    if names != [] {
      var d := Find(t, names[0], from);
      if d != -1 && t[d].kind == Directory { ResolveRooted(t, d, names[1..]); }
    }
  }

  lemma StepKeepsShell(s: FileSystem, op: Op, now: nat)
    requires Ordered(s.t) && Rooted(s.t, s.current) && AllowedInShell(s, op)
    ensures Rooted(After(s, op, now).t, After(s, op, now).current)
  {
    RootedIsIndex(s.t, s.current);
    var t' := After(s, op, now).t;
    match op
    case Create(name, kind, parent) => RootedBelow(s.t, t', |s.t|, s.current);
    case Write(i, data) => RootedBelow(s.t, t', |s.t|, s.current);
    case Delete(k) => RootedBelow(s.t, t', k, s.current);
    case ChangeDirectory(path) =>
      if path != "" && path[0] == SLASH && path != "/" { ResolveRooted(s.t, 0, Tokens(PathCopy(path))); }
  }

  function Run(s: FileSystem, ops: seq<Op>, now: nat): FileSystem
    requires 0 <= s.current < |s.t|
    decreases |ops|
  {
    if ops == [] || !Allowed(s, ops[0]) then s else
    var s' := After(s, ops[0], now);
    if 0 <= s'.current < |s'.t| then Run(s', ops[1..], now + 1) else s'
  }

  ghost predicate ShellRun(s: FileSystem, ops: seq<Op>, now: nat)
    requires 0 <= s.current < |s.t|
    decreases |ops|
  {
    ops != [] && Allowed(s, ops[0]) ==>
      && AllowedInShell(s, ops[0])
      && var s' := After(s, ops[0], now); 0 <= s'.current < |s'.t| ==> ShellRun(s', ops[1..], now + 1)
  }

  /** The run creates no entry under a stored name that is taken. */
  predicate NewNames(s: FileSystem, ops: seq<Op>, now: nat)
    requires 0 <= s.current < |s.t|
    decreases |ops|
  {
    ops != [] && Allowed(s, ops[0]) ==>
      && NewName(s, ops[0])
      && var s' := After(s, ops[0], now); 0 <= s'.current < |s'.t| ==> NewNames(s', ops[1..], now + 1)
  }

  /** Over every run, whatever the names: parents stay below their children; sibling names stay unique as long as stored
  names are new; and with the shell's rule for deletion the current directory keeps a chain to the root. */
  lemma {:induction false} RunKeepsInvariants(s: FileSystem, ops: seq<Op>, now: nat)
    requires Ordered(s.t) && 0 <= s.current < |s.t|
    ensures Ordered(Run(s, ops, now).t)
    ensures DistinctSiblings(s.t) && NewNames(s, ops, now) ==> DistinctSiblings(Run(s, ops, now).t)
    ensures Rooted(s.t, s.current) && ShellRun(s, ops, now) ==> Rooted(Run(s, ops, now).t, Run(s, ops, now).current)
    decreases |ops|
  {
    if ops != [] && Allowed(s, ops[0]) {
      StepKeepsOrdered(s, ops[0], now);
      if DistinctSiblings(s.t) { StepKeepsDistinct(s, ops[0], now); }
      if Rooted(s.t, s.current) && ShellRun(s, ops, now) { StepKeepsShell(s, ops[0], now); }
      var s' := After(s, ops[0], now);
      if 0 <= s'.current < |s'.t| { RunKeepsInvariants(s', ops[1..], now + 1); }
    }
  }

  /** Characters that `read_file` copies at most: one less than the buffer holds, in 32 bits. */
  function ReadLimit(room: nat): nat
    requires room < SIZE_LIMIT
  {
    (room + SIZE_LIMIT - 1) % SIZE_LIMIT
  }

  /** What it copies into a buffer of `room` characters */
  function ReadBack(n: Node, room: nat): string
    requires room < SIZE_LIMIT && (n.content.Some? ==> n.size <= |n.content.value|)
  {
    if n.content.None? then "" else n.content.value[..if n.size > ReadLimit(room) then ReadLimit(room) else n.size]
  }

  /** Reading gives back what was last written, cut to the file limit and to the reader's room; writing changes nothing
  else of the entry but its time. With its terminator the text fits the buffer exactly if that is not empty: an empty
  one is given the whole file. */
  lemma ReadAfterWrite(n: Node, data: string, now: nat, room: nat)
    requires room < 0x1_0000_0000
    ensures var w := Written(n, data, now);
            var kept := if |data| > 4096 then 4096 else |data|;
            && w.content.Some? && w.size <= |w.content.value|
            && w.modified == now && w.(content := n.content, size := n.size, modified := n.modified) == n
            && ReadBack(w, room) == data[..if 0 < room <= kept then room - 1 else kept]
            && (|ReadBack(w, room)| < room <==> room > 0)
  {
  }
}

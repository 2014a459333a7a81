/** The file table updated in place (fs/filesystem.c). */
module FileSystems {
  import opened FileTable
  import opened Options
  import opened Paths

  const NO_NODE := Node("", Regular, 0, 0, 0, 0, 0, None)

  class FileStore {
    const files: array<Node>
    var fileCount: nat
    var currentDir: int
    var clock: nat

    ghost function Now(): Table
      reads this, files
      requires fileCount <= files.Length
    {
      files[..fileCount]
    }

    ghost predicate Valid()
      reads this, files
    {
      files.Length == MAX_FILES && fileCount <= MAX_FILES
    }

    /** The table with nothing but the root, as `filesystem_create_default` begins. */
    constructor ()
      ensures Valid() && Ordered(Now()) && DistinctSiblings(Now()) && fileCount == 1 && currentDir == 0
    {
      files := new Node[MAX_FILES](_ => NO_NODE);
      fileCount, currentDir, clock := 1, 0, 1735689660;
      new;
      files[0] := Node("/", Directory, 0, -1, 0x1ED, clock, clock, None);
      assert Now() == [files[0]];
    }

    /** `get_system_time` */
    method Tick() returns (now: nat)
      modifies this`clock
      ensures now == clock == old(clock) + 60
    {
      clock := clock + 60;
      now := clock;
    }

    method FindFile(name: string, parent: int) returns (r: int)
      requires Valid()
      ensures r == Find(Now(), name, parent)
    {
      var i := 0;
      while i < fileCount
        invariant i <= fileCount && Find(Now(), name, parent) == FindFrom(Now(), name, parent, i)
      {
        if files[i].parent == parent && files[i].name == name { return i; }
        i := i + 1;
      }
      r := -1;
    }

    /** `create_file` and `create_directory`, which differ only in the kind and its permissions. */
    method CreateEntry(name: string, kind: Kind, parent: int) returns (r: int)
      requires Valid()
      modifies this`fileCount, this`clock, files
      ensures Valid()
      ensures (Now(), r) == Created(old(Now()), name, kind, parent, if r >= 0 then clock else 0)
    {
      if fileCount >= MAX_FILES { return -1; }
      var found := FindFile(name, parent);
      if found != -1 { return -2; }
      ghost var before := Now();
      var now := Tick();
      files[fileCount] := NewNode(name, kind, parent, now);
      r := fileCount;
      fileCount := fileCount + 1;
      assert Now() == before + [NewNode(name, kind, parent, now)];
    }

    /** `write_file`; `memory` says whether the allocation of a first buffer would succeed. */
    method WriteFile(index: int, data: string, memory: bool) returns (r: int)
      requires Valid()
      modifies this`clock, files
      ensures Valid()
      ensures r == (if !(0 <= index < fileCount) then -1
                    else if old(Now())[index].kind != Regular then -2
                    else if old(Now())[index].content.None? && !memory then -4 else 0)
      ensures Now() == if r == 0 then old(Now())[index := Written(old(Now())[index], data, clock)] else old(Now())
    {
      if index < 0 || index >= fileCount { return -1; }
      if files[index].kind != Regular { return -2; }
      var size := |data|;
      if size > MAX_FILE_SIZE { size := MAX_FILE_SIZE; }
      ghost var before := Now();
      if files[index].content.None? {
        if !memory { return -4; }
        files[index] := files[index].(content := Some(seq(MAX_FILE_SIZE, _ => '\0')));
      }
      var buffer := files[index].content.value;
      var now := Tick();
      var contents := if |buffer| < size then data[..size] else data[..size] + buffer[size..];
      files[index] := files[index].(content := Some(contents), size := size, modified := now);
      assert data[..|data|] == data;
      assert files[index] == Written(before[index], data, now);
      assert Now() == before[index := Written(before[index], data, now)];
      r := 0;
    }

    /** `read_file`; the second result is the text that it copies to the buffer. */
    method ReadFile(index: int, room: nat) returns (r: int, text: string)
      requires Valid() && room < SIZE_LIMIT
      requires forall i :: 0 <= i < fileCount ==>
                 files[i].content.Some? ==> files[i].size <= |files[i].content.value|
      ensures r == (if !(0 <= index < fileCount) then -1 else if files[index].kind != Regular then -2 else |text|)
      ensures r >= 0 ==> text == ReadBack(files[index], room)
    {
      text := "";
      if index < 0 || index >= fileCount { return -1, ""; }
      if files[index].kind != Regular { return -2, ""; }
      if files[index].content.None? || files[index].size == 0 { return 0, ""; }
      var n := files[index].size;
      var limit := (room + SIZE_LIMIT - 1) % SIZE_LIMIT;
      if n > limit { n := limit; }
      text := files[index].content.value[..n];
      r := |text|;
    }

    /** `delete_file`: close the gap, renumber the parents, and move the current directory along. */
    method DeleteFile(index: int) returns (r: int)
      requires Valid()
      modifies this`fileCount, this`currentDir, files
      ensures Valid()
      ensures if 0 <= index < old(fileCount)
              then r == 0 && Now() == Deleted(old(Now()), index) &&
                   currentDir == CurrentAfterDelete(old(currentDir), index)
              else r == -1 && Now() == old(Now()) && currentDir == old(currentDir)
    {
      if index < 0 || index >= fileCount { return -1; }
      CloseGap(index);
      RenumberParents(index);
      if currentDir == index {
        currentDir := 0;
      } else if currentDir > index {
        currentDir := currentDir - 1;
      }
      r := 0;
    }

    /** The first loop of `delete_file`. */
    method CloseGap(index: nat)
      requires Valid() && index < fileCount
      modifies this`fileCount, files
      ensures fileCount == old(fileCount) - 1
      ensures forall j :: 0 <= j < fileCount ==> files[j] == old(Now())[Unshift(j, index)]
    {
      ghost var before := Now();
      var i := index;
      while i < fileCount - 1
        invariant fileCount == |before| && index <= i <= fileCount - 1
        invariant forall j :: 0 <= j < i ==> files[j] == before[Unshift(j, index)]
        invariant forall j :: i < j < fileCount ==> files[j] == before[j]
      {
        files[i] := files[i + 1];
        i := i + 1;
      }
      fileCount := fileCount - 1;
    }

    /** The second loop of `delete_file`. */
    method RenumberParents(index: nat)
      requires Valid()
      modifies files
      ensures forall j :: 0 <= j < fileCount ==> files[j] == Renumbered(old(Now())[j], index)
    {
      var i := 0;
      while i < fileCount
        invariant i <= fileCount
        invariant forall j :: 0 <= j < i ==> files[j] == Renumbered(old(Now())[j], index)
        invariant forall j :: i <= j < fileCount ==> files[j] == old(Now())[j]
      {
        if files[i].parent == index {
          files[i] := files[i].(parent := -1);
        } else if files[i].parent > index {
          files[i] := files[i].(parent := files[i].parent - 1);
        }
        i := i + 1;
      }
    }

    method ChangeDir(path: string) returns (r: int)
      requires Valid() && 0 <= currentDir < fileCount
      modifies this`currentDir
      ensures (r, currentDir) == ChangedDirectory(Now(), old(currentDir), path)
    {
      if path == ".." {
        if currentDir != 0 { currentDir := files[currentDir].parent; }
        return 0;
      }
      if path == "." { return 0; }
      if path == "/" { currentDir := 0; return 0; }
      if path != "" && path[0] == SLASH {
        var copy := if |path| <= 256 then path[1..] else path[1..256];
        var d := ResolveTokens(copy);
        if d.None? { return -1; }
        currentDir := d.value;
        return 0;
      }
      var d := FindFile(path, currentDir);
      if d == -1 { return -1; }
      if files[d].kind != Directory { return -2; }
      currentDir := d;
      r := 0;
    }

    /** The token loop of `change_directory`. */
    method ResolveTokens(text: string) returns (d: Option<int>)
      requires Valid()
      ensures d == Resolve(Now(), 0, Tokens(text))
    {
      var tokenizer := new Tokenizer(text);
      var current := 0;
      var token := tokenizer.Next();
      ghost var left := Tokens(text);
      while token.Some?
        invariant tokenizer.Valid() && fresh(tokenizer)
        invariant token.Some? ==> left == [token.value] + tokenizer.Left()
        invariant token.None? ==> left == []
        invariant Resolve(Now(), 0, Tokens(text)) == Resolve(Now(), current, left)
        decreases |left|
      {
        var dir := FindFile(token.value, current);
        if dir == -1 || files[dir].kind != Directory { return None; }
        current := dir;
        left := tokenizer.Left();
        token := tokenizer.Next();
      }
      d := Some(current);
    }

    /** `get_current_path`: collect indices up to the root, at most 64, then print them backwards. Nothing keeps the
    text within the static buffer; `fits` says whether it, with its terminator, has stayed inside. */
    method GetCurrentPath() returns (path: string, ghost fits: bool)
      requires Valid() && Rooted(Now(), currentDir)
      ensures path == CurrentPath(Now(), currentDir)
      ensures fits <==> |CurrentPath(Now(), currentDir)| < PATH_BUFFER
    {
      var indices, count := CollectChain();
      ghost var last := LastNames(Now(), currentDir);
      if count == 0 { return "/", true; }
      path, fits := PrintChain(indices, count, last);
    }

    method CollectChain() returns (indices: array<int>, count: nat)
      requires Valid() && Rooted(Now(), currentDir)
      ensures fresh(indices) && indices.Length == 64
      ensures var chain := Chain(Now(), currentDir);
              && count == (if |chain| <= 64 then |chain| else 64)
              && forall k :: 0 <= k < count ==> indices[k] == chain[|chain| - 1 - k]
    {
      ghost var t := Now();
      ghost var chain := Chain(t, currentDir);
      indices := new int[64];
      count := 0;
      var current := currentDir;
      while current != 0 && count < 64
        invariant 0 <= count <= 64 && Rooted(t, current) && count <= |chain|
        invariant Chain(t, current) == chain[..|chain| - count]
        invariant forall k :: 0 <= k < count ==> indices[k] == chain[|chain| - 1 - k]
        decreases 64 - count
      {
        assert Chain(t, current) == Chain(t, t[current].parent) + [current];
        indices[count] := current;
        count := count + 1;
        current := files[current].parent;
      }
    }

    method PrintChain(indices: array<int>, count: nat, ghost names: seq<string>)
      returns (path: string, ghost fits: bool)
      requires Valid() && count <= indices.Length && |names| == count
      requires forall k :: 0 <= k < count ==>
                 0 <= indices[k] < fileCount && files[indices[k]].name == names[count - 1 - k]
      ensures path == Join(names) && (fits <==> |path| < PATH_BUFFER)
    {
      path, fits := "", true;
      var i := count - 1;
      while i >= 0
        invariant -1 <= i < count && path == Join(names[..count - 1 - i]) && (fits <==> |path| < PATH_BUFFER)
      {
        ghost var done := count - 1 - i;
        JoinAppend(names[..done], names[done]);
        assert names[..done + 1] == names[..done] + [names[done]];
        path := path + "/";
        path := path + files[indices[i]].name;
        fits := fits && |path| < PATH_BUFFER;
        i := i - 1;
      }
      assert names[..count] == names;
    }
  }
}

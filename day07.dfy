/** Day 7: no space left on device. A terminal transcript of `cd` and `ls`
    commands is read back into commands, replayed into a directory tree, and
    every directory's total size is collected by path. */
module Day07 {
  import opened Wrappers
  import opened Text
  import opened SetSums

  datatype FileInfo = DirInfo(name: string) | FileEntry(name: string, size: int)

  datatype Command = Ls(infos: seq<FileInfo>) | CdRoot | CdUp | Cd(name: string)

  datatype FileSystem = Directory(entries: map<string, FileSystem>) | File(size: int)

  // ---------------------------------------------------------------------
  // From lines to commands

  /** One listing line: `dir NAME`, or `SIZE NAME` split at the first space. */
  function ParseInfo(line: string): (r: Option<FileInfo>)
    ensures r.Some? && r.value.DirInfo? ==> line == "dir " + r.value.name
    ensures r.Some? && r.value.FileEntry? ==> I32_MIN <= r.value.size <= I32_MAX
  {
    if StartsWith(line, "dir ") then
      assert line == "dir " + line[4..];
      Some(DirInfo(line[4..]))
    else
      match SplitOnce(line, " ")
      case None => None
      case Some((size, name)) =>
        match ParseBounded(size, I32_MIN, I32_MAX)
        case None => None
        case Some(n) => Some(FileEntry(name, n))
  }

  /** A line that opens a command: `$ ls`, or anything starting `$ cd`. */
  predicate OpensCommand(line: string)
  {
    line == "$ ls" || StartsWith(line, "$ cd")
  }

  /** One step of the fold over the lines; None where the program panics
      (a `$ cd` with no name, a listing line with no `$ ls` open before it,
      a malformed listing line). A line either opens a new command after
      all the earlier ones, or adds one entry to the listing of the open
      `$ ls`. */
  function Step(list: seq<Command>, line: string): (r: Option<seq<Command>>)
    ensures OpensCommand(line) ==> (r.None? <==> line == "$ cd")
    ensures r.Some? && OpensCommand(line) ==>
      |r.value| == |list| + 1 && r.value[..|list|] == list
    ensures !OpensCommand(line) ==>
      (r.None? <==> list == [] || !list[|list| - 1].Ls? || ParseInfo(line).None?)
    ensures r.Some? && !OpensCommand(line) ==>
      && |r.value| == |list| > 0 && r.value[..|list| - 1] == list[..|list| - 1]
      && list[|list| - 1].Ls? && r.value[|list| - 1].Ls?
      && var before, after := list[|list| - 1].infos, r.value[|list| - 1].infos;
        after == before + [ParseInfo(line).value]
  {
    if line == "$ ls" then Some(list + [Ls([])])
    else if line == "$ cd /" then Some(list + [CdRoot])
    else if line == "$ cd .." then Some(list + [CdUp])
    else if StartsWith(line, "$ cd") then
      if |line| >= 5 then Some(list + [Cd(line[5..])]) else None
    else if list == [] || !list[|list| - 1].Ls? then None
    else
      match ParseInfo(line)
      case None => None
      case Some(info) =>
        var last := list[|list| - 1];
        Some(list[..|list| - 1] + [Ls(last.infos + [info])])
  }

  /** The fold of output_from_file, line by line from the first. */
  function Fold(lines: seq<string>): Option<seq<Command>>
  {
    if lines == [] then Some([])
    else
      match Fold(lines[..|lines| - 1])
      case None => None
      case Some(list) => Step(list, lines[|lines| - 1])
  }

  /** output_from_file's fold, as a loop over the lines. */
  method OutputFromLines(lines: seq<string>) returns (list: seq<Command>)
    requires Fold(lines).Some?
    ensures Some(list) == Fold(lines)
  {
    hide Step;
    list := [];
    var i := 0;
    while i < |lines|
      invariant i <= |lines|
      invariant Fold(lines[..i]) == Some(list)
    {
      assert lines[..i + 1][..i] == lines[..i];
      FoldPrefix(lines, i + 1);
      var line := lines[i];
      assert lines[..i + 1] == lines[..i] + [line];
      FoldAppend(lines[..i], list, line);
      list := Step(list, line).value;
      i := i + 1;
    }
    assert lines[..i] == lines;
  }

  /** A fold that succeeds on all the lines succeeds on every prefix. */
  lemma {:induction false} FoldPrefix(lines: seq<string>, n: nat)
    requires n <= |lines|
    requires Fold(lines).Some?
    ensures Fold(lines[..n]).Some?
    decreases |lines| - n
  {
    if n < |lines| {
      assert Fold(lines[..|lines| - 1]).Some?;
      FoldPrefix(lines[..|lines| - 1], n);
      assert lines[..|lines| - 1][..n] == lines[..n];
    } else {
      assert lines[..n] == lines;
    }
  }

  // The inverse: rendering commands back into transcript lines.

  function RenderInfo(info: FileInfo): string
  {
    match info
    case DirInfo(name) => "dir " + name
    case FileEntry(name, size) => ShowInt(size) + " " + name
  }

  function RenderInfos(infos: seq<FileInfo>): seq<string>
  {
    if infos == [] then [] else RenderInfos(infos[..|infos| - 1]) + [RenderInfo(infos[|infos| - 1])]
  }

  function RenderCommand(c: Command): seq<string>
  {
    match c
    case Ls(infos) => ["$ ls"] + RenderInfos(infos)
    case CdRoot => ["$ cd /"]
    case CdUp => ["$ cd .."]
    case Cd(name) => ["$ cd " + name]
  }

  function Render(cmds: seq<Command>): seq<string>
  {
    if cmds == [] then [] else Render(cmds[..|cmds| - 1]) + RenderCommand(cmds[|cmds| - 1])
  }

  /** Commands that can be written as a transcript and read back: a `cd`
      target is neither `/` nor `..`, and file sizes are i32. */
  predicate Renderable(cmds: seq<Command>)
  {
    forall i :: 0 <= i < |cmds| ==>
      && (cmds[i].Cd? ==> cmds[i].name != "/" && cmds[i].name != "..")
      && (cmds[i].Ls? ==> forall j :: 0 <= j < |cmds[i].infos| ==>
            cmds[i].infos[j].FileEntry? ==> I32_MIN <= cmds[i].infos[j].size <= I32_MAX)
  }

  /** A rendered listing line is read back as the same entry. */
  lemma ParseRenderInfo(info: FileInfo)
    requires info.FileEntry? ==> I32_MIN <= info.size <= I32_MAX
    ensures ParseInfo(RenderInfo(info)) == Some(info)
    ensures !StartsWith(RenderInfo(info), "$ cd")
    ensures RenderInfo(info) != "$ ls" && RenderInfo(info) != "$ cd /" && RenderInfo(info) != "$ cd .."
  {
    match info
    case DirInfo(name) => ParseRenderDir(name);
    case FileEntry(name, size) => ParseRenderFile(name, size);
  }

  lemma ParseRenderDir(name: string)
    ensures ParseInfo(RenderInfo(DirInfo(name))) == Some(DirInfo(name))
    ensures !StartsWith(RenderInfo(DirInfo(name)), "$ cd") && RenderInfo(DirInfo(name)) != "$ ls"
  {
    var line := RenderInfo(DirInfo(name));
    assert line[..4] == "dir ";
    assert line[4..] == name;
  }

  lemma ParseRenderFile(name: string, size: int)
    requires I32_MIN <= size <= I32_MAX
    ensures ParseInfo(RenderInfo(FileEntry(name, size))) == Some(FileEntry(name, size))
    ensures !StartsWith(RenderInfo(FileEntry(name, size)), "$ cd") && RenderInfo(FileEntry(name, size)) != "$ ls"
  {
    var line := RenderInfo(FileEntry(name, size));
    var digits := ShowInt(size);
    assert line[0] == digits[0];
    assert !StartsWith(line, "dir ");
    assert forall i :: 0 <= i < |digits| ==> !OccursAt(line, " ", i) by {
      forall i | 0 <= i < |digits| ensures !OccursAt(line, " ", i) {
        assert line[i..i + 1] == [digits[i]];
      }
    }
    SplitOnceJoin(digits, " ", name);
    ParseShowBounded(size, I32_MIN, I32_MAX);
  }

  /** A rendered listing line extends the open `ls` by its entry. */
  lemma StepInfo(list: seq<Command>, infos: seq<FileInfo>, info: FileInfo)
    requires info.FileEntry? ==> I32_MIN <= info.size <= I32_MAX
    ensures Step(list + [Ls(infos)], RenderInfo(info)) == Some(list + [Ls(infos + [info])])
  {
    ParseRenderInfo(info);
    var l := list + [Ls(infos)];
    assert l[..|l| - 1] == list;
  }

  /** Reading a listing's lines appends them to the open `ls`. */
  lemma {:induction false} FoldInfos(prefix: seq<string>, list: seq<Command>, infos: seq<FileInfo>)
    requires Fold(prefix) == Some(list + [Ls([])])
    requires forall j :: 0 <= j < |infos| ==> infos[j].FileEntry? ==> I32_MIN <= infos[j].size <= I32_MAX
    ensures Fold(prefix + RenderInfos(infos)) == Some(list + [Ls(infos)])
  {
    if infos == [] {
      assert prefix + RenderInfos(infos) == prefix;
    } else {
      var init := infos[..|infos| - 1];
      var info := infos[|infos| - 1];
      assert init + [info] == infos;
      FoldInfos(prefix, list, init);
      assert prefix + RenderInfos(infos) == (prefix + RenderInfos(init)) + [RenderInfo(info)];
      FoldAppend(prefix + RenderInfos(init), list + [Ls(init)], RenderInfo(info));
      StepInfo(list, init, info);
    }
  }

  /** Reading one more line applies one step to what was read so far. */
  lemma FoldAppend(prefix: seq<string>, list: seq<Command>, line: string)
    requires Fold(prefix) == Some(list)
    ensures Fold(prefix + [line]) == Step(list, line)
  {
    var lines := prefix + [line];
    assert lines[..|lines| - 1] == prefix;
  }

  /** A `cd` into a named directory is read as that command. */
  lemma StepCd(list: seq<Command>, name: string)
    requires name != "/" && name != ".."
    ensures Step(list, "$ cd " + name) == Some(list + [Cd(name)])
  {
    var line := "$ cd " + name;
    assert line[..4] == "$ cd";
    assert line[5..] == name;
    assert "$ cd /"[5..] == "/" && "$ cd .."[5..] == "..";
    assert |line| >= 5;
  }

  /** Reading a rendered `ls` and its listing appends that command. */
  lemma FoldLs(prefix: seq<string>, list: seq<Command>, infos: seq<FileInfo>)
    requires Fold(prefix) == Some(list)
    requires forall j :: 0 <= j < |infos| ==> infos[j].FileEntry? ==> I32_MIN <= infos[j].size <= I32_MAX
    ensures Fold(prefix + RenderCommand(Ls(infos))) == Some(list + [Ls(infos)])
  {
    var withLs := prefix + ["$ ls"];
    assert prefix + RenderCommand(Ls(infos)) == withLs + RenderInfos(infos);
    FoldAppend(prefix, list, "$ ls");
    FoldInfos(withLs, list, infos);
  }

  /** Reading a rendered `cd` appends that command. */
  lemma FoldCd(prefix: seq<string>, list: seq<Command>, name: string)
    requires Fold(prefix) == Some(list)
    requires name != "/" && name != ".."
    ensures Fold(prefix + RenderCommand(Cd(name))) == Some(list + [Cd(name)])
  {
    FoldAppend(prefix, list, "$ cd " + name);
    StepCd(list, name);
  }

  /** Reading one rendered command appends it. */
  lemma FoldCommand(prefix: seq<string>, list: seq<Command>, c: Command)
    requires Fold(prefix) == Some(list)
    requires Renderable([c])
    ensures Fold(prefix + RenderCommand(c)) == Some(list + [c])
  {
    assert [c][0] == c;
    match c
    case Ls(infos) => FoldLs(prefix, list, infos);
    case CdRoot => FoldAppend(prefix, list, "$ cd /");
    case CdUp => FoldAppend(prefix, list, "$ cd ..");
    case Cd(name) => FoldCd(prefix, list, name);
  }

  /** Reading back a rendered transcript gives the commands back. */
  lemma {:induction false} FoldRender(cmds: seq<Command>)
    requires Renderable(cmds)
    ensures Fold(Render(cmds)) == Some(cmds)
  {
    if cmds != [] {
      var init := cmds[..|cmds| - 1];
      var c := cmds[|cmds| - 1];
      assert init + [c] == cmds;
      assert Renderable(init) by {
        forall i | 0 <= i < |init| ensures init[i] == cmds[i] { }
      }
      assert Renderable([c]) by {
        assert [c][0] == cmds[|cmds| - 1];
      }
      FoldRender(init);
      FoldCommand(Render(init), init, c);
    }
  }

  // ---------------------------------------------------------------------
  // From commands to the directory tree

  /** The entries of the directory reached by following `path` from `fs`;
      None when a step is missing or is a file. */
  function Resolve(fs: FileSystem, path: seq<string>): Option<map<string, FileSystem>>
    decreases |path|
  {
    match fs
    case File(_) => None
    case Directory(m) =>
      if path == [] then Some(m)
      else if path[0] in m then Resolve(m[path[0]], path[1..])
      else None
  }

  /** `fs` with the directory at `path` given the entries `m'`. */
  function Replace(fs: FileSystem, path: seq<string>, m': map<string, FileSystem>): FileSystem
    requires Resolve(fs, path).Some?
    decreases |path|
  {
    var m := fs.entries;
    if path == [] then Directory(m')
    else Directory(m[path[0] := Replace(m[path[0]], path[1..], m')])
  }

  /** The names of a listing's entries. */
  predicate Named(listing: seq<(string, FileSystem)>, name: string)
  {
    exists j :: 0 <= j < |listing| && listing[j].0 == name
  }

  /** Adds the entries in order, each only when its name is still absent:
      `entry(name).and_modify(|_| ()).or_insert(new_fs)`. */
  function AddNew(m: map<string, FileSystem>, listing: seq<(string, FileSystem)>): (r: map<string, FileSystem>)
    ensures forall k :: k in r <==> k in m || Named(listing, k)
    ensures forall k :: k in m ==> r[k] == m[k]
    ensures forall k :: k in r && k !in m ==> exists j :: 0 <= j < |listing| && listing[j] == (k, r[k])
  {
    if listing == [] then m
    else
      var init := listing[..|listing| - 1];
      var (name, fs) := listing[|listing| - 1];
      var prev := AddNew(m, init);
      NamedInit(listing);
      FromInit(listing, init, m, prev);
      if name in prev then prev
      else
        assert listing[|listing| - 1] == (name, fs);
        prev[name := fs]
  }

  /** The names of a listing are those of all but its last entry, and the
      last one's. */
  lemma NamedInit(listing: seq<(string, FileSystem)>)
    requires listing != []
    ensures forall k :: Named(listing, k) <==> Named(listing[..|listing| - 1], k) || k == listing[|listing| - 1].0
  {
    var init := listing[..|listing| - 1];
    forall k | Named(init, k) ensures Named(listing, k) {
      var j :| 0 <= j < |init| && init[j].0 == k;
      assert listing[j] == init[j];
    }
    forall k | Named(listing, k) && k != listing[|listing| - 1].0 ensures Named(init, k) {
      var j :| 0 <= j < |listing| && listing[j].0 == k;
      assert j < |init| && init[j] == listing[j];
    }
  }

  /** An entry taken from all but the last of a listing is taken from the
      listing. */
  lemma FromInit(listing: seq<(string, FileSystem)>, init: seq<(string, FileSystem)>, m: map<string, FileSystem>, prev: map<string, FileSystem>)
    requires listing != [] && init == listing[..|listing| - 1]
    requires forall k :: k in prev && k !in m ==> exists j :: 0 <= j < |init| && init[j] == (k, prev[k])
    ensures forall k :: k in prev && k !in m ==> exists j :: 0 <= j < |listing| && listing[j] == (k, prev[k])
  {
    forall k | k in prev && k !in m ensures exists j :: 0 <= j < |listing| && listing[j] == (k, prev[k]) {
      var j :| 0 <= j < |init| && init[j] == (k, prev[k]);
      assert listing[j] == init[j];
    }
  }

  /** What merge_ls_into leaves behind. */
  function MergeSpec(fs: FileSystem, path: seq<string>, listing: seq<(string, FileSystem)>): FileSystem
    requires Resolve(fs, path).Some?
  {
    Replace(fs, path, AddNew(Resolve(fs, path).value, listing))
  }

  /** merge_ls_into: walks `path` through existing directories, then adds
      the listed entries that are not there yet. */
  method MergeLsInto(fs: FileSystem, path: seq<string>, listing: seq<(string, FileSystem)>) returns (fs': FileSystem)
    requires Resolve(fs, path).Some?
    ensures fs' == MergeSpec(fs, path, listing)
  {
    var cur := fs;
    var i := 0;
    while i < |path|
      invariant i <= |path|
      invariant Resolve(cur, path[i..]) == Resolve(fs, path)
    {
      assert path[i..][1..] == path[i + 1..];
      cur := cur.entries[path[i]];
      i := i + 1;
    }
    assert path[i..] == [];
    var target := cur.entries;
    var j := 0;
    while j < |listing|
      invariant j <= |listing|
      invariant target == AddNew(cur.entries, listing[..j])
    {
      assert listing[..j + 1][..j] == listing[..j];
      var (name, newFs) := listing[j];
      if name !in target {
        target := target[name := newFs];
      }
      j := j + 1;
    }
    assert listing[..j] == listing;
    fs' := Replace(fs, path, target);
  }

  /** Everything in `a` is still in `b`: no entry lost, no file changed. */
  ghost predicate Extends(a: FileSystem, b: FileSystem)
    decreases a
  {
    match a
    case File(s) => b == File(s)
    case Directory(ma) =>
      b.Directory? && forall k :: k in ma ==> k in b.entries && Extends(ma[k], b.entries[k])
  }

  lemma {:induction false} ExtendsReflexive(a: FileSystem)
    ensures Extends(a, a)
    decreases a
  {
    if a.Directory? {
      forall k | k in a.entries ensures Extends(a.entries[k], a.entries[k]) {
        ExtendsReflexive(a.entries[k]);
      }
    }
  }

  lemma {:induction false} ExtendsTransitive(a: FileSystem, b: FileSystem, c: FileSystem)
    requires Extends(a, b) && Extends(b, c)
    ensures Extends(a, c)
    decreases a
  {
    if a.Directory? {
      forall k | k in a.entries ensures k in c.entries && Extends(a.entries[k], c.entries[k]) {
        ExtendsTransitive(a.entries[k], b.entries[k], c.entries[k]);
      }
    }
  }

  /** Giving a directory more entries, keeping the old ones, extends the tree
      and puts those entries at `path`. */
  lemma {:induction false} ReplaceExtends(fs: FileSystem, path: seq<string>, m': map<string, FileSystem>)
    requires Resolve(fs, path).Some?
    requires forall k :: k in Resolve(fs, path).value ==> k in m' && m'[k] == Resolve(fs, path).value[k]
    ensures Extends(fs, Replace(fs, path, m'))
    ensures Resolve(Replace(fs, path, m'), path) == Some(m')
    decreases |path|
  {
    var m := fs.entries;
    if path == [] {
      forall k | k in m ensures Extends(m[k], m'[k]) {
        ExtendsReflexive(m[k]);
      }
    } else {
      ReplaceExtends(m[path[0]], path[1..], m');
      forall k | k in m ensures Extends(m[k], Replace(fs, path, m').entries[k]) {
        if k != path[0] {
          ExtendsReflexive(m[k]);
        }
      }
    }
  }

  /** merge_ls_into never replaces an entry: the tree only grows, and the
      directory at `path` holds its old entries unchanged plus the listing names. */
  lemma MergeNeverReplaces(fs: FileSystem, path: seq<string>, listing: seq<(string, FileSystem)>)
    requires Resolve(fs, path).Some?
    ensures Extends(fs, MergeSpec(fs, path, listing))
    ensures Resolve(MergeSpec(fs, path, listing), path).Some?
    ensures var m := Resolve(fs, path).value;
      var m' := Resolve(MergeSpec(fs, path, listing), path).value;
      && (forall k :: k in m ==> k in m' && m'[k] == m[k])
      && (forall k :: k in m' <==> k in m || Named(listing, k))
  {
    ReplaceExtends(fs, path, AddNew(Resolve(fs, path).value, listing));
  }

  /** A listing's entries as fresh subtrees: empty directories and files. */
  function Contents(infos: seq<FileInfo>): (r: seq<(string, FileSystem)>)
    ensures |r| == |infos|
    ensures forall i :: 0 <= i < |infos| ==> r[i].0 == infos[i].name
    ensures forall i :: 0 <= i < |infos| ==>
      r[i].1 == (if infos[i].DirInfo? then Directory(map[]) else File(infos[i].size))
  {
    seq(|infos|, i requires 0 <= i < |infos| =>
      match infos[i]
      case DirInfo(name) => (name, Directory(map[]))
      case FileEntry(name, size) => (name, File(size)))
  }

  /** One command applied to the tree and the current path; None where the
      program panics (a listing for a directory that does not exist). */
  function Apply(fs: FileSystem, path: seq<string>, c: Command): Option<(FileSystem, seq<string>)>
  {
    match c
    case CdRoot => Some((fs, []))
    case CdUp => Some((fs, if path == [] then [] else path[..|path| - 1]))
    case Cd(name) => Some((fs, path + [name]))
    case Ls(infos) =>
      if Resolve(fs, path).Some? then Some((MergeSpec(fs, path, Contents(infos)), path)) else None
  }

  /** The commands replayed from an empty root at the empty path. */
  function Replay(cmds: seq<Command>): Option<(FileSystem, seq<string>)>
  {
    if cmds == [] then Some((Directory(map[]), []))
    else
      match Replay(cmds[..|cmds| - 1])
      case None => None
      case Some((fs, path)) => Apply(fs, path, cmds[|cmds| - 1])
  }

  lemma {:induction false} ReplayPrefix(cmds: seq<Command>, n: nat)
    requires n <= |cmds|
    requires Replay(cmds).Some?
    ensures Replay(cmds[..n]).Some?
    decreases |cmds| - n
  {
    if n < |cmds| {
      assert Replay(cmds[..|cmds| - 1]).Some?;
      ReplayPrefix(cmds[..|cmds| - 1], n);
      assert cmds[..|cmds| - 1][..n] == cmds[..n];
    } else {
      assert cmds[..n] == cmds;
    }
  }

  /** filesystem_from_output: replays the commands, tracking the path. */
  method FilesystemFromOutput(cmds: seq<Command>) returns (fs: FileSystem)
    requires Replay(cmds).Some?
    ensures fs == Replay(cmds).value.0
  {
    var path: seq<string> := [];
    fs := Directory(map[]);
    var i := 0;
    while i < |cmds|
      invariant i <= |cmds|
      invariant Replay(cmds[..i]) == Some((fs, path))
    {
      assert cmds[..i + 1][..i] == cmds[..i];
      ReplayPrefix(cmds, i + 1);
      match cmds[i] {
        case CdRoot => path := [];
        case CdUp => if path != [] { path := path[..|path| - 1]; }
        case Cd(name) => path := path + [name];
        case Ls(infos) =>
          var contents := Contents(infos);
          fs := MergeLsInto(fs, path, contents);
      }
      i := i + 1;
    }
    assert cmds[..i] == cmds;
  }

  /** The root stays a directory. */
  lemma {:induction false} ReplayRootIsDirectory(cmds: seq<Command>)
    requires Replay(cmds).Some?
    ensures Replay(cmds).value.0.Directory?
  {
    if cmds != [] {
      assert Replay(cmds[..|cmds| - 1]).Some?;
      ReplayRootIsDirectory(cmds[..|cmds| - 1]);
    }
  }

  /** Replaying more commands never loses or replaces anything already in
      the tree. */
  lemma {:induction false} ReplayOnlyGrows(cmds: seq<Command>, n: nat)
    requires n <= |cmds|
    requires Replay(cmds).Some?
    ensures Replay(cmds[..n]).Some?
    ensures Extends(Replay(cmds[..n]).value.0, Replay(cmds).value.0)
    decreases |cmds|
  {
    ReplayPrefix(cmds, n);
    if n == |cmds| {
      assert cmds[..n] == cmds;
      ExtendsReflexive(Replay(cmds).value.0);
    } else {
      var init := cmds[..|cmds| - 1];
      assert Replay(init).Some?;
      ReplayOnlyGrows(init, n);
      assert init[..n] == cmds[..n];
      var (fs, path) := Replay(init).value;
      var c := cmds[|cmds| - 1];
      if c.Ls? {
        MergeNeverReplaces(fs, path, Contents(c.infos));
        ExtendsTransitive(Replay(cmds[..n]).value.0, fs, Replay(cmds).value.0);
      } else {
        assert Replay(cmds).value.0 == fs;
      }
    }
  }

  // ---------------------------------------------------------------------
  // Directory sizes

  /** A file's size, or a directory's: the sum over its entries. */
  ghost function Size(fs: FileSystem): int
    decreases fs, 1
  {
    match fs
    case File(s) => s
    case Directory(m) => SizeOfEntries(m, m.Keys)
  }

  /** The summed sizes of the entries named in `keys`. */
  ghost function SizeOfEntries(m: map<string, FileSystem>, keys: set<string>): int
    requires keys <= m.Keys
    decreases Directory(m), 0, keys
  {
    if keys == {} then 0 else var k :| k in keys; Size(m[k]) + SizeOfEntries(m, keys - {k})
  }

  /** The order in which entries are added up does not matter. */
  lemma {:induction false} SizeOfEntriesRemove(m: map<string, FileSystem>, keys: set<string>, y: string)
    requires keys <= m.Keys && y in keys
    ensures SizeOfEntries(m, keys) == Size(m[y]) + SizeOfEntries(m, keys - {y})
    decreases keys
  {
    var x :| x in keys && SizeOfEntries(m, keys) == Size(m[x]) + SizeOfEntries(m, keys - {x});
    if x != y {
      SizeOfEntriesRemove(m, keys - {x}, y);
      SizeOfEntriesRemove(m, keys - {y}, x);
      assert keys - {x} - {y} == keys - {y} - {x};
    }
  }

  /** `path` is a prefix of `q`. */
  predicate Under(path: seq<string>, q: seq<string>)
  {
    |path| <= |q| && q[..|path|] == path
  }

  /** `q` names a directory of the tree `dir` mounted at `path`. */
  ghost predicate DirUnder(path: seq<string>, dir: map<string, FileSystem>, q: seq<string>)
  {
    Under(path, q) && Resolve(Directory(dir), q[|path|..]).Some?
  }

  /** The size of that directory. */
  ghost function SizeUnder(path: seq<string>, dir: map<string, FileSystem>, q: seq<string>): int
    requires DirUnder(path, dir, q)
  {
    Size(Directory(Resolve(Directory(dir), q[|path|..]).value))
  }

  /** `q` names a directory below an entry of `dir` among `done`. */
  ghost predicate DoneUnder(path: seq<string>, dir: map<string, FileSystem>, done: set<string>, q: seq<string>)
  {
    DirUnder(path, dir, q) && |q| > |path| && q[|path|] in done
  }

  /** `sizes'` is `sizes` with the directories below the entries `done` of
      `dir` (mounted at `path`) recorded with their sizes. */
  ghost predicate Recorded(sizes': map<seq<string>, int>, sizes: map<seq<string>, int>,
                           path: seq<string>, dir: map<string, FileSystem>, done: set<string>)
  {
    && (forall q :: q in sizes' <==> q in sizes || DoneUnder(path, dir, done, q))
    && (forall q :: q in sizes' ==>
          sizes'[q] == (if DoneUnder(path, dir, done, q) then SizeUnder(path, dir, q) else sizes[q]))
  }

  /** Looking below entry `name` of `dir` is looking inside `dir[name]`. */
  lemma ResolveBelow(path: seq<string>, dir: map<string, FileSystem>, name: string, q: seq<string>)
    requires name in dir
    requires Under(path + [name], q)
    ensures q[|path|..] == [name] + q[|path| + 1..]
    ensures Resolve(Directory(dir), q[|path|..]) == Resolve(dir[name], q[|path| + 1..])
  {
    assert q[|path|] == (path + [name])[|path|];
    assert q[|path|..] == [name] + q[|path| + 1..];
    assert q[|path|..][1..] == q[|path| + 1..];
  }

  /** The bookkeeping for one entry of the loop: a file adds nothing, a
      subdirectory adds what the recursive call recorded. */
  lemma RecordEntry(sizes: map<seq<string>, int>, cur: map<seq<string>, int>, next: map<seq<string>, int>,
                    path: seq<string>, dir: map<string, FileSystem>, done: set<string>, name: string)
    requires name in dir && name !in done && done <= dir.Keys
    requires Recorded(cur, sizes, path, dir, done)
    requires dir[name].File? ==> next == cur
    requires dir[name].Directory? ==>
      && (forall q :: q in next <==> q in cur || DirUnder(path + [name], dir[name].entries, q))
      && (forall q :: q in next ==>
            next[q] == (if DirUnder(path + [name], dir[name].entries, q)
                        then SizeUnder(path + [name], dir[name].entries, q) else cur[q]))
    ensures Recorded(next, sizes, path, dir, done + {name})
  {
    forall q
      ensures DoneUnder(path, dir, done + {name}, q) <==>
        DoneUnder(path, dir, done, q) || (dir[name].Directory? && DirUnder(path + [name], dir[name].entries, q))
      ensures dir[name].Directory? && DirUnder(path + [name], dir[name].entries, q) ==>
        SizeUnder(path + [name], dir[name].entries, q) == SizeUnder(path, dir, q)
    {
      if Under(path + [name], q) {
        ResolveBelow(path, dir, name, q);
        assert q[..|path|] == (path + [name])[..|path|] == path;
        if dir[name].Directory? {
          assert |path + [name]| == |path| + 1;
        }
      }
      if DoneUnder(path, dir, done + {name}, q) && q[|path|] == name {
        assert q[..|path| + 1] == path + [name];
        ResolveBelow(path, dir, name, q);
      }
    }
  }

  /** all_directory_sizes_rec: adds up the entries of `dir`, recursing into
      subdirectories, and records the size of every directory below `path`,
      `path` itself included. `path` is passed by value, which is what the
      source's push/pop around each recursive call amounts to. */
  method AllDirectorySizesRec(sizes: map<seq<string>, int>, path: seq<string>, dir: map<string, FileSystem>)
    returns (sizes': map<seq<string>, int>, total: int)
    ensures total == Size(Directory(dir))
    ensures forall q :: q in sizes' <==> q in sizes || DirUnder(path, dir, q)
    ensures forall q :: q in sizes' ==>
      sizes'[q] == (if DirUnder(path, dir, q) then SizeUnder(path, dir, q) else sizes[q])
    decreases Directory(dir)
  {
    total := 0;
    sizes' := sizes;
    var todo := dir.Keys;
    while todo != {}
      invariant todo <= dir.Keys
      invariant total + SizeOfEntries(dir, todo) == Size(Directory(dir))
      invariant Recorded(sizes', sizes, path, dir, dir.Keys - todo)
      decreases todo
    {
      var name :| name in todo;
      SizeOfEntriesRemove(dir, todo, name);
      var before := sizes';
      match dir[name] {
        case Directory(subdir) =>
          var sub;
          sizes', sub := AllDirectorySizesRec(sizes', path + [name], subdir);
          total := total + sub;
        case File(size) =>
          total := total + size;
      }
      RecordEntry(sizes, before, sizes', path, dir, dir.Keys - todo, name);
      assert dir.Keys - todo + {name} == dir.Keys - (todo - {name});
      todo := todo - {name};
    }
    assert dir.Keys - todo == dir.Keys;
    var done := sizes';
    sizes' := sizes'[path := total];
    forall q | Under(path, q)
      ensures DirUnder(path, dir, q) <==> q == path || DoneUnder(path, dir, dir.Keys, q)
    {
      if |q| == |path| {
        assert q == path && q[|path|..] == [];
      } else if DirUnder(path, dir, q) {
        assert q[|path|..][0] == q[|path|];
      }
    }
    assert path[|path|..] == [];
  }

  /** all_directory_sizes: every directory of the tree, keyed by its path
      from the root (the root under the empty path), with its size. */
  method AllDirectorySizes(fs: FileSystem) returns (sizes: map<seq<string>, int>)
    requires fs.Directory?
    ensures forall q :: q in sizes <==> Resolve(fs, q).Some?
    ensures forall q :: q in sizes ==> sizes[q] == Size(Directory(Resolve(fs, q).value))
  {
    var total;
    sizes, total := AllDirectorySizesRec(map[], [], fs.entries);
    forall q ensures q[0..] == q && Under([], q) { }
  }

  /** The sum over the recorded directories of the sizes at most `limit`. */
  ghost function SmallTotal(sizes: map<seq<string>, int>, limit: int): int
  {
    SumOver(sizes.Keys, SmallPart(sizes, limit))
  }

  function SmallPart(sizes: map<seq<string>, int>, limit: int): seq<string> -> int
  {
    (q: seq<string>) => if q in sizes && sizes[q] <= limit then sizes[q] else 0
  }

  const SMALL_LIMIT := 100_000
  const DISK_SIZE := 70_000_000
  const SPACE_NEEDED := 30_000_000

  /** Part 1: the total of the directory sizes that are at most 100000, each
      directory counted once even when sizes repeat. */
  method Part1(sizes: map<seq<string>, int>) returns (r: int)
    ensures r == SmallTotal(sizes, SMALL_LIMIT)
  {
    r := 0;
    var todo := sizes.Keys;
    while todo != {}
      invariant todo <= sizes.Keys
      invariant r + SumOver(todo, SmallPart(sizes, SMALL_LIMIT)) == SmallTotal(sizes, SMALL_LIMIT)
      decreases todo
    {
      var q :| q in todo;
      SumOverRemove(todo, SmallPart(sizes, SMALL_LIMIT), q);
      if sizes[q] <= SMALL_LIMIT {
        r := r + sizes[q];
      }
      todo := todo - {q};
    }
  }

  /** Part 2: the smallest directory size that frees enough space, the
      threshold being 30000000 - (70000000 - size of the root). */
  method Part2(sizes: map<seq<string>, int>) returns (r: int)
    requires [] in sizes
    requires exists q :: q in sizes && sizes[q] >= SPACE_NEEDED - (DISK_SIZE - sizes[[]])
    ensures exists q :: q in sizes && sizes[q] == r
    ensures r >= SPACE_NEEDED - (DISK_SIZE - sizes[[]])
    ensures forall q :: q in sizes && sizes[q] >= SPACE_NEEDED - (DISK_SIZE - sizes[[]]) ==> r <= sizes[q]
  {
    var unused := DISK_SIZE - sizes[[]];
    var threshold := SPACE_NEEDED - unused;
    var found := false;
    r := 0;
    var todo := sizes.Keys;
    while todo != {}
      invariant todo <= sizes.Keys
      invariant found ==> exists q :: q in sizes && sizes[q] == r && r >= threshold
      invariant found ==> forall q :: q in sizes - todo && sizes[q] >= threshold ==> r <= sizes[q]
      invariant !found ==> forall q :: q in sizes - todo ==> sizes[q] < threshold
      decreases todo
    {
      var q :| q in todo;
      if sizes[q] >= threshold && (!found || sizes[q] < r) {
        r := sizes[q];
        found := true;
      }
      todo := todo - {q};
    }
  }
}

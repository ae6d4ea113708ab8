/** The cache of directory contents: each directory is read as far as questions require, and
    what was read is kept until a command has run. */
module DirCache {
  import opened Prelude

  const MAX_OPEN_DIRECTORIES := 10

  /** Device and inode. */
  datatype Id = Id(dev: nat, ino: nat)

  /** What the system says while no command runs: the directory behind a name, and its entries
      in the order they are read, if it can be opened. */
  datatype FileSystem = FileSystem(stat: string -> Option<Id>, entries: Id -> Option<seq<string>>) {

    /** The truth about a file. */
    predicate Has(dirname: string, filename: string) {
      var id := stat(dirname);
      id.Some? && In(id.value, filename)
    }

    predicate Opens(dirname: string) {
      var id := stat(dirname);
      id.Some? && entries(id.value).Some?
    }

    predicate In(id: Id, filename: string) {
      entries(id).Some? && filename in entries(id).value
    }
  }

  /** struct directory_contents: the names entered, each with its impossible mark, if there is
      a table, and the entries still to be read, if the directory is open. */
  datatype Contents = Contents(counter: nat, files: Option<map<string, bool>>, stream: Option<seq<string>>) {

    predicate Marked(filename: string) {
      files.Some? && filename in files.value && files.value[filename]
    }
  }

  /** A directory has contents shared with other names for it, or, when only marks were made
      for a directory that cannot be found, contents of its own. */
  datatype Link = NoContents | Shared(id: Id) | Private(contents: Contents)

  datatype Directory = Directory(counter: nat, link: Link)

  /** Contents as they are made and as they are cleared. */
  function Empty(): Contents {
    Contents(0, None, None)
  }

  // ----- the table of names -----

  /** Enter the names in order. A name that was marked loses its mark. */
  function Entered(files: map<string, bool>, names: seq<string>): (r: map<string, bool>)
    ensures forall n :: n in r <==> n in files || n in names
    ensures forall n :: n in r ==> (r[n] <==> n !in names && files[n])
  {
    if names == [] then files
    else
      var most := names[..|names| - 1];
      assert names == most + [names[|names| - 1]];
      Entered(files, most)[names[|names| - 1] := false]
  }

  /** The table holds what was read of the entries, and besides only marks. */
  ghost predicate Holds(files: map<string, bool>, entries: seq<string>, stream: Option<seq<string>>) {
    && (forall n :: n in files && !files[n] ==> n in entries)
    && match stream
       case None => forall n :: n in entries ==> n in files
       case Some(rest) =>
         |rest| <= |entries| && rest == entries[|entries| - |rest|..]
         && forall n :: n in entries[..|entries| - |rest|] ==> n in files
  }

  /** The contents are in order, and if no command has run since, true. */
  ghost predicate Sound(fs: FileSystem, commandCount: nat, id: Id, c: Contents) {
    && (c.stream.Some? ==> c.files.Some?)
    && c.counter <= commandCount
    && (c.counter == 0 ==> c == Empty())
    && (c.counter == commandCount ==> AgreesWith(fs, id, c))
  }

  ghost predicate AgreesWith(fs: FileSystem, id: Id, c: Contents) {
    match fs.entries(id)
    case None => c.stream == None && (c.files.Some? ==> forall n :: n in c.files.value ==> c.files.value[n])
    case Some(entries) => c.files.Some? && Holds(c.files.value, entries, c.stream)
  }

  /** The directories being read. */
  function Open(contents: map<Id, Contents>): set<Id> {
    set id | id in contents && contents[id].stream.Some?
  }

  predicate IsOpen(contents: map<Id, Contents>, id: Id) {
    id in contents && contents[id].stream.Some?
  }

  lemma OthersStayOpen(contents: map<Id, Contents>, id: Id, c: Contents)
    ensures Open(contents[id := c]) - {id} == Open(contents) - {id}
    ensures id in Open(contents) <==> IsOpen(contents, id)
    ensures id in Open(contents[id := c]) <==> c.stream.Some?
  {
  }

  lemma OpenWith(contents: map<Id, Contents>, id: Id, c: Contents)
    ensures IsOpen(contents, id) ==> |Open(contents)| > 0
    ensures |Open(contents[id := c])|
         == |Open(contents)| - (if IsOpen(contents, id) then 1 else 0) + if c.stream.Some? then 1 else 0
  {
    var before, after := Open(contents), Open(contents[id := c]);
    OthersStayOpen(contents, id, c);
    WithoutOne(before, id);
    WithoutOne(after, id);
  }

  lemma WithoutOne<T>(s: set<T>, x: T)
    ensures |s| == |s - {x}| + if x in s then 1 else 0
  {
    if x in s { assert s == s - {x} + {x}; } else { assert s == s - {x}; }
  }

  /** One more entry read. */
  lemma HoldsOneMore(files: map<string, bool>, entries: seq<string>, rest: seq<string>)
    requires Holds(files, entries, Some(rest)) && rest != []
    ensures Holds(files[rest[0] := false], entries, Some(rest[1..]))
  {
    var k := |entries| - |rest|;
    assert rest[0] == entries[k] && rest[0] in entries;
    assert entries[..k + 1] == entries[..k] + [entries[k]];
    assert rest[1..] == entries[k + 1..];
  }

  lemma HoldsAll(files: map<string, bool>, entries: seq<string>)
    requires Holds(files, entries, Some([]))
    ensures Holds(files, entries, None)
  {
    assert entries[..|entries|] == entries;
  }

  // ----- the cache -----

  class Cache {
    var fs: FileSystem
    var commandCount: nat
    var directories: map<string, Directory>
    var contents: map<Id, Contents>
    var openDirectories: nat

    ghost predicate Valid()
      reads this
    {
      && commandCount > 0
      && (forall id :: id in contents ==> Sound(fs, commandCount, id, contents[id]))
      && (forall d :: d in directories ==> InOrder(d))
      && openDirectories == |Open(contents)|
    }

    /** A name found in this round is known to be nothing, or is linked to contents. */
    ghost predicate InOrder(dirname: string)
      requires dirname in directories
      reads this
    {
      var dir := directories[dirname];
      && dir.counter <= commandCount
      && (dir.link.Shared? ==> dir.link.id in contents)
      && (dir.link.Private? ==> dir.link.contents.counter == 0 && dir.link.contents.stream == None)
      && (dir.link == NoContents && dir.counter == commandCount ==> fs.stat(dirname) == None)
    }

    /** No command has run since the name was looked up, as far as the counters tell. */
    predicate Fresh(dirname: string)
      requires dirname in directories
        && (directories[dirname].link.Shared? ==> directories[dirname].link.id in contents)
      reads this
    {
      var dir := directories[dirname];
      commandCount == match dir.link
        case NoContents => dir.counter
        case Shared(id) => contents[id].counter
        case Private(own) => own.counter
    }

    /** The name is linked to contents that another name has brought up to date, but has come
        to mean something else. */
    predicate Misled(dirname: string)
      reads this
    {
      dirname in directories &&
      match directories[dirname].link
      case Shared(id) => id in contents && contents[id].counter == commandCount && fs.stat(dirname) != Some(id)
      case _ => false
    }

    /** The name is linked to what the system says it is, and that is up to date. */
    ghost predicate Linked(dirname: string)
      reads this
    {
      dirname in directories &&
      match directories[dirname].link
      case NoContents => fs.stat(dirname) == None
      case Shared(id) => id in contents && contents[id].counter == commandCount && fs.stat(dirname) == Some(id)
      case Private(_) => false
    }

    constructor (fs: FileSystem)
      ensures Valid() && this.fs == fs && openDirectories == 0 && directories == map[]
    {
      this.fs, commandCount, directories, contents, openDirectories := fs, 1, map[], map[], 0;
    }

    /** A command runs, and may change any directory. */
    method RunCommand(fs: FileSystem)
      requires Valid()
      modifies this
      ensures Valid() && this.fs == fs && commandCount == old(commandCount) + 1
      ensures directories == old(directories) && contents == old(contents) && openDirectories == old(openDirectories)
    {
      this.fs, commandCount := fs, commandCount + 1;
    }

    /** No name is marked in any contents that was not marked there before. */
    twostate predicate NoNewMarks()
      reads this
    {
      forall id, n :: id in contents && contents[id].Marked(n) ==> id in old(contents) && old(contents)[id].Marked(n)
    }

    /** Store contents, and keep count of the open directories. */
    method Store(id: Id, c: Contents)
      requires Valid() && Sound(fs, commandCount, id, c)
      modifies this`contents, this`openDirectories
      ensures Valid() && contents == old(contents)[id := c]
      ensures openDirectories
           == old(openDirectories - if IsOpen(contents, id) then 1 else 0) + if c.stream.Some? then 1 else 0
    {
      OpenWith(contents, id, c);
      if IsOpen(contents, id) {
        openDirectories := openDirectories - 1;
      }
      if c.stream.Some? {
        openDirectories := openDirectories + 1;
      }
      contents := contents[id := c];
    }

    /** clear_directory_contents */
    method ClearContents(id: Id)
      requires Valid() && id in contents
      modifies this`contents, this`openDirectories
      ensures Valid() && contents == old(contents)[id := Empty()]
      ensures openDirectories <= old(openDirectories)
    {
      Store(id, Empty());
    }

    /** Read on until the file is found or, for no file, until everything is read. */
    method ReadOn(id: Id, filename: Option<string>) returns (found: bool)
      requires Valid() && id in contents && contents[id].counter == commandCount && contents[id].stream.Some?
      modifies this`contents, this`openDirectories
      ensures Valid()
      ensures found <==> filename.Some? && filename.value in old(contents[id].stream.value)
      ensures id in contents && contents == old(contents)[id := contents[id]]
      ensures ReadFurther(old(contents[id]), contents[id], filename)
      ensures openDirectories == old(openDirectories) - if found then 0 else 1
    {
      var c := contents[id];
      var files, rest;
      files, rest, found := ReadEntries(fs.entries(id).value, c.files.value, c.stream.value, filename);
      c := c.(files := Some(files), stream := if found then Some(rest) else None);
      Store(id, c);
    }

    /** opendir, with a table that is empty yet, or no table if the directory cannot be opened. */
    method OpenDirectory(id: Id)
      requires Valid() && id in contents && contents[id].stream == None
      modifies this`contents, this`openDirectories
      ensures Valid() && contents == old(contents)[id := Reopened(fs, commandCount, id)]
      ensures openDirectories == old(openDirectories) + if fs.entries(id).Some? then 1 else 0
    {
      var c := Reopened(fs, commandCount, id);
      ReopenedIsSound(fs, commandCount, id);
      Store(id, c);
    }

    /** The contents have changed: start reading them again. */
    method Reseed(id: Id)
      requires Valid() && openDirectories < MAX_OPEN_DIRECTORIES
      requires id in contents && contents[id].counter != commandCount
      modifies this`contents, this`openDirectories
      ensures Valid() && openDirectories < MAX_OPEN_DIRECTORIES
      ensures id in contents && contents[id].counter == commandCount && contents == old(contents)[id := contents[id]]
      ensures forall n :: !contents[id].Marked(n)
    {
      if contents[id].counter != 0 {
        ClearContents(id);
      }
      OpenDirectory(id);
      if openDirectories == MAX_OPEN_DIRECTORIES {
        var _ := ReadOn(id, None);
      }
    }

    /** Find the contents in their table, enter them if they are new, and start them again if
        a command has run. */
    method Refresh(id: Id)
      requires Valid() && openDirectories < MAX_OPEN_DIRECTORIES
      modifies this`contents, this`openDirectories
      ensures Valid() && openDirectories < MAX_OPEN_DIRECTORIES
      ensures id in contents && contents[id].counter == commandCount
      ensures contents == old(contents)[id := contents[id]] && NoNewMarks()
    {
      if id !in contents {
        Store(id, Empty());
      }
      if contents[id].counter != commandCount {
        Reseed(id);
      }
    }

    /** The entry for the name is new, or out of date. */
    method Enlist(dirname: string)
      requires Valid() && openDirectories < MAX_OPEN_DIRECTORIES
      requires dirname in directories ==> !Fresh(dirname)
      modifies this`directories, this`contents, this`openDirectories
      ensures Valid() && openDirectories < MAX_OPEN_DIRECTORIES
      ensures Linked(dirname) && Fresh(dirname)
      ensures directories == old(directories)[dirname := directories[dirname]]
      ensures NoNewMarks() && forall id :: id in old(contents) ==> id in contents
    {
      if dirname in directories && directories[dirname].link.Shared? {
        ClearContents(directories[dirname].link.id);
      }
      var id := fs.stat(dirname);
      if id == None {
        directories := directories[dirname := Directory(commandCount, NoContents)];
        return;
      }
      Refresh(id.value);
      directories := directories[dirname := Directory(commandCount, Shared(id.value))];
    }

    /** find_directory */
    method FindDirectory(dirname: string)
      requires Valid() && openDirectories < MAX_OPEN_DIRECTORIES
      modifies this`directories, this`contents, this`openDirectories
      ensures Valid() && openDirectories < MAX_OPEN_DIRECTORIES
      ensures dirname in directories && Fresh(dirname)
      ensures if old(Misled(dirname)) then Misled(dirname) else Linked(dirname)
      ensures !directories[dirname].link.Private?
      ensures directories == old(directories)[dirname := directories[dirname]] && NoNewMarks()
      ensures old(dirname in directories && Fresh(dirname)) ==>
        directories == old(directories) && contents == old(contents) && openDirectories == old(openDirectories)
    {
      if dirname in directories && Fresh(dirname) {
        return;
      }
      Enlist(dirname);
    }

    // ----- questions -----

    predicate Marked(dirname: string, filename: string)
      reads this
    {
      dirname in directories &&
      match directories[dirname].link
      case NoContents => false
      case Shared(id) => id in contents && contents[id].Marked(filename)
      case Private(own) => own.Marked(filename)
    }

    /** The directory has a table, because it was opened or because of marks. */
    predicate HasTable(dirname: string)
      reads this
    {
      dirname in directories &&
      match directories[dirname].link
      case Shared(id) => id in contents && contents[id].files.Some?
      case _ => false
    }

    /** dir_contents_file_exists_p: look in the table, then read on. */
    method ContentsFileExists(id: Id, filename: string) returns (answer: bool)
      requires Valid() && openDirectories < MAX_OPEN_DIRECTORIES
      requires id in contents && contents[id].counter == commandCount
      modifies this`contents, this`openDirectories
      ensures Valid() && openDirectories < MAX_OPEN_DIRECTORIES
      ensures id in contents && contents[id].counter == commandCount && contents == old(contents)[id := contents[id]]
      ensures filename != "" ==> (answer <==> fs.In(id, filename) && !contents[id].Marked(filename))
      ensures filename == "" ==> (answer <==> contents[id].files.Some?)
      ensures contents == old(contents) || ReadFurther(old(contents[id]), contents[id], Some(filename))
      ensures forall n :: contents[id].Marked(n) ==> old(contents[id].Marked(n))
      ensures forall n :: old(contents[id].Marked(n)) && !fs.In(id, n) ==> contents[id].Marked(n)
    {
      var c := contents[id];
      assert contents == contents[id := c];
      if c.files == None { return false; }
      if filename == "" { return true; }
      if filename in c.files.value { return !c.files.value[filename]; }
      if c.stream == None { return false; }
      answer := ReadOn(id, Some(filename));
      forall n { ReadingTakesMarks(c, contents[id], Some(filename), n); }
    }

    /** dir_file_exists_p. For a directory that did not come to mean something else behind the
        cache's back, the answer is the truth about every name that is not marked. The empty
        name asks for the directory; marks make one look as if it could be opened. */
    method DirFileExists(dirname: string, filename: string) returns (answer: bool)
      requires Valid() && openDirectories < MAX_OPEN_DIRECTORIES
      modifies this`directories, this`contents, this`openDirectories
      ensures Valid() && openDirectories < MAX_OPEN_DIRECTORIES
      ensures filename != "" && !old(Misled(dirname)) ==>
        (answer <==> fs.Has(dirname, filename) && !Marked(dirname, filename))
      ensures filename != "" && old(Misled(dirname)) ==>
        (answer <==> fs.In(old(directories[dirname].link.id), filename) && !Marked(dirname, filename))
      ensures filename == "" ==> (answer <==> HasTable(dirname))
      ensures !old(Misled(dirname)) ==>
        (fs.Opens(dirname) ==> HasTable(dirname)) && (HasTable(dirname) ==> fs.stat(dirname).Some?)
      ensures if old(Misled(dirname)) then Misled(dirname) else Linked(dirname)
      ensures dirname in directories && directories == old(directories)[dirname := directories[dirname]]
      ensures NoNewMarks()
      ensures old(dirname in directories && Fresh(dirname)) ==>
        forall n :: old(Marked(dirname, n)) && !fs.In(old(directories[dirname].link.id), n) ==> Marked(dirname, n)
    {
      FindDirectory(dirname);
      match directories[dirname].link
      case NoContents => answer := false;
      case Shared(id) => answer := ContentsFileExists(id, filename);
      case Private(_) => assert false;
    }

    method MarkContents(id: Id, filename: string)
      requires Valid() && id in contents && contents[id].counter == commandCount
      modifies this`contents, this`openDirectories
      ensures Valid() && contents == old(contents)[id := WithMark(old(contents[id]), filename)]
      ensures openDirectories == old(openDirectories)
    {
      var c := WithMark(contents[id], filename);
      MarkIsSound(fs, commandCount, id, contents[id], filename);
      Store(id, c);
    }

    /** The names are linked to the same contents. */
    predicate SameDirectory(d: string, dirname: string)
      reads this
    {
      || d == dirname
      || (d in directories && dirname in directories && directories[d].link.Shared?
          && directories[d].link == directories[dirname].link)
    }

    /** Mark a name in a directory that was just looked up. */
    method MarkFound(dirname: string, filename: string)
      requires Valid() && dirname in directories && !directories[dirname].link.Private? && Fresh(dirname)
      modifies this`directories, this`contents, this`openDirectories
      ensures Valid() && openDirectories == old(openDirectories)
      ensures Marked(dirname, filename)
      ensures directories == old(directories)[dirname := directories[dirname]]
      ensures forall id, n :: n != filename && id in contents && contents[id].Marked(n) ==>
        id in old(contents) && old(contents)[id].Marked(n)
      ensures forall d, n :: Marked(d, n) <==> old(Marked(d, n)) || (n == filename && old(SameDirectory(d, dirname)))
      ensures Fresh(dirname) <==> old(directories[dirname].link.Shared?)
    {
      match directories[dirname].link
      case NoContents =>
        var own := Contents(0, Some(map[filename := true]), None);
        directories := directories[dirname := directories[dirname].(link := Private(own))];
      case Private(_) => assert false;
      case Shared(id) =>
        MarkContents(id, filename);
    }

    /** Mark a name as impossible. No other name gets a mark. When no command has run since the
        directory was looked up, none loses its mark, and the mark is seen under all names of the
        directory. */
    method FileImpossible(dirname: string, filename: string)
      requires Valid() && openDirectories < MAX_OPEN_DIRECTORIES
      modifies this`directories, this`contents, this`openDirectories
      ensures Valid() && openDirectories < MAX_OPEN_DIRECTORIES
      ensures Marked(dirname, filename)
      ensures directories == old(directories)[dirname := directories[dirname]]
      ensures forall id, n :: n != filename && id in contents && contents[id].Marked(n) ==>
        id in old(contents) && old(contents)[id].Marked(n)
      ensures old(dirname in directories && Fresh(dirname) && !directories[dirname].link.Private?) ==>
        forall d, n :: Marked(d, n) <==> old(Marked(d, n)) || (n == filename && old(SameDirectory(d, dirname)))
      ensures Fresh(dirname) <==> old(Misled(dirname)) || fs.stat(dirname).Some?
    {
      FindDirectory(dirname);
      MarkFound(dirname, filename);
    }

    /** Whether a name has been marked. */
    method FileImpossibleP(dirname: string, filename: string) returns (answer: bool)
      requires Valid() && openDirectories < MAX_OPEN_DIRECTORIES
      modifies this`directories, this`contents, this`openDirectories
      ensures Valid() && openDirectories < MAX_OPEN_DIRECTORIES
      ensures answer <==> Marked(dirname, filename)
      ensures old(dirname in directories && Fresh(dirname)) ==> (answer <==> old(Marked(dirname, filename)))
      ensures !old(Misled(dirname)) && fs.stat(dirname) == None ==> !answer
      ensures NoNewMarks()
    {
      FindDirectory(dirname);
      match directories[dirname].link
      case NoContents => answer := false;
      case Private(_) => assert false;
      case Shared(id) => answer := contents[id].Marked(filename);
    }

    /** file_exists_p, for a name that is not an archive member. */
    method FileExists(name: string) returns (answer: bool)
      requires Valid() && openDirectories < MAX_OPEN_DIRECTORIES
      modifies this`directories, this`contents, this`openDirectories
      ensures Valid() && openDirectories < MAX_OPEN_DIRECTORIES
      ensures BaseName(name) != "" && !old(Misled(DirName(name))) ==>
        (answer <==> fs.Has(DirName(name), BaseName(name)) && !Marked(DirName(name), BaseName(name)))
      ensures BaseName(name) != "" && old(Misled(DirName(name))) ==>
        (answer <==>
         fs.In(old(directories[DirName(name)].link.id), BaseName(name)) && !Marked(DirName(name), BaseName(name)))
      ensures BaseName(name) == "" ==> (answer <==> HasTable(DirName(name)))
      ensures !old(Misled(DirName(name))) ==>
        (fs.Opens(DirName(name)) ==> HasTable(DirName(name)))
          && (HasTable(DirName(name)) ==> fs.stat(DirName(name)).Some?)
      ensures NoNewMarks()
    {
      var slash := |name|;
      while slash > 0 && name[slash - 1] != '/'
        invariant 0 <= slash <= |name| && AfterSlash(name, |name|) == AfterSlash(name, slash)
      {
        slash := slash - 1;
      }
      var dirname := if slash == 0 then "." else if slash == 1 then "/" else name[..slash - 1];
      answer := DirFileExists(dirname, name[slash..]);
    }

    /** A name marked and asked about again. The mark is still there exactly when there is a
        directory to keep it for. */
    method MarkAndAsk(dirname: string, filename: string) returns (answer: bool)
      requires Valid() && openDirectories < MAX_OPEN_DIRECTORIES
      modifies this`directories, this`contents, this`openDirectories
      ensures Valid() && openDirectories < MAX_OPEN_DIRECTORIES
      ensures answer <==> fs.stat(dirname).Some? || old(Misled(dirname))
    {
      FileImpossible(dirname, filename);
      answer := FileImpossibleP(dirname, filename);
    }
  }

  // ----- directory and file of a name -----

  function BaseName(name: string): string {
    name[AfterSlash(name, |name|)..]
  }

  function DirName(name: string): string {
    var i := AfterSlash(name, |name|);
    if i == 0 then "." else if i == 1 then "/" else name[..i - 1]
  }

  lemma CutAtSlash(name: string, i: nat)
    requires 0 < i <= |name| && name[i - 1] == '/'
    ensures name == name[..i - 1] + "/" + name[i..]
  {
  }

  lemma NothingInFront(nothing: string, base: string)
    requires nothing == ""
    ensures nothing + "/" + base == "/" + base
  {
    assert nothing + "/" == "/";
  }

  lemma BaseHasNoSlash(name: string)
    ensures '/' !in BaseName(name)
  {
    NoSlashAfter(name, |name|);
    var i, base := AfterSlash(name, |name|), BaseName(name);
    assert forall k: nat :: k < |base| ==> base[k] == name[i + k];
  }

  /** A name is its directory, a slash and the file's own name, which has no slash. */
  lemma NameIsSplit(name: string)
    ensures '/' !in BaseName(name)
    ensures var i := AfterSlash(name, |name|);
      if i == 0 then DirName(name) == "." && BaseName(name) == name
      else if i == 1 then DirName(name) == "/" && name == "/" + BaseName(name)
      else name == DirName(name) + "/" + BaseName(name)
  {
    BaseHasNoSlash(name);
    NoSlashAfter(name, |name|);
    var i := AfterSlash(name, |name|);
    if i == 0 {
      assert name[0..] == name;
    } else {
      CutAtSlash(name, i);
      if i == 1 { NothingInFront(name[..0], name[1..]); }
    }
  }

  /** How much of the stream is left. */
  function Rest(c: Contents): nat {
    if c.stream.Some? then |c.stream.value| else 0
  }

  /** Reading on takes the mark from the names that are read, and from no others. */
  lemma ReadingTakesMarks(before: Contents, after: Contents, filename: Option<string>, n: string)
    requires ReadFurther(before, after, filename)
    ensures Rest(after) <= Rest(before)
    ensures after.Marked(n) <==> before.Marked(n) && n !in before.stream.value[..Rest(before) - Rest(after)]
  {
    if after.stream == None { assert before.stream.value[..Rest(before)] == before.stream.value; }
  }

  // ----- a question answered for another directory -----

  /** What was b is called a now, and b is another directory. Asking about a first brings the
      contents up to date that b is still linked to. */
  method OtherDirectoryAnswers() returns (cache: Cache, answer: bool)
    ensures !answer && cache.fs.Has("b", "x")
  {
    var one, two := Id(0, 1), Id(0, 2);
    var entries := (id: Id) => if id == one then Some([]) else if id == two then Some(["x"]) else None;
    var before := FileSystem(name => if name == "b" then Some(one) else None, entries);
    var after :=
      FileSystem(name => if name == "a" then Some(one) else if name == "b" then Some(two) else None, entries);
    cache := new Cache(before);
    answer := cache.DirFileExists("b", "x");
    assert cache.Linked("b");
    cache.RunCommand(after);
    assert cache.directories["b"].link == Shared(one);
    answer := cache.DirFileExists("a", "x");
    assert cache.Linked("a") && cache.Misled("b");
    answer := cache.DirFileExists("b", "x");
  }

  /** The mark replaces an entry for the name, in a table made for it if need be. */
  function WithMark(c: Contents, filename: string): Contents {
    c.(files := Some((if c.files == None then map[] else c.files.value)[filename := true]))
  }

  lemma MarkIsSound(fs: FileSystem, commandCount: nat, id: Id, c: Contents, filename: string)
    requires commandCount > 0 && c.counter == commandCount && Sound(fs, commandCount, id, c)
    ensures Sound(fs, commandCount, id, WithMark(c, filename))
  {
  }

  function Reopened(fs: FileSystem, commandCount: nat, id: Id): Contents {
    if fs.entries(id) == None then Contents(commandCount, None, None)
    else Contents(commandCount, Some(map[]), fs.entries(id))
  }

  lemma ReopenedIsSound(fs: FileSystem, commandCount: nat, id: Id)
    requires commandCount > 0
    ensures Sound(fs, commandCount, id, Reopened(fs, commandCount, id))
  {
    if fs.entries(id).Some? {
      var entries := fs.entries(id).value;
      assert entries[|entries| - |entries|..] == entries;
    }
  }

  /** Some entries have been read from the stream: those up to the file, or all. */
  ghost predicate ReadFurther(before: Contents, after: Contents, filename: Option<string>) {
    && before.files.Some? && before.stream.Some? && after.files.Some? && after.counter == before.counter
    && match after.stream
       case None =>
         (filename.Some? ==> filename.value !in before.stream.value)
         && after.files.value == Entered(before.files.value, before.stream.value)
       case Some(rest) =>
         filename.Some? && ReadUpTo(before.files.value, before.stream.value, filename.value, after.files.value, rest)
  }

  /** The first occurrence of the name was the last entry read. */
  ghost predicate ReadUpTo(files: map<string, bool>, stream: seq<string>, name: string, files': map<string, bool>,
                           rest: seq<string>)
  {
    |rest| < |stream| &&
    var k := |stream| - |rest| - 1;
    && stream[k] == name && name !in stream[..k] && rest == stream[k + 1..]
    && files' == Entered(files, stream[..k + 1])
  }

  /** The loop over the stream. */
  method ReadEntries(ghost entries: seq<string>, files: map<string, bool>, stream: seq<string>,
                     filename: Option<string>)
    returns (files': map<string, bool>, rest: seq<string>, found: bool)
    requires Holds(files, entries, Some(stream))
    ensures Holds(files', entries, if found then Some(rest) else None)
    ensures found <==> filename.Some? && filename.value in stream
    ensures !found ==> files' == Entered(files, stream)
    ensures found ==> ReadUpTo(files, stream, filename.value, files', rest)
  {
    files', rest, found := files, stream, false;
    ghost var k := 0;
    while rest != []
      invariant k <= |stream| && rest == stream[k..] && files' == Entered(files, stream[..k])
      invariant Holds(files', entries, Some(rest))
      invariant filename.Some? ==> filename.value !in stream[..k]
    {
      var name := rest[0];
      HoldsOneMore(files', entries, rest);
      EnteredOneMore(files, stream, k);
      files' := files'[name := false];
      rest := rest[1..];
      if filename == Some(name) {
        found := true;
        return;
      }
      k := k + 1;
    }
    HoldsAll(files', entries);
    assert stream[..k] == stream;
  }

  lemma EnteredOneMore(files: map<string, bool>, stream: seq<string>, k: nat)
    requires k < |stream|
    ensures Entered(files, stream[..k + 1]) == Entered(files, stream[..k])[stream[k] := false]
    ensures stream[k..][1..] == stream[k + 1..] && stream[..k + 1] == stream[..k] + [stream[k]]
  {
    assert stream[..k + 1][..k] == stream[..k];
  }
}

/** kf_fat_walk_dir on a disk: parsing directories, descending into them and recovering their files. */
module TreeWalker {
  import opened Arith
  import opened Bytes
  import opened Disks
  import opened DirEntries
  import opened DirParser
  import opened FatChains
  import opened FatRecovery
  import opened Options
  import opened Paths
  import opened SearchSpaces
  import opened Seqs
  import opened TreeWalk

  /** The 32-byte records of a directory buffer. */
  function Records(buffer: seq<byte>): seq<DirEntry> {
    seq<DirEntry>(|buffer| / 32, i requires 0 <= i < |buffer| / 32 => buffer[32 * i..32 * i + 32])
  }

  function ListingOf(buffer: seq<byte>): seq<FileInfo> {
    Listing(Records(buffer), NoMask)
  }

  /** What each cluster holds when it is read as a directory. */
  ghost function DirectoryAt(v: Volume, bytes: seq<byte>, next: nat -> nat, c: nat): Option<seq<FileInfo>> {
    var chain := DirChain(v, bytes, next, c);
    if chain == [] then None else Some(ListingOf(Contents(v, bytes, chain)))
  }

  ghost predicate ShowsDirectories(v: Volume, bytes: seq<byte>, next: nat -> nat, dirs: Directories) {
    forall c: nat {:trigger DirectoryAt(v, bytes, next, c)} :: dirs(c) == DirectoryAt(v, bytes, next, c)
  }

  /**
   * What a walk relies on: where each cluster leads, what it holds as a directory, how names read, the filter, and
   * which clusters the walk can come to as directories, under which paths.
   */
  datatype FileSystem =
    FileSystem(next: nat -> nat, dirs: Directories, text: NameText, filter: string, reach: (nat, string) -> bool)

  /** Does the walk go into this directory? */
  ghost predicate IsEntered(fs: FileSystem, path: string, file: FileInfo) {
    var name := fs.text(file.name);
    file.isDirectory && name != "" && !IsDots(name) && file.cluster != 0 && Related(ChildPath(path, name), fs.filter)
  }

  /** The walk can come to the directories of this listing that it goes into. */
  ghost predicate AllReached(fs: FileSystem, path: string, files: seq<FileInfo>) {
    forall i :: 0 <= i < |files| && IsEntered(fs, path, files[i]) ==>
      fs.reach(files[i].cluster, ChildPath(path, fs.text(files[i].name)))
  }

  /** A directory that can be read without leaving its buffer, and is not too long for the parser's 32-bit size. */
  ghost predicate IsProper(v: Volume, bytes: seq<byte>, next: nat -> nat, c: nat) {
    StaysInBuffer(v, bytes, next, c) && |Contents(v, bytes, DirChain(v, bytes, next, c))| < 0x1_0000_0000
  }

  /** The directories that the walk can come to are proper, and so are those that it comes to from there. */
  ghost predicate IsWalkable(v: Volume, bytes: seq<byte>, fs: FileSystem) {
    && 0 < v.clusterSize && v.clusterSize % 32 == 0
    && (forall c: nat, path: string {:trigger fs.reach(c, path), IsProper(v, bytes, fs.next, c)} ::
          fs.reach(c, path) ==> IsProper(v, bytes, fs.next, c))
    && (forall c: nat, path: string {:trigger fs.reach(c, path), DirectoryAt(v, bytes, fs.next, c)} ::
          fs.reach(c, path) && fs.dirs(c).Some? ==> AllReached(fs, path, fs.dirs(c).value))
  }

  /** One recovery: the disk, the search space, what the outside world answers, and the files written so far. */
  class Session {
    const disk: Disk
    const v: Volume
    const list: SearchSpace
    const got: Delivery              // what the reads of file clusters deliver
    const text: NameText
    const stop: nat -> bool          // need_to_stop, each time it is looked at
    const room: nat -> Option<nat>   // what the destination has for the n-th file, if it can be created
    var looks: nat
    var found: seq<Found>
    var outputs: seq<seq<byte>>

    constructor (disk: Disk, v: Volume, list: SearchSpace, got: Delivery, text: NameText, stop: nat -> bool,
                 room: nat -> Option<nat>)
      ensures this.disk == disk && this.v == v && this.list == list && this.got == got && this.text == text
      ensures this.stop == stop && this.room == room && found == [] && outputs == []
    {
      this.disk, this.v, this.list, this.got, this.text, this.stop, this.room := disk, v, list, got, text, stop, room;
      looks, found, outputs := 0, [], [];
    }
  }

  /** Every file found so far has been written as the chain of its start cluster says, and is out of the search space. */
  ghost predicate AreSaved(v: Volume, bytes: seq<byte>, got: Delivery, next: nat -> nat, found: seq<Found>,
                           outputs: seq<seq<byte>>, spans: seq<Span>)
    requires 0 < v.clusterSize
  {
    && |outputs| == |found|
    && forall i :: 0 <= i < |found| ==> IsSaved(v, bytes, got, next, found[i].file, outputs[i], spans)
  }

  ghost predicate IsSaved(v: Volume, bytes: seq<byte>, got: Delivery, next: nat -> nat, file: FileInfo, output: seq<byte>,
                          spans: seq<Span>)
    requires 0 < v.clusterSize
  {
    && output == FileCopy(v, bytes, got, next, file.cluster, file.size)
    && NotCovered(spans, SpansOf(v, FileChain(v, next, file.cluster, file.size)))
  }

  /** No byte of `gone` is left in the list. */
  ghost predicate NotCovered(spans: seq<Span>, gone: seq<Span>) {
    forall x: int {:trigger Covers(spans, x)} :: Covers(spans, x) ==> !Covers(gone, x)
  }

  ghost predicate Shrinks(prior: seq<Span>, later: seq<Span>) {
    forall x: int {:trigger Covers(later, x)} :: Covers(later, x) ==> Covers(prior, x)
  }

  lemma SavedStaysSaved(v: Volume, bytes: seq<byte>, got: Delivery, next: nat -> nat, found: seq<Found>,
                        outputs: seq<seq<byte>>, prior: seq<Span>, later: seq<Span>)
    requires 0 < v.clusterSize && AreSaved(v, bytes, got, next, found, outputs, prior) && Shrinks(prior, later)
    ensures AreSaved(v, bytes, got, next, found, outputs, later)
  {
    forall i | 0 <= i < |found|
      ensures IsSaved(v, bytes, got, next, found[i].file, outputs[i], later)
    {
      assert IsSaved(v, bytes, got, next, found[i].file, outputs[i], prior);
    }
  }

  /** From a list to a longer one: all of `more` was added, or a part of it when the walk was cut short. */
  ghost predicate Grown<T>(prior: seq<T>, later: seq<T>, more: seq<T>, status: Status) {
    prior <= later <= prior + more && (status == Ok ==> later == prior + more)
  }

  /** A walk that has done x and then gets through y, or through a part of it. */
  lemma GrowsOn<T>(a: seq<T>, b: seq<T>, c: seq<T>, x: seq<T>, y: seq<T>, z: seq<T>, status: Status)
    requires b == a + x && Grown(b, c, y, status)
    ensures status == Ok ==> c == a + (x + y)
    ensures status != Ok ==> Grown(a, c, x + (y + z), status)
  {
    Associate(a, x, y);
    assert a + (x + (y + z)) == ((a + x) + y) + z;
  }

  /** What is left of a search space is what has not been deleted from it. */
  ghost predicate IsLeft(prior: Space, later: Space) {
    && prior.deleted <= later.deleted
    && forall x: int {:trigger Covers(later.spans, x)} ::
         Covers(later.spans, x) <==> Covers(prior.spans, x) && !Covers(later.deleted[|prior.deleted|..], x)
  }

  lemma IsLeftTwice(a: Space, b: Space, c: Space)
    requires IsLeft(a, b) && IsLeft(b, c)
    ensures IsLeft(a, c)
  {
    var first, second := b.deleted[|a.deleted|..], c.deleted[|b.deleted|..];
    assert c.deleted[|a.deleted|..] == first + second;
    forall x: int
      ensures Covers(c.spans, x) <==> Covers(a.spans, x) && !Covers(c.deleted[|a.deleted|..], x)
    {
      CoversConcat(first, second, x);
    }
  }

  /** The files found so far and the search space. */
  datatype Progress = Progress(found: seq<Found>, space: Space)

  ghost function ProgressOf(s: Session): Progress
    reads s, s.list
  {
    Progress(s.found, SpaceOf(s.list))
  }

  /** These files were found, and exactly these spans taken out of the space; or a part of both, when it was cut short. */
  ghost predicate Advanced(a: Progress, b: Progress, found: seq<Found>, gone: seq<Span>, status: Status) {
    && Grown(a.found, b.found, found, status)
    && Grown(a.space.deleted, b.space.deleted, gone, status)
    && IsLeft(a.space, b.space)
  }

  lemma NothingAdvanced(a: Progress)
    ensures Advanced(a, a, [], [], Ok)
  {
    assert !(exists x :: Covers([], x));
  }

  /** One step after another one that was complete. */
  lemma AdvancesOn(a: Progress, b: Progress, c: Progress, found: seq<Found>, gone: seq<Span>,
                   more: seq<Found>, moreGone: seq<Span>, status: Status)
    requires Advanced(a, b, found, gone, Ok) && Advanced(b, c, more, moreGone, status)
    ensures Advanced(a, c, found + more, gone + moreGone, status)
  {
    hide IsLeft;
    GrowsOn(a.found, b.found, c.found, found, more, [], status);
    GrowsOn(a.space.deleted, b.space.deleted, c.space.deleted, gone, moreGone, [], status);
    assert found + (more + []) == found + more && gone + (moreGone + []) == gone + moreGone;
    IsLeftTwice(a.space, b.space, c.space);
  }

  /** A step that was cut short is cut short in whatever was to follow. */
  lemma CutShort(a: Progress, b: Progress, found: seq<Found>, gone: seq<Span>, more: seq<Found>, moreGone: seq<Span>,
                 status: Status)
    requires Advanced(a, b, found, gone, status) && status != Ok
    ensures Advanced(a, b, found + more, gone + moreGone, status)
  {
    hide IsLeft;
    Associate(a.found, found, more);
    Associate(a.space.deleted, gone, moreGone);
  }

  /**
   * What a walk takes out of the search space: the clusters of each directory when it is entered, and those of each file
   * that it saves, in the order in which it comes to them.
   */
  ghost function Gone(v: Volume, bytes: seq<byte>, fs: FileSystem, path: string, files: seq<FileInfo>, depth: nat): seq<Span>
    requires 0 < v.clusterSize
    decreases MAX_DIR_DEPTH + 1 - depth, |files|, 1
  {
    if depth > MAX_DIR_DEPTH || files == [] then []
    else GoneAt(v, bytes, fs, path, files, depth) + Gone(v, bytes, fs, path, files[1..], depth)
  }

  ghost function GoneAt(v: Volume, bytes: seq<byte>, fs: FileSystem, path: string, files: seq<FileInfo>, depth: nat): seq<Span>
    requires 0 < v.clusterSize && depth <= MAX_DIR_DEPTH && files != []
    decreases MAX_DIR_DEPTH + 1 - depth, |files|, 0
  {
    var file := files[0];
    var child := ChildPath(path, fs.text(file.name));
    if IsSavedFile(fs, path, file) then SpansOf(v, FileChain(v, fs.next, file.cluster, file.size))
    else if IsEntered(fs, path, file) then
      SpansOf(v, DirChain(v, bytes, fs.next, file.cluster)) + match fs.dirs(file.cluster)
        case None => []
        case Some(sub) => Gone(v, bytes, fs, child, sub, depth + 1)
    else []
  }

  /** Does the walk save this file? */
  ghost predicate IsSavedFile(fs: FileSystem, path: string, file: FileInfo) {
    !file.isDirectory && fs.text(file.name) != "" && IsWithin(fs.filter, path)
  }

  lemma GoneIsSteps(v: Volume, bytes: seq<byte>, fs: FileSystem, path: string, files: seq<FileInfo>, depth: nat)
    requires 0 < v.clusterSize && depth <= MAX_DIR_DEPTH && files != []
    ensures Gone(v, bytes, fs, path, files, depth)
            == GoneAt(v, bytes, fs, path, files, depth) + Gone(v, bytes, fs, path, files[1..], depth)
  {
  }

  ghost predicate InOrder(s: Session, fs: FileSystem)
    reads s, s.list, s.disk
  {
    && s.v.Valid(s.disk) && Shows(s.v, s.disk.sectorSize, s.disk.bytes, fs.next)
    && ShowsDirectories(s.v, s.disk.bytes, fs.next, fs.dirs) && IsWalkable(s.v, s.disk.bytes, fs) && s.text == fs.text
    && Sorted(s.list.spans) && AreSaved(s.v, s.disk.bytes, s.got, fs.next, s.found, s.outputs, s.list.spans)
  }

  /** A walk is cut short only by a request to stop, a file that cannot be created or a destination that is full. */
  ghost predicate IsExcused(s: Session, fs: FileSystem, status: Status)
    requires 0 < s.v.clusterSize
    reads s, s.disk
  {
    match status
    case Ok => true
    case Stopped => 0 < s.looks && s.stop(s.looks - 1)
    case NoAccess => s.room(|s.found|) == None
    case NoSpace =>
      && s.room(|s.found|).Some?
      && exists f: FileInfo :: |FileCopy(s.v, s.disk.bytes, s.got, fs.next, f.cluster, f.size)| > s.room(|s.found|).value
  }

  lemma TakenOutIsLeft(prior: Space, v: Volume, chain: seq<nat>, later: Space)
    requires 0 < v.clusterSize && TakenOut(prior, v, chain, later)
    ensures Sorted(later.spans) && NotCovered(later.spans, SpansOf(v, chain))
    ensures IsLeft(prior, later)
  {
    assert later.deleted[|prior.deleted|..] == SpansOf(v, chain);
  }

  lemma IsLeftShrinks(prior: Space, later: Space)
    requires IsLeft(prior, later)
    ensures Shrinks(prior.spans, later.spans)
  {
  }

  lemma SpansOfFirst(v: Volume, chain: seq<nat>, n: nat)
    requires 0 < v.clusterSize && n <= |chain|
    ensures SpansOf(v, chain[..n]) <= SpansOf(v, chain)
  {
    assert SpansOf(v, chain[..n]) == SpansOf(v, chain)[..n];
  }

  /** Create the output file of one found file and copy its clusters. */
  method SaveFile(s: Session, path: string, file: FileInfo, ghost fs: FileSystem) returns (status: Status)
    requires InOrder(s, fs)
    modifies s, s.list
    ensures InOrder(s, fs)
    ensures Advanced(old(ProgressOf(s)), ProgressOf(s), [Found(path, file)],
                     SpansOf(s.v, FileChain(s.v, fs.next, file.cluster, file.size)), status)
    ensures status != Ok ==> s.found == old(s.found)
    ensures s.looks == old(s.looks) && IsExcused(s, fs, status) && status != Stopped
  {
    var room := s.room(|s.found|);
    if room == None {
      return NoAccess;
    }
    var out := new OutFile(room.value);
    ghost var prior := SpaceOf(s.list);
    ghost var copied;
    ghost var chain := FileChain(s.v, fs.next, file.cluster, file.size);
    status, copied := KfFatRecoverFile(s.disk, s.v, s.got, file.cluster, file.size, s.list, out, fs.next);
    TakenOutIsLeft(prior, s.v, chain[..copied], SpaceOf(s.list));
    IsLeftShrinks(prior, SpaceOf(s.list));
    SpansOfFirst(s.v, chain, copied);
    SavedStaysSaved(s.v, s.disk.bytes, s.got, fs.next, s.found, s.outputs, prior.spans, s.list.spans);
    if status == NoSpace {
      assert |FileCopy(s.v, s.disk.bytes, s.got, fs.next, file.cluster, file.size)| > room.value;
    }
    if status == Ok {
      assert chain[..copied] == chain;
      assert IsSaved(s.v, s.disk.bytes, s.got, fs.next, file, out.data, s.list.spans);
      s.found := s.found + [Found(path, file)];
      s.outputs := s.outputs + [out.data];
    }
  }

  lemma MultipleOf32(size: nat, n: nat)
    requires size % 32 == 0
    ensures (size * n) % 32 == 0
  {
    ProductOfMultiple(size / 32, n);
    DivModUnique(size * n, 32, size / 32 * n, 0);
  }

  lemma ProductOfMultiple(q: nat, n: nat)
    ensures 32 * q * n == 32 * (q * n)
  {
  }

  /** Is this buffer the directory that the file system has at the cluster? */
  ghost predicate IsDirectoryBuffer(dir: Option<seq<byte>>, at: Option<seq<FileInfo>>) {
    match dir
    case None => at == None
    case Some(buffer) => |buffer| % 32 == 0 && at == Some(ListingOf(buffer))
  }

  method ReadDirectory(s: Session, cluster: nat, ghost path: string, ghost fs: FileSystem)
    returns (dir: Option<seq<byte>>)
    requires InOrder(s, fs) && fs.reach(cluster, path)
    modifies s.list
    ensures InOrder(s, fs)
    ensures Advanced(old(ProgressOf(s)), ProgressOf(s), [], SpansOf(s.v, DirChain(s.v, s.disk.bytes, fs.next, cluster)), Ok)
    ensures IsDirectoryBuffer(dir, fs.dirs(cluster))
    ensures dir.Some? ==> AllReached(fs, path, ListingOf(dir.value))
  {
    ghost var prior := SpaceOf(s.list);
    ghost var chain := DirChain(s.v, s.disk.bytes, fs.next, cluster);
    assert IsProper(s.v, s.disk.bytes, fs.next, cluster);
    var inside;
    dir, inside := KfFatReadDirChain(s.disk, s.v, cluster, s.list, fs.next);
    assert inside;
    TakenOutIsLeft(prior, s.v, chain, SpaceOf(s.list));
    IsLeftShrinks(prior, SpaceOf(s.list));
    SavedStaysSaved(s.v, s.disk.bytes, s.got, fs.next, s.found, s.outputs, prior.spans, s.list.spans);
    ContentsLength(s.v, s.disk.bytes, chain);
    MultipleOf32(s.v.clusterSize, |chain|);
    assert fs.dirs(cluster) == DirectoryAt(s.v, s.disk.bytes, fs.next, cluster);
  }

  /** kf_fat_walk_dir. */
  method KfFatWalkDir(s: Session, path: string, filter: string, buffer: seq<byte>, depth: nat,
                      ghost fs: FileSystem)
    returns (status: Status)
    requires InOrder(s, fs) && fs.filter == filter && |buffer| % 32 == 0 && AllReached(fs, path, ListingOf(buffer))
    modifies s, s.list
    ensures InOrder(s, fs)
    ensures Advanced(old(ProgressOf(s)), ProgressOf(s), Walk(fs.dirs, s.text, filter, path, ListingOf(buffer), depth),
                     Gone(s.v, s.disk.bytes, fs, path, ListingOf(buffer), depth), status)
    ensures IsExcused(s, fs, status)
    decreases MAX_DIR_DEPTH + 1 - depth, 1, 0
  {
    if depth > MAX_DIR_DEPTH || buffer == [] {
      NothingAdvanced(ProgressOf(s));
      return Ok;
    }
    var files := DirFatAux(Records(buffer), NoMask);
    status := WalkListing(s, path, filter, files, depth, fs);
  }

  lemma NothingWalked(dirs: Directories, text: NameText, filter: string, path: string, depth: nat)
    ensures Walk(dirs, text, filter, path, [], depth) == []
  {
  }

  lemma WalkIsVisits(dirs: Directories, text: NameText, filter: string, path: string, files: seq<FileInfo>, depth: nat)
    requires depth <= MAX_DIR_DEPTH && files != []
    ensures Walk(dirs, text, filter, path, files, depth)
            == Visit(dirs, text, filter, path, files, depth) + Walk(dirs, text, filter, path, files[1..], depth)
  {
  }

  /** The loop over the files of a listing. */
  method WalkListing(s: Session, path: string, filter: string, files: seq<FileInfo>, depth: nat,
                     ghost fs: FileSystem)
    returns (status: Status)
    requires InOrder(s, fs) && fs.filter == filter && depth <= MAX_DIR_DEPTH && AllReached(fs, path, files)
    modifies s, s.list
    ensures InOrder(s, fs)
    ensures Advanced(old(ProgressOf(s)), ProgressOf(s), Walk(fs.dirs, s.text, filter, path, files, depth),
                     Gone(s.v, s.disk.bytes, fs, path, files, depth), status)
    ensures IsExcused(s, fs, status)
    decreases MAX_DIR_DEPTH + 1 - depth, 0, 1
  {
    hide Visit, Walk, Gone, GoneAt, Advanced;
    ghost var start := ProgressOf(s);
    ghost var whole := Walk(fs.dirs, s.text, filter, path, files, depth);
    ghost var wholeGone := Gone(s.v, s.disk.bytes, fs, path, files, depth);
    ghost var done: seq<Found>, gone: seq<Span> := [], [];
    var i := 0;
    assert files[0..] == files;
    NothingAdvanced(start);
    while i < |files|
      invariant 0 <= i <= |files|
      invariant InOrder(s, fs)
      invariant Advanced(start, ProgressOf(s), done, gone, Ok)
      invariant whole == done + Walk(fs.dirs, s.text, filter, path, files[i..], depth)
      invariant wholeGone == gone + Gone(s.v, s.disk.bytes, fs, path, files[i..], depth)
    {
      var stopped := s.stop(s.looks);
      s.looks := s.looks + 1;
      if stopped {
        StopsHere(start, ProgressOf(s), done, gone, Walk(fs.dirs, s.text, filter, path, files[i..], depth),
                  Gone(s.v, s.disk.bytes, fs, path, files[i..], depth));
        return Stopped;
      }
      WalkIsVisits(fs.dirs, s.text, filter, path, files[i..], depth);
      GoneIsSteps(s.v, s.disk.bytes, fs, path, files[i..], depth);
      assert files[i..][1..] == files[i + 1..];
      ghost var before := ProgressOf(s);
      ghost var here := Visit(fs.dirs, s.text, filter, path, files[i..], depth);
      ghost var hereGone := GoneAt(s.v, s.disk.bytes, fs, path, files[i..], depth);
      ghost var rest := Walk(fs.dirs, s.text, filter, path, files[i + 1..], depth);
      ghost var restGone := Gone(s.v, s.disk.bytes, fs, path, files[i + 1..], depth);
      status := VisitFile(s, path, filter, files[i..], depth, fs);
      AdvancesOn(start, before, ProgressOf(s), done, gone, here, hereGone, status);
      Associate(done, here, rest);
      Associate(gone, hereGone, restGone);
      if status != Ok {
        CutShort(start, ProgressOf(s), done + here, gone + hereGone, rest, restGone, status);
        return;
      }
      done, gone := done + here, gone + hereGone;
      i := i + 1;
    }
    assert files[i..] == [];
    NothingWalked(fs.dirs, s.text, filter, path, depth);
    NothingGone(s.v, s.disk.bytes, fs, path, depth);
    assert done + [] == done && gone + [] == gone;
    status := Ok;
  }

  /** A walk that stops between two files has done a part of the whole. */
  lemma StopsHere(a: Progress, b: Progress, found: seq<Found>, gone: seq<Span>, more: seq<Found>, moreGone: seq<Span>)
    requires Advanced(a, b, found, gone, Ok)
    ensures Advanced(a, b, found + more, gone + moreGone, Stopped)
  {
    CutShort(a, b, found, gone, more, moreGone, Stopped);
  }

  lemma NothingGone(v: Volume, bytes: seq<byte>, fs: FileSystem, path: string, depth: nat)
    requires 0 < v.clusterSize
    ensures Gone(v, bytes, fs, path, [], depth) == []
  {
  }

  /** The body of that loop, for the first of the files. */
  method VisitFile(s: Session, path: string, filter: string, files: seq<FileInfo>, depth: nat,
                   ghost fs: FileSystem)
    returns (status: Status)
    requires InOrder(s, fs) && fs.filter == filter && depth <= MAX_DIR_DEPTH && AllReached(fs, path, files)
    requires files != []
    modifies s, s.list
    ensures InOrder(s, fs)
    ensures Advanced(old(ProgressOf(s)), ProgressOf(s), Visit(fs.dirs, s.text, filter, path, files, depth),
                     GoneAt(s.v, s.disk.bytes, fs, path, files, depth), status)
    ensures IsExcused(s, fs, status)
    decreases MAX_DIR_DEPTH + 1 - depth, 0, 0
  {
    status := Ok;
    var file := files[0];
    var name := s.text(file.name);
    NothingAdvanced(ProgressOf(s));
    if name == "" {
      return;
    }
    if file.isDirectory {
      if name == "." || name == ".." || file.cluster == 0 {
        return;
      }
      var childPath := ChildPath(path, name);
      if Related(childPath, filter) {
        assert IsEntered(fs, path, files[0]);
        ghost var start := ProgressOf(s);
        var child := ReadDirectory(s, file.cluster, childPath, fs);
        ghost var read := ProgressOf(s);
        if child != None {
          status := KfFatWalkDir(s, childPath, filter, child.value, depth + 1, fs);
          AdvancesOn(start, read, ProgressOf(s), [], SpansOf(s.v, DirChain(s.v, s.disk.bytes, fs.next, file.cluster)),
                     Walk(fs.dirs, s.text, filter, childPath, ListingOf(child.value), depth + 1),
                     Gone(s.v, s.disk.bytes, fs, childPath, ListingOf(child.value), depth + 1), status);
        }
      }
    } else if IsWithin(filter, path) {
      status := SaveFile(s, path, file, fs);
    }
  }

  /** Where the root directory is: a cluster chain, or a fixed region in front of the clusters. */
  datatype Root = RootCluster(cluster: nat) | RootRegion(start: nat, size: nat)

  ghost predicate IsRoot(s: Session, root: Root, fs: FileSystem, listing: Option<seq<FileInfo>>)
    reads s, s.disk
  {
    match root
    case RootCluster(c) => (c >= 2 ==> fs.reach(c, "")) && listing == if c < 2 then None else fs.dirs(c)
    case RootRegion(start, size) =>
      && size % 32 == 0
      && (listing.Some? ==> AllReached(fs, "", listing.value))
      && listing == if start + size <= |s.disk.bytes| then Some(ListingOf(s.disk.bytes[start..start + size])) else None
  }

  /** The clusters that reading the root directory takes out of the search space. */
  ghost function RootGone(v: Volume, bytes: seq<byte>, fs: FileSystem, root: Root): seq<Span>
    requires 0 < v.clusterSize
  {
    match root
    case RootCluster(c) => if c < 2 then [] else SpansOf(v, DirChain(v, bytes, fs.next, c))
    case RootRegion(_, _) => []
  }

  /** kf_fat_read_root_fixed. */
  method ReadRegion(disk: Disk, start: nat, size: nat) returns (dir: Option<seq<byte>>)
    ensures dir == if start + size <= |disk.bytes| then Some(disk.bytes[start..start + size]) else None
  {
    var buffer := new byte[size](_ => 0);
    var res := disk.PreadAll(buffer, start);
    dir := if res == size then Some(buffer[..]) else None;
  }

  /** kf_fat_read_root_fixed, or the chain of the root cluster. */
  method ReadRoot(s: Session, root: Root, ghost fs: FileSystem,
                  ghost listing: Option<seq<FileInfo>>)
    returns (dir: Option<seq<byte>>)
    requires InOrder(s, fs) && IsRoot(s, root, fs, listing)
    modifies s.list
    ensures InOrder(s, fs)
    ensures Advanced(old(ProgressOf(s)), ProgressOf(s), [], RootGone(s.v, s.disk.bytes, fs, root), Ok)
    ensures IsDirectoryBuffer(dir, listing)
    ensures dir.Some? ==> AllReached(fs, "", ListingOf(dir.value))
  {
    NothingAdvanced(ProgressOf(s));
    match root {
      case RootCluster(c) =>
        if c < 2 {
          return None;
        }
        dir := ReadDirectory(s, c, "", fs);
      case RootRegion(start, size) =>
        dir := ReadRegion(s.disk, start, size);
    }
  }

  /** The files that are recovered below a root directory. */
  ghost function RootFound(fs: FileSystem, listing: Option<seq<FileInfo>>): seq<Found> {
    if listing == None then [] else Walk(fs.dirs, fs.text, fs.filter, "", listing.value, 0)
  }

  /** What is taken out of the search space: the clusters of the root directory, and then what the walk takes out. */
  ghost function AllGone(v: Volume, bytes: seq<byte>, fs: FileSystem, root: Root, listing: Option<seq<FileInfo>>): seq<Span>
    requires 0 < v.clusterSize
  {
    RootGone(v, bytes, fs, root) + if listing == None then [] else Gone(v, bytes, fs, "", listing.value, 0)
  }

  lemma NothingListed(v: Volume, bytes: seq<byte>, fs: FileSystem, root: Root)
    requires 0 < v.clusterSize
    ensures RootFound(fs, None) == [] && AllGone(v, bytes, fs, root, None) == RootGone(v, bytes, fs, root)
  {
  }

  /** Read the root directory and walk from there. */
  method WalkFromRoot(s: Session, filter: string, root: Root, ghost fs: FileSystem, ghost listing: Option<seq<FileInfo>>)
    returns (status: Status)
    requires InOrder(s, fs) && IsRoot(s, root, fs, listing) && fs.filter == filter
    modifies s, s.list
    ensures InOrder(s, fs) && IsExcused(s, fs, status)
    ensures Advanced(old(ProgressOf(s)), ProgressOf(s), RootFound(fs, listing),
                     AllGone(s.v, s.disk.bytes, fs, root, listing), status)
    ensures listing == None ==> status == Ok
  {
    hide Advanced, Gone, Walk, RootGone;
    ghost var start := ProgressOf(s);
    var dir := ReadRoot(s, root, fs, listing);
    if dir == None {
      NothingListed(s.v, s.disk.bytes, fs, root);
      return Ok;
    }
    ghost var read := ProgressOf(s);
    status := KfFatWalkDir(s, "", filter, dir.value, 0, fs);
    ghost var found := Walk(fs.dirs, s.text, filter, "", ListingOf(dir.value), 0);
    AdvancesOn(start, read, ProgressOf(s), [], RootGone(s.v, s.disk.bytes, fs, root), found,
               Gone(s.v, s.disk.bytes, fs, "", ListingOf(dir.value), 0), status);
    assert [] + found == found;
  }

  lemma MetadataGone(a: Progress, b: Progress, start: nat, end: nat)
    requires b.found == a.found && Subtracted(a.space.spans, start, end, b.space.spans)
    requires b.space.deleted == a.space.deleted + [Span(start, end)]
    ensures Advanced(a, b, [], [Span(start, end)], Ok) && Shrinks(a.space.spans, b.space.spans)
  {
    var gone := b.space.deleted[|a.space.deleted|..];
    assert gone == [Span(start, end)];
    assert forall x :: Covers(gone, x) <==> InSpan(gone[0], x);
  }

  lemma StaysUncovered(a: Progress, b: Progress, c: Progress, start: nat, end: nat, found: seq<Found>, gone: seq<Span>,
                       status: Status)
    requires Subtracted(a.space.spans, start, end, b.space.spans) && Advanced(b, c, found, gone, status)
    ensures forall x :: start <= x <= end ==> !Covers(c.space.spans, x)
  {
  }

  /** fat_unformat_dir, once the geometry is known: recover the files below a Windows style path. */
  method FatUnformatDir(s: Session, dirFilter: string, root: Root, partOffset: nat,
                        ghost fs: FileSystem, ghost listing: Option<seq<FileInfo>>)
    returns (status: Status)
    requires InOrder(s, fs) && IsRoot(s, root, fs, listing)
    requires '\0' !in dirFilter && s.found == [] && partOffset < s.v.startData
    requires fs.filter == Normalized(dirFilter, PATH_BUFFER)
    modifies s, s.list
    ensures InOrder(s, fs) && IsExcused(s, fs, status)
    ensures Advanced(old(ProgressOf(s)), ProgressOf(s), RootFound(fs, listing),
                     [Span(partOffset, s.v.startData - 1)] + AllGone(s.v, s.disk.bytes, fs, root, listing), status)
    ensures forall x :: partOffset <= x < s.v.startData ==> !Covers(s.list.spans, x)
    ensures listing == None ==> status == Ok
  {
    hide Advanced, AllGone, RootFound;
    ghost var start := ProgressOf(s);
    s.list.Del(partOffset, s.v.startData - 1);
    ghost var cleared := ProgressOf(s);
    MetadataGone(start, cleared, partOffset, s.v.startData - 1);
    SavedStaysSaved(s.v, s.disk.bytes, s.got, fs.next, s.found, s.outputs, old(s.list.spans), s.list.spans);
    var filter := new char[PATH_BUFFER];
    NormalizePath(dirFilter, filter);
    var path := CString(filter[..]);
    status := WalkFromRoot(s, path, root, fs, listing);
    AdvancesOn(start, cleared, ProgressOf(s), [], [Span(partOffset, s.v.startData - 1)], RootFound(fs, listing),
               AllGone(s.v, s.disk.bytes, fs, root, listing), status);
    assert [] + RootFound(fs, listing) == RootFound(fs, listing);
    StaysUncovered(start, cleared, ProgressOf(s), partOffset, s.v.startData - 1, RootFound(fs, listing),
                   AllGone(s.v, s.disk.bytes, fs, root, listing), status);
  }

  /**
   * However the path of a folder is spelled, in capital or small letters and with any separators, the files recovered
   * from a directory tree are exactly the regular files in the folders of that name and below them, letter case aside.
   */
  lemma FolderIsRecovered(dirs: Directories, text: NameText, lead: string, mid: string, trail: string,
                          folder: seq<string>, nodes: seq<Node>)
    requires forall i :: 0 <= i < |lead| ==> IsSeparator(lead[i])
    requires forall i :: 0 <= i < |trail| ==> IsSeparator(trail[i])
    requires AreNames(folder) && (forall i :: 0 <= i < |folder| ==> '\\' !in folder[i])
    requires SameName(Slashed(mid), Join(folder)) && |mid| < PATH_BUFFER
    requires IsTree(dirs, text, [], nodes)
    ensures Walk(dirs, text, Normalized(lead + mid + trail, PATH_BUFFER), "", Listed(nodes), 0)
            == AsFound(InFilter(folder, FilesOf(text, [], nodes)))
  {
    JoinIsNormal(folder);
    SameNameIsNormal(Slashed(mid), Join(folder));
    SpellingsAgree(lead, mid, trail, Slashed(mid), PATH_BUFFER);
    WalkRecoversFilter(dirs, text, Slashed(mid), folder, nodes);
  }
}

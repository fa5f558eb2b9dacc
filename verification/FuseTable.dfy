/**
 The file table of the clipboard's FUSE mount (src/clipboard/fuse.rs:156-182, 249-300, 497-551): two maps
 under separate locks, rebuilt by one writer while readers look names up in two steps.
 */
module FuseTable {
  import opened Common

  const FIRST_FILE_INODE := 2

  datatype Descriptor = Descriptor(filename: string, size: nat)

  datatype VirtualFile = VirtualFile(inode: nat, filename: string, size: nat, fileIndex: nat, clipDataId: Option<nat>)

  datatype Tables = Tables(files: map<nat, VirtualFile>, names: map<string, nat>, nextInode: nat)

  /** The file made from descriptor `index`; the index is cast to 32 bits. */
  function FileOf(descs: seq<Descriptor>, clip: Option<nat>, index: nat): VirtualFile
    requires index < |descs|
  {
    VirtualFile(index + FIRST_FILE_INODE, descs[index].filename, descs[index].size, index % U32_LIMIT, clip)
  }

  /** The file map after the first `k` descriptors. */
  function FilesOf(descs: seq<Descriptor>, clip: Option<nat>, k: nat): map<nat, VirtualFile>
    requires k <= |descs|
  {
    if k == 0 then map[] else FilesOf(descs, clip, k - 1)[k - 1 + FIRST_FILE_INODE := FileOf(descs, clip, k - 1)]
  }

  /** The inodes are 2 to `k + 1`, in descriptor order. */
  lemma {:induction false} InodesFollowDescriptors(descs: seq<Descriptor>, clip: Option<nat>, k: nat, inode: nat)
    requires k <= |descs|
    ensures inode in FilesOf(descs, clip, k) <==> FIRST_FILE_INODE <= inode < k + FIRST_FILE_INODE
    ensures inode in FilesOf(descs, clip, k) ==>
              FilesOf(descs, clip, k)[inode] == FileOf(descs, clip, inode - FIRST_FILE_INODE)
  {
    if k > 0 {
      InodesFollowDescriptors(descs, clip, k - 1, inode);
    }
  }

  /** After `set_files`, inode `i + 2` is the file of descriptor `i`: its name, its size, its index cut to 32
      bits, and the clipboard data it belongs to. */
  lemma FilesDescribeDescriptors(descs: seq<Descriptor>, clip: Option<nat>, i: nat)
    requires i < |descs|
    ensures i + 2 in FilesOf(descs, clip, |descs|)
    ensures var file := FilesOf(descs, clip, |descs|)[i + 2];
            && file.inode == i + 2 && file.filename == descs[i].filename && file.size == descs[i].size
            && file.clipDataId == clip && (i < 0x1_0000_0000 ==> file.fileIndex == i)
            && file.fileIndex < 0x1_0000_0000 && (i - file.fileIndex) % 0x1_0000_0000 == 0
  {
    InodesFollowDescriptors(descs, clip, |descs|, i + 2);
  }

  /** The name map after the first `k` descriptors: later descriptors overwrite earlier ones. */
  function NamesOf(descs: seq<Descriptor>, k: nat): map<string, nat>
    requires k <= |descs|
  {
    if k == 0 then map[] else NamesOf(descs, k - 1)[descs[k - 1].filename := k - 1 + FIRST_FILE_INODE]
  }

  /** Each name maps to the inode of its last descriptor. */
  lemma {:induction false} NamesMapToLast(descs: seq<Descriptor>, k: nat, name: string)
    requires k <= |descs|
    ensures name in NamesOf(descs, k) <==> exists i :: 0 <= i < k && descs[i].filename == name
    ensures name in NamesOf(descs, k) ==>
              var i := NamesOf(descs, k)[name] - FIRST_FILE_INODE;
              0 <= i < k && descs[i].filename == name && forall j :: i < j < k ==> descs[j].filename != name
  {
    if k > 0 {
      NamesMapToLast(descs, k - 1, name);
    }
  }

  /** What `read` does: an error, an empty reply, or a request to the RDP client. */
  datatype ReadOutcome = NoEntry | NoData | Fetch(fileIndex: nat, offset: nat, size: nat, clipDataId: Option<nat>)

  // ---------------------------------------------------------------- the writer's methods

  /** `PathBuf::join`: an absolute name replaces the base. */
  function Join(base: string, name: string): string {
    if name != "" && name[0] == '/' then name
    else if base == "" || base[|base| - 1] == '/' then base + name
    else base + "/" + name
  }

  /** A relative name goes below the base, after exactly one added or existing separator; an absolute name
      stands alone. */
  lemma JoinedPath(base: string, name: string)
    ensures "/" <= name ==> Join(base, name) == name
    ensures !("/" <= name) && (base == "" || exists b :: base == b + "/") ==> Join(base, name) == base + name
    ensures !("/" <= name) && base != "" && !(exists b :: base == b + "/") ==> Join(base, name) == base + "/" + name
  {
    if base != "" && base[|base| - 1] == '/' {
      assert base == base[..|base| - 1] + "/";
    }
  }

  lemma {:induction false} PathOfDescriptor(base: string, descs: seq<Descriptor>, k: nat, i: nat)
    requires i < k <= |descs|
    ensures |PathsOf(base, descs, k)| == k && PathsOf(base, descs, k)[i] == Join(base, descs[i].filename)
    decreases k
  {
    if k > 1 {
      PathOfDescriptor(base, descs, k - 1, if i < k - 1 then i else 0);
    }
  }

  /** The paths of the first `k` descriptors. */
  function PathsOf(base: string, descs: seq<Descriptor>, k: nat): seq<string>
    requires k <= |descs|
  {
    if k == 0 then [] else PathsOf(base, descs, k - 1) + [Join(base, descs[k - 1].filename)]
  }

  class FuseMount {
    const mountPoint: string
    var files: map<nat, VirtualFile>
    var nameToInode: map<string, nat>
    var nextInode: nat

    function Abs(): Tables
      reads this
    {
      Tables(files, nameToInode, nextInode)
    }

    constructor (mountPoint: string)
      ensures Abs() == Tables(map[], map[], FIRST_FILE_INODE) && this.mountPoint == mountPoint
    {
      this.mountPoint := mountPoint;
      files, nameToInode, nextInode := map[], map[], FIRST_FILE_INODE;
    }

    /** `set_files`: inodes 2 to n + 1 in descriptor order, each name on its last descriptor, and one path
        per descriptor. */
    method SetFiles(descs: seq<Descriptor>, clip: Option<nat>) returns (paths: seq<string>)
      modifies this
      ensures Abs() == Tables(FilesOf(descs, clip, |descs|), NamesOf(descs, |descs|), |descs| + FIRST_FILE_INODE)
      ensures paths == PathsOf(mountPoint, descs, |descs|)
    {
      files, nameToInode := map[], map[];
      nextInode := FIRST_FILE_INODE;
      paths := [];
      for index := 0 to |descs|
        invariant Abs() == Tables(FilesOf(descs, clip, index), NamesOf(descs, index), index + FIRST_FILE_INODE)
        invariant paths == PathsOf(mountPoint, descs, index)
      {
        var desc := descs[index];
        var inode := nextInode;
        nextInode := nextInode + 1;
        var file := VirtualFile(inode, desc.filename, desc.size, index % U32_LIMIT, clip);
        files := files[inode := file];
        nameToInode := nameToInode[desc.filename := inode];
        paths := paths + [Join(mountPoint, desc.filename)];
      }
    }

    method ClearFiles()
      modifies this
      ensures Abs() == Tables(map[], map[], FIRST_FILE_INODE)
    {
      files, nameToInode := map[], map[];
      nextInode := FIRST_FILE_INODE;
    }

    /** `read`: never asks for bytes past the end of the file, and asks for fewer than requested only
        there. */
    method Read(inode: nat, offset: nat, size: nat) returns (r: ReadOutcome)
      requires size < U32_LIMIT
      ensures r.NoEntry? <==> inode !in files
      ensures r.NoData? <==> inode in files && offset >= files[inode].size
      ensures r.Fetch? ==>
                && r.fileIndex == files[inode].fileIndex && r.clipDataId == files[inode].clipDataId && r.offset == offset
                && r.size <= size && offset + r.size <= files[inode].size
                && (r.size < size ==> offset + r.size == files[inode].size)
    {
      if inode !in files {
        return NoEntry;
      }
      var file := files[inode];
      if offset >= file.size {
        return NoData;
      }
      var readSize := Min(size, file.size - offset) % U32_LIMIT;
      return Fetch(file.fileIndex, offset, readSize, file.clipDataId);
    }
  }

  // ---------------------------------------------------------------- interleavings

  /** Where the writer is between two lock releases. */
  datatype Writer =
    | Idle
    | Cleared(descs: seq<Descriptor>, clip: Option<nat>)
    | Filling(descs: seq<Descriptor>, clip: Option<nat>, k: nat)
    | Allocated(descs: seq<Descriptor>, clip: Option<nat>, k: nat, inode: nat)
    | FileInserted(descs: seq<Descriptor>, clip: Option<nat>, k: nat, inode: nat)

  /** A lookup in progress: the name and the inode read under the first lock. */
  datatype Lookup = Lookup(name: string, inode: nat)

  datatype System = System(tables: Tables, writer: Writer, lookups: map<nat, Lookup>)

  /** One atomic step: what a thread does while it holds its locks. */
  datatype Step =
    | BeginSet(descs: seq<Descriptor>, clip: Option<nat>)
    | ResetCounter
    | Allocate
    | InsertFile
    | InsertName
    | FinishSet
    | ClearAll
    | ReadName(reader: nat, name: string)
    | ReadFile(reader: nat)

  predicate Enabled(s: System, step: Step) {
    match step
    case BeginSet(_, _) => s.writer.Idle?
    case ResetCounter => s.writer.Cleared?
    case Allocate => s.writer.Filling? && s.writer.k < |s.writer.descs|
    case InsertFile => s.writer.Allocated? && s.writer.k < |s.writer.descs|
    case InsertName => s.writer.FileInserted? && s.writer.k < |s.writer.descs|
    case FinishSet => s.writer.Filling? && s.writer.k == |s.writer.descs|
    case ClearAll => s.writer.Idle?
    case ReadName(_, _) => true
    case ReadFile(reader) => reader in s.lookups
  }

  function Next(s: System, step: Step): System
    requires Enabled(s, step)
  {
    var t, w := s.tables, s.writer;
    match step
    case BeginSet(descs, clip) => s.(tables := Tables(map[], map[], t.nextInode), writer := Cleared(descs, clip))
    case ResetCounter => s.(tables := t.(nextInode := FIRST_FILE_INODE), writer := Filling(w.descs, w.clip, 0))
    case Allocate =>
      s.(tables := t.(nextInode := t.nextInode + 1), writer := Allocated(w.descs, w.clip, w.k, t.nextInode))
    case InsertFile =>
      var file := VirtualFile(w.inode, w.descs[w.k].filename, w.descs[w.k].size, w.k % U32_LIMIT, w.clip);
      s.(tables := t.(files := t.files[w.inode := file]), writer := FileInserted(w.descs, w.clip, w.k, w.inode))
    case InsertName =>
      s.(tables := t.(names := t.names[w.descs[w.k].filename := w.inode]), writer := Filling(w.descs, w.clip, w.k + 1))
    case FinishSet => s.(writer := Idle)
    case ClearAll => s.(tables := Tables(map[], map[], FIRST_FILE_INODE))
    case ReadName(reader, name) =>
      if name in t.names then s.(lookups := s.lookups[reader := Lookup(name, t.names[name])]) else s
    case ReadFile(reader) => s.(lookups := s.lookups - {reader})
  }

  /** What `ReadFile` replies to the kernel. */
  function Reply(s: System, reader: nat): Option<VirtualFile>
    requires reader in s.lookups
  {
    var inode := s.lookups[reader].inode;
    if inode in s.tables.files then Some(s.tables.files[inode]) else None
  }

  /** Each mapped name points to a present file of that name, and every file is stored under its inode. */
  ghost predicate Consistent(t: Tables) {
    && (forall n :: n in t.names ==> t.names[n] in t.files && t.files[t.names[n]].filename == n)
    && (forall i :: i in t.files ==> t.files[i].inode == i)
  }

  /** The tables match the writer's position. */
  ghost predicate Invariant(s: System) {
    && Consistent(s.tables)
    && match s.writer
       case Idle => true
       case Cleared(_, _) => s.tables.files == map[] && s.tables.names == map[]
       case Filling(descs, clip, k) =>
         k <= |descs| && s.tables == Tables(FilesOf(descs, clip, k), NamesOf(descs, k), k + FIRST_FILE_INODE)
       case Allocated(descs, clip, k, inode) =>
         k < |descs| && inode == k + FIRST_FILE_INODE
         && s.tables == Tables(FilesOf(descs, clip, k), NamesOf(descs, k), k + 1 + FIRST_FILE_INODE)
       case FileInserted(descs, clip, k, inode) =>
         k < |descs| && inode == k + FIRST_FILE_INODE
         && s.tables == Tables(FilesOf(descs, clip, k + 1), NamesOf(descs, k), k + 1 + FIRST_FILE_INODE)
  }

  lemma {:induction false} FilledIsConsistent(descs: seq<Descriptor>, clip: Option<nat>, files: nat, names: nat, next: nat)
    requires names <= files <= |descs|
    ensures Consistent(Tables(FilesOf(descs, clip, files), NamesOf(descs, names), next))
  {
    forall n | n in NamesOf(descs, names)
      ensures NamesOf(descs, names)[n] in FilesOf(descs, clip, files)
      ensures FilesOf(descs, clip, files)[NamesOf(descs, names)[n]].filename == n
    {
      NamesMapToLast(descs, names, n);
      InodesFollowDescriptors(descs, clip, files, NamesOf(descs, names)[n]);
    }
    forall i | i in FilesOf(descs, clip, files)
      ensures FilesOf(descs, clip, files)[i].inode == i
    {
      InodesFollowDescriptors(descs, clip, files, i);
    }
  }

  lemma {:induction false} AllocateKeeps(s: System)
    requires Invariant(s) && Enabled(s, Allocate)
    ensures Invariant(Next(s, Allocate))
  {
  }

  lemma {:induction false} InsertFileKeeps(s: System)
    requires Invariant(s) && Enabled(s, InsertFile)
    ensures Invariant(Next(s, InsertFile))
  {
    FilledIsConsistent(s.writer.descs, s.writer.clip, s.writer.k + 1, s.writer.k, s.tables.nextInode);
  }

  lemma {:induction false} InsertNameKeeps(s: System)
    requires Invariant(s) && Enabled(s, InsertName)
    ensures Invariant(Next(s, InsertName))
  {
  }

  /** Every atomic step keeps the invariant, so it holds at every lock release of every interleaving. */
  lemma {:induction false} StepKeepsInvariant(s: System, step: Step)
    requires Invariant(s) && Enabled(s, step)
    ensures Invariant(Next(s, step))
  {
    match step
    case Allocate => AllocateKeeps(s);
    case InsertFile => InsertFileKeeps(s);
    case InsertName => InsertNameKeeps(s);
    case _ =>
  }

  ghost predicate Runs(s: System, steps: seq<Step>, t: System)
    decreases |steps|
  {
    if steps == [] then s == t else Enabled(s, steps[0]) && Runs(Next(s, steps[0]), steps[1..], t)
  }

  /** With one writer and any interleaving of readers, at every lock release each mapped name points to a
      present file of that name. */
  lemma {:induction false} NamesAlwaysPointToTheirFile(s: System, steps: seq<Step>, t: System)
    requires Invariant(s) && Runs(s, steps, t)
    ensures Invariant(t) && Consistent(t.tables)
    decreases |steps|
  {
    if steps != [] {
      StepKeepsInvariant(s, steps[0]);
      NamesAlwaysPointToTheirFile(Next(s, steps[0]), steps[1..], t);
    }
  }

  // ---------------------------------------------------------------- two-step lookups

  predicate NotBy(step: Step, reader: nat) {
    !(step.ReadName? && step.reader == reader) && !(step.ReadFile? && step.reader == reader)
  }

  /** What the writer did between the two reads of a lookup, as far as the file map is concerned: nothing
      was removed, or everything was, or the latest `set_files` has since inserted `inserted` files. */
  datatype Since = Kept | Emptied | Rebuilt(descs: seq<Descriptor>, clip: Option<nat>, inserted: nat)

  function After(since: Since, step: Step): Since {
    match step
    case BeginSet(descs, clip) => Rebuilt(descs, clip, 0)
    case ClearAll => Emptied
    case InsertFile => if since.Rebuilt? then since.(inserted := since.inserted + 1) else since
    case _ => since
  }

  function AfterAll(since: Since, steps: seq<Step>): Since
    decreases |steps|
  {
    if steps == [] then since else AfterAll(After(since, steps[0]), steps[1..])
  }

  function Inserts(steps: seq<Step>): nat {
    if steps == [] then 0 else (if steps[0].InsertFile? then 1 else 0) + Inserts(steps[1..])
  }

  predicate KeepsFiles(steps: seq<Step>) {
    forall i :: 0 <= i < |steps| ==> !steps[i].BeginSet? && !steps[i].ClearAll?
  }

  lemma {:induction false} AfterKeeping(since: Since, steps: seq<Step>)
    requires KeepsFiles(steps)
    ensures AfterAll(since, steps)
         == if since.Rebuilt? then since.(inserted := since.inserted + Inserts(steps)) else since
    decreases |steps|
  {
    if steps != [] {
      AfterKeeping(After(since, steps[0]), steps[1..]);
    }
  }

  /** `AfterAll` in closed form: it depends on the latest step that removes files, and on the number of
      `InsertFile` steps after it. */
  lemma {:induction false} LatestRemovalDecides(since: Since, steps: seq<Step>, b: nat)
    requires b < |steps| && KeepsFiles(steps[b + 1..])
    ensures steps[b].BeginSet? ==>
              AfterAll(since, steps) == Rebuilt(steps[b].descs, steps[b].clip, Inserts(steps[b + 1..]))
    ensures steps[b].ClearAll? ==> AfterAll(since, steps) == Emptied
    decreases b
  {
    if b == 0 {
      AfterKeeping(After(since, steps[0]), steps[1..]);
    } else {
      assert steps[1..][b..] == steps[b + 1..];
      LatestRemovalDecides(After(since, steps[0]), steps[1..], b - 1);
    }
  }

  /** The file map and the writer's position agree with what the writer did. */
  ghost predicate Agrees(s: System, since: Since, l: Lookup) {
    match since
    case Kept => l.inode in s.tables.files && s.tables.files[l.inode].filename == l.name && !s.writer.Cleared?
    case Emptied => s.tables.files == map[] && s.writer.Idle?
    case Rebuilt(descs, clip, m) =>
      && m <= |descs| && s.tables.files == FilesOf(descs, clip, m)
      && match s.writer
         case Idle => m == |descs|
         case Cleared(d, c) => (d, c, m) == (descs, clip, 0)
         case Filling(d, c, k) => (d, c, k) == (descs, clip, m)
         case Allocated(d, c, k, _) => (d, c, k) == (descs, clip, m)
         case FileInserted(d, c, k, _) => (d, c, k + 1) == (descs, clip, m)
  }

  lemma {:induction false} StepAgrees(s: System, step: Step, since: Since, l: Lookup)
    requires Invariant(s) && Enabled(s, step) && Agrees(s, since, l)
    ensures Agrees(Next(s, step), After(since, step), l)
  {
    if step.InsertFile? {
      InodesFollowDescriptors(s.writer.descs, s.writer.clip, s.writer.k, s.writer.inode);
    }
  }

  lemma {:induction false} RunAgrees(s: System, steps: seq<Step>, t: System, reader: nat, since: Since, l: Lookup)
    requires Invariant(s) && Runs(s, steps, t) && reader in s.lookups && s.lookups[reader] == l && Agrees(s, since, l)
    requires forall i :: 0 <= i < |steps| ==> NotBy(steps[i], reader)
    ensures reader in t.lookups && t.lookups[reader] == l && Agrees(t, AfterAll(since, steps), l)
    decreases |steps|
  {
    if steps != [] {
      StepKeepsInvariant(s, steps[0]);
      StepAgrees(s, steps[0], since, l);
      RunAgrees(Next(s, steps[0]), steps[1..], t, reader, After(since, steps[0]), l);
    }
  }

  /** The latest `set_files` between the reads has already put a file at this inode. */
  predicate Reuses(since: Since, inode: nat) {
    since.Rebuilt? && FIRST_FILE_INODE <= inode < FIRST_FILE_INODE + since.inserted <= FIRST_FILE_INODE + |since.descs|
  }

  /** What a lookup replies, on every interleaving: the file of the requested name if nothing was removed
      between its two reads, and otherwise the descriptor that now has its inode, if there is one. */
  lemma LookupReply(s: System, reader: nat, name: string, steps: seq<Step>, t: System, since: Since)
    requires Invariant(s) && name in s.tables.names && Runs(Next(s, ReadName(reader, name)), steps, t)
    requires forall i :: 0 <= i < |steps| ==> NotBy(steps[i], reader)
    requires since == AfterAll(Kept, steps)
    ensures reader in t.lookups
    ensures since.Rebuilt? ==> since.inserted <= |since.descs|
    ensures var inode := s.tables.names[name];
            if since.Kept? then Reply(t, reader).Some? && Reply(t, reader).value.filename == name
            else if Reuses(since, inode) then
              Reply(t, reader) == Some(FileOf(since.descs, since.clip, inode - FIRST_FILE_INODE))
            else Reply(t, reader) == None
  {
    var s' := Next(s, ReadName(reader, name));
    var l := s'.lookups[reader];
    StepKeepsInvariant(s, ReadName(reader, name));
    assert !s.writer.Cleared?;
    RunAgrees(s', steps, t, reader, Kept, l);
    if since.Rebuilt? {
      InodesFollowDescriptors(since.descs, since.clip, since.inserted, l.inode);
    }
  }

  /** A lookup replies with a file of another name if and only if the latest `set_files` that began between
      its two reads has inserted a descriptor of another name at the inode it read. */
  lemma LookupMistakesIff(s: System, reader: nat, name: string, steps: seq<Step>, t: System, since: Since)
    requires Invariant(s) && name in s.tables.names && Runs(Next(s, ReadName(reader, name)), steps, t)
    requires forall i :: 0 <= i < |steps| ==> NotBy(steps[i], reader)
    requires since == AfterAll(Kept, steps)
    ensures reader in t.lookups
    ensures Reply(t, reader).Some? && Reply(t, reader).value.filename != name
       <==> Reuses(since, s.tables.names[name])
            && since.descs[s.tables.names[name] - FIRST_FILE_INODE].filename != name
  {
    LookupReply(s, reader, name, steps, t, since);
  }

  // ---------------------------------------------------------------- which set_files is harmful

  /** These steps between the reads of a lookup, the first of them the start of a `set_files`, end in `t`,
      and the lookup then replies with a file of another name. */
  ghost predicate Mistakes(s: System, reader: nat, name: string, steps: seq<Step>, t: System) {
    && Enabled(s, ReadName(reader, name)) && Runs(Next(s, ReadName(reader, name)), steps, t)
    && steps != [] && steps[0].BeginSet? && KeepsFiles(steps[1..])
    && (forall i :: 0 <= i < |steps| ==> NotBy(steps[i], reader))
    && reader in t.lookups && Reply(t, reader).Some? && Reply(t, reader).value.filename != name
  }

  /** The descriptor that gets the inode has another name. */
  predicate Clashes(descs: seq<Descriptor>, inode: nat, name: string) {
    FIRST_FILE_INODE <= inode < FIRST_FILE_INODE + |descs| && descs[inode - FIRST_FILE_INODE].filename != name
  }

  lemma {:induction false} RunsConcat(s: System, a: seq<Step>, t: System, b: seq<Step>, u: System)
    requires Runs(s, a, t) && Runs(t, b, u)
    ensures Runs(s, a + b, u)
    decreases |a|
  {
    if a == [] {
      assert a + b == b;
    } else {
      assert (a + b)[0] == a[0] && (a + b)[1..] == a[1..] + b;
      RunsConcat(Next(s, a[0]), a[1..], t, b, u);
    }
  }

  /** One atomic step as a run. */
  lemma OneStep(s: System, step: Step)
    requires Enabled(s, step)
    ensures Runs(s, [step], Next(s, step))
  {
    assert [step][1..] == [];
  }

  /** The steps that insert one descriptor. */
  lemma {:induction false} InsertOne(s: System) returns (t: System)
    requires Invariant(s) && s.writer.Filling? && s.writer.k < |s.writer.descs|
    ensures Runs(s, [Allocate, InsertFile, InsertName], t) && Invariant(t) && t.lookups == s.lookups
    ensures t.writer == Filling(s.writer.descs, s.writer.clip, s.writer.k + 1)
  {
    var s1 := Next(s, Allocate);
    var s2 := Next(s1, InsertFile);
    t := Next(s2, InsertName);
    StepKeepsInvariant(s, Allocate);
    StepKeepsInvariant(s1, InsertFile);
    StepKeepsInvariant(s2, InsertName);
    OneStep(s, Allocate);
    OneStep(s1, InsertFile);
    OneStep(s2, InsertName);
    RunsConcat(s, [Allocate], s1, [InsertFile], s2);
    RunsConcat(s, [Allocate] + [InsertFile], s2, [InsertName], t);
    assert [Allocate] + [InsertFile] + [InsertName] == [Allocate, InsertFile, InsertName];
  }

  predicate Inserting(steps: seq<Step>) {
    forall i :: 0 <= i < |steps| ==> steps[i].ResetCounter? || steps[i].Allocate? || steps[i].InsertFile? || steps[i].InsertName?
  }

  /** The writer can go on until it has inserted `k` descriptors. */
  lemma {:induction false} FillTo(s: System, k: nat) returns (steps: seq<Step>, t: System)
    requires Invariant(s) && s.writer.Filling? && s.writer.k <= k <= |s.writer.descs|
    ensures Runs(s, steps, t) && Invariant(t) && t.lookups == s.lookups && Inserting(steps)
    ensures t.writer == Filling(s.writer.descs, s.writer.clip, k)
    decreases k - s.writer.k
  {
    if s.writer.k == k {
      steps, t := [], s;
    } else {
      var next := InsertOne(s);
      var rest;
      rest, t := FillTo(next, k);
      steps := [Allocate, InsertFile, InsertName] + rest;
      RunsConcat(s, [Allocate, InsertFile, InsertName], next, rest, t);
    }
  }

  /** A writer that starts `set_files` can go on until it has inserted `k` descriptors. */
  lemma {:induction false} BeginAndFill(s: System, descs: seq<Descriptor>, clip: Option<nat>, k: nat)
    returns (steps: seq<Step>, t: System)
    requires Invariant(s) && s.writer.Idle? && k <= |descs|
    ensures steps != [] && steps[0] == BeginSet(descs, clip) && Inserting(steps[1..])
    ensures Runs(s, steps, t) && Invariant(t) && t.lookups == s.lookups && t.writer == Filling(descs, clip, k)
  {
    var begun := Next(s, BeginSet(descs, clip));
    var reset := Next(begun, ResetCounter);
    StepKeepsInvariant(s, BeginSet(descs, clip));
    StepKeepsInvariant(begun, ResetCounter);
    var fill;
    fill, t := FillTo(reset, k);
    steps := [BeginSet(descs, clip), ResetCounter] + fill;
    assert steps[1..] == [ResetCounter] + fill && steps[1..][1..] == fill;
    assert Runs(begun, steps[1..], t);
  }

  /** A `set_files` whose descriptors clash with the inode that a lookup has read can make it reply with
      another name. */
  lemma {:induction false} ClashCanMistake(s: System, reader: nat, name: string, descs: seq<Descriptor>, clip: Option<nat>)
    returns (steps: seq<Step>, t: System)
    requires Invariant(s) && s.writer.Idle? && name in s.tables.names && Clashes(descs, s.tables.names[name], name)
    ensures steps != [] && steps[0] == BeginSet(descs, clip) && Mistakes(s, reader, name, steps, t)
  {
    var inode := s.tables.names[name];
    StepKeepsInvariant(s, ReadName(reader, name));
    steps, t := BeginAndFill(Next(s, ReadName(reader, name)), descs, clip, inode - 1);
    InodesFollowDescriptors(descs, clip, inode - 1, inode);
    forall i | 0 <= i < |steps|
      ensures NotBy(steps[i], reader)
    {
      assert i > 0 ==> steps[i] == steps[1..][i - 1];
    }
  }

  /** Starting `set_files` between the reads of a lookup can make it reply with another name if and only
      if the new descriptor list has a descriptor of another name at the position of the inode. */
  lemma SetFilesIsHarmfulIff(s: System, reader: nat, name: string, descs: seq<Descriptor>, clip: Option<nat>)
    requires Invariant(s) && s.writer.Idle? && name in s.tables.names
    ensures (exists steps, t :: Mistakes(s, reader, name, steps, t) && steps[0] == BeginSet(descs, clip))
       <==> Clashes(descs, s.tables.names[name], name)
  {
    if Clashes(descs, s.tables.names[name], name) {
      var steps, t := ClashCanMistake(s, reader, name, descs, clip);
    }
    forall steps, t | Mistakes(s, reader, name, steps, t) && steps[0] == BeginSet(descs, clip)
      ensures Clashes(descs, s.tables.names[name], name)
    {
      LatestRemovalDecides(Kept, steps, 0);
      LookupMistakesIff(s, reader, name, steps, t, AfterAll(Kept, steps));
    }
  }

  /** A lookup whose two reads have no start of `set_files` between them replies with a file of the
      requested name, or with none after a `clear_files`. */
  lemma LookupFindsRequestedName(s: System, reader: nat, name: string, steps: seq<Step>, t: System)
    requires Invariant(s) && name in s.tables.names && Runs(Next(s, ReadName(reader, name)), steps, t)
    requires forall i :: 0 <= i < |steps| ==> NotBy(steps[i], reader) && !steps[i].BeginSet?
    ensures reader in t.lookups
    ensures if exists i :: 0 <= i < |steps| && steps[i].ClearAll? then Reply(t, reader).None?
            else Reply(t, reader).Some? && Reply(t, reader).value.filename == name
  {
    LookupReply(s, reader, name, steps, t, AfterAll(Kept, steps));
    WithoutSet(Kept, steps);
  }

  lemma {:induction false} WithoutSet(since: Since, steps: seq<Step>)
    requires !since.Rebuilt? && forall i :: 0 <= i < |steps| ==> !steps[i].BeginSet?
    ensures AfterAll(since, steps)
         == if since.Emptied? || exists i :: 0 <= i < |steps| && steps[i].ClearAll? then Emptied else Kept
    decreases |steps|
  {
    if steps != [] {
      WithoutSet(After(since, steps[0]), steps[1..]);
      if exists i :: 0 <= i < |steps| && steps[i].ClearAll? {
        var i :| 0 <= i < |steps| && steps[i].ClearAll?;
        assert i > 0 ==> steps[1..][i - 1].ClearAll?;
      }
    }
  }

  /** Such a mistake happens: a `set_files` between the two reads reuses inode 2, and the lookup of "a"
      replies with the file "b". */
  lemma ReusedInodeAnswersWrongName(s: System, t: System)
    requires s == System(Tables(map[2 := VirtualFile(2, "a", 1, 0, None)], map["a" := 2], 3), Idle, map[])
    requires Runs(Next(s, ReadName(0, "a")),
                  [BeginSet([Descriptor("b", 1)], None), ResetCounter, Allocate, InsertFile], t)
    ensures Invariant(s)
    ensures 0 in t.lookups && t.lookups[0].name == "a" && Reply(t, 0).Some? && Reply(t, 0).value.filename == "b"
  {
  }
}

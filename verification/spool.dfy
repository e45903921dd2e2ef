/** The spool and the filesystem around it, reduced to a finite map from path
    to content plus a set of directories, together with the system calls the
    core makes on it. Whether a call the map cannot decide succeeds (mkdir,
    rename, remove, create, TempFile) is an input: a set of paths where it fails. */
module Spool {
  import opened Common
  import Naming

  datatype FS = FS(files: map<Path, Bytes>, dirs: set<Path>) {
    /** Every path os.Stat reports as existing. */
    function Names(): set<Path> {
      files.Keys + dirs
    }
  }

  datatype Faults = Faults(
    mkdirFails: set<Path>,
    tempFails: set<Path>,
    renameFails: set<Path>,
    removeFails: set<Path>,
    createFails: set<Path>
  )

  /** The outcome of one system call on the file system. */
  datatype Sys = Sys(ok: bool, fs: FS)

  /** os.MkdirAll(dir). */
  function MkdirAll(fs: FS, faults: Faults, dir: Path): Sys {
    if dir in faults.mkdirFails then Sys(false, fs) else Sys(true, fs.(dirs := fs.dirs + {dir}))
  }

  /** os.Remove(p): fails when p is missing or the system refuses. */
  function Remove(fs: FS, faults: Faults, p: Path): Sys {
    if p in fs.files && p !in faults.removeFails then Sys(true, fs.(files := fs.files - {p}))
    else Sys(false, fs)
  }

  /** os.Rename(from, to). */
  function Rename(fs: FS, faults: Faults, from: Path, to: Path): Sys {
    if from in fs.files && to !in faults.renameFails then
      Sys(true, fs.(files := (fs.files - {from})[to := fs.files[from]]))
    else Sys(false, fs)
  }

  /** os.Create(p) followed by Close: an empty file, truncating any old one. */
  function CreateEmpty(fs: FS, faults: Faults, p: Path): Sys {
    if p in faults.createFails then Sys(false, fs) else Sys(true, fs.(files := fs.files[p := []]))
  }

  /** The name ioutil.TempFile(dir, prefix) creates: the prefix under `dir`
      followed by nine decimal digits, never a name that exists. The library
      draws the digits at random until the name is free; the model takes the
      smallest free nine-digit number, one of the draws it may make. */
  function TempName(fs: FS, paths: PathOps, dir: Path, prefix: string): (r: Path)
    ensures r !in fs.Names()
    ensures exists n: nat :: r == paths.join(dir, prefix) + Naming.TempSuffix(n)
    ensures |fs.Names()| < 1_000_000_000 ==>
      exists n: nat :: n < 1_000_000_000 && r == paths.join(dir, prefix) + Naming.Digits(n, 9)
    ensures |r| >= |paths.join(dir, prefix)| + 9
  {
    var base := paths.join(dir, prefix);
    var n := Naming.FreeIndex(fs.Names(), Naming.Padded, base);
    Naming.Probe(Naming.Padded, base, n)
  }

  /** The temporary file never takes the bare prefix nor the prefix followed
      by a counter of fewer than nine digits, so a file delivered or
      reassembled under such a name is not displaced by it. */
  lemma TempNameAvoids(fs: FS, paths: PathOps, dir: Path, prefix: string, k: nat)
    requires k < 100_000_000
    ensures TempName(fs, paths, dir, prefix) != paths.join(dir, prefix)
    ensures TempName(fs, paths, dir, prefix) != paths.join(dir, prefix) + Naming.Itoa(k)
  {
    assert Naming.Pow10(8) == 100_000_000;
    Naming.ItoaShort(k, 8);
  }

  /** Creating the temporary file leaves the destination probing alone
      whenever the destination it would pick is shorter than the temporary
      name: a file named like the prefix, or like the prefix and a short
      counter, still lands where it would in a directory without the
      temporary file. */
  lemma TempNameKeepsDestination(fs: FS, paths: PathOps, dir: Path, prefix: string, orig: Path)
    requires |Naming.FreeName(fs.Names(), orig)| < |paths.join(dir, prefix)| + 9
    ensures Naming.FreeName(fs.Names() + {TempName(fs, paths, dir, prefix)}, orig)
         == Naming.FreeName(fs.Names(), orig)
  {
    Naming.FreeNameIgnores(fs.Names(), orig, TempName(fs, paths, dir, prefix));
  }

  /** A packet named like the prefix, arriving beside a file of that name
      when the name followed by 0 is free, lands at the name followed by 0. */
  lemma TempNameKeepsSecondCopy(fs: FS, paths: PathOps, dir: Path, prefix: string)
    requires paths.join(dir, prefix) in fs.Names()
    requires paths.join(dir, prefix) + "0" !in fs.Names()
    ensures Naming.FreeName(fs.Names() + {TempName(fs, paths, dir, prefix)}, paths.join(dir, prefix))
         == paths.join(dir, prefix) + "0"
  {
    var base := paths.join(dir, prefix);
    Naming.FreeNameSecond(fs.Names(), base);
    TempNameKeepsDestination(fs, paths, dir, prefix, base);
  }

  /** A packet named like the prefix followed by 0 lands at that name in a
      directory that does not hold it. */
  lemma TempNameKeepsCounterName(fs: FS, paths: PathOps, dir: Path, prefix: string)
    requires paths.join(dir, prefix) + "0" !in fs.Names()
    ensures Naming.FreeName(fs.Names() + {TempName(fs, paths, dir, prefix)}, paths.join(dir, prefix) + "0")
         == paths.join(dir, prefix) + "0"
  {
    TempNameKeepsDestination(fs, paths, dir, prefix, paths.join(dir, prefix) + "0");
  }

  /** Files outside `except` are still there with the same content. */
  predicate Untouched(before: FS, after: FS, except: set<Path>) {
    forall p :: p in before.files && p !in except ==> p in after.files && after.files[p] == before.files[p]
  }

  lemma UntouchedTrans(a: FS, b: FS, c: FS, e1: set<Path>, e2: set<Path>)
    requires Untouched(a, b, e1) && Untouched(b, c, e2)
    ensures Untouched(a, c, e1 + e2)
  {
  }

  /** The envelope header fields a job exposes before decryption. */
  datatype PktEnc = PktEnc(sender: NodeId, nice: uint8)

  /** One queued packet as Ctx.Jobs yields it: its spool path, envelope header,
      size on disk, the digest recorded for it, and what reading it yields
      (None when reading fails). */
  datatype Job = Job(path: Path, enc: PktEnc, size: int, hshValue: Digest, content: Option<Bytes>)
}

/** Reassembly of chunked files (cmd/nncp-reass): a meta file NAME.nncp.meta
    lists the digests of the chunks NAME.nncp.part0, NAME.nncp.part1, ...
    lying beside it. process checks the meta, the presence and size of every
    chunk and every digest, and only then concatenates the chunks into a
    fresh destination (or standard output), removing chunks and meta unless
    asked to keep them. main chooses between one meta file, the incoming
    directory of one node, and those of all nodes. */
module Reass {
  import opened Common
  import opened Spool
  import Naming
  import Cfg

  const ChunkedSuffixMeta: string := ".nncp.meta"
  const ChunkedSuffixPart: string := ".nncp.part"
  const ReassTempPrefix: string := "nncp-reass"

  /** The decoded meta file: a magic tag, the size of the whole file, the size
      of every chunk but the last, and one digest per chunk. */
  datatype ChunkedMeta = ChunkedMeta(magic: Bytes, fileSize: uint64, chunkSize: uint64, checksums: seq<Digest>)

  /** What process and findMetas call but do not define: path functions, the
      XDR unmarshal of a meta file (None on error), the expected magic tag
      MagicNNCPMv1, BLAKE2b-256, and a directory listing (None when the
      directory cannot be opened or read), which sees the current file system. */
  datatype Host = Host(
    paths: PathOps,
    unmarshal: Bytes -> Option<ChunkedMeta>,
    magic: Bytes,
    digest: Bytes -> Digest,
    list: (FS, Path) -> Option<seq<string>>
  )

  datatype Options = Options(keep: bool, dryRun: bool, stdout: bool, dumpMeta: bool)

  /** process either brings the program down (log.Fatalln or a runtime panic)
      or returns its verdict, leaving the file system `fs` behind and having
      written `out` to standard output. */
  datatype Outcome =
    | Fatal(fs: FS)
    | Processed(ok: bool, fs: FS, out: Bytes)

  function ExitFs(o: Outcome): FS {
    match o
    case Fatal(fs) => fs
    case Processed(_, fs, _) => fs
  }

  // ---------------------------------------------------------------- naming

  /** The file name of chunk i of the file `mainName`. */
  function ChunkName(mainName: string, i: nat): string {
    mainName + ChunkedSuffixPart + Naming.Itoa(i)
  }

  /** The chunk paths beside the meta file, one per recorded digest. */
  function ChunkPaths(paths: PathOps, mainDir: Path, mainName: string, n: nat): seq<Path> {
    seq(n, i requires 0 <= i < n => paths.join(mainDir, ChunkName(mainName, i)))
  }

  /** A chunk name starts with the main name and the part suffix, and the
      index can be read back from the rest; so no two chunks share a name. */
  lemma ChunkNameIndex(mainName: string, i: nat)
    ensures var name, k := ChunkName(mainName, i), |mainName + ChunkedSuffixPart|;
      && k < |name|
      && name[..k] == mainName + ChunkedSuffixPart
      && Naming.AllDigits(name[k..])
      && Naming.ParseNat(name[k..]) == i
  {
    var name, k := ChunkName(mainName, i), |mainName + ChunkedSuffixPart|;
    assert name[k..] == Naming.Itoa(i);
    Naming.ParseItoa(i);
  }

  lemma ChunkNamesDistinct(mainName: string, i: nat, j: nat)
    requires i != j
    ensures ChunkName(mainName, i) != ChunkName(mainName, j)
  {
    ChunkNameIndex(mainName, i);
    ChunkNameIndex(mainName, j);
  }

  // ----------------------------------------------------------------- sizes

  /** The two places where main.go and its evident intent part ways: the size
      demanded of the last chunk (FileSize % ChunkSize as written, which
      refuses every file whose size is a multiple of the chunk size) and the
      sweep loops' `hasErrors = hasErrors || !process(...)`, which stops
      calling process after the first failure. AsWritten is the code;
      Corrected demands a whole last chunk in that case and processes every
      meta file. */
  datatype Variant = AsWritten | Corrected

  /** The size the code demands of the last chunk: FileSize % ChunkSize. */
  function LastSizeAsWritten(meta: ChunkedMeta): nat
    requires meta.chunkSize > 0
  {
    (meta.fileSize % meta.chunkSize) as nat
  }

  /** The size the last chunk of a split has: the remainder, or a whole chunk
      when the file size is a multiple of the chunk size. */
  function LastSize(meta: ChunkedMeta): nat
    requires meta.chunkSize > 0
  {
    var r := (meta.fileSize % meta.chunkSize) as nat;
    if r == 0 then meta.chunkSize as nat else r
  }

  /** The size chunk i of n must have. */
  function ExpectedSize(variant: Variant, meta: ChunkedMeta, i: nat, n: nat): nat
    requires i + 1 < n || meta.chunkSize > 0
  {
    if i + 1 < n then meta.chunkSize as nat
    else if variant.AsWritten? then LastSizeAsWritten(meta)
    else LastSize(meta)
  }

  /** The layout a sender produces: chunkSize-byte pieces, the last one
      possibly shorter, none empty. */
  function SplitChunks(data: Bytes, c: nat): seq<Bytes>
    requires c > 0
    decreases |data|
  {
    if |data| == 0 then []
    else if |data| <= c then [data]
    else [data[..c]] + SplitChunks(data[c..], c)
  }

  function Concat(chunks: seq<Bytes>): Bytes
    decreases |chunks|
  {
    if |chunks| == 0 then [] else chunks[0] + Concat(chunks[1..])
  }

  /** Concatenating the pieces gives back the file. */
  lemma {:induction false} SplitConcat(data: Bytes, c: nat)
    requires c > 0
    ensures Concat(SplitChunks(data, c)) == data
    decreases |data|
  {
    if |data| > c {
      var r := SplitChunks(data, c);
      assert r[1..] == SplitChunks(data[c..], c);
      SplitConcat(data[c..], c);
      assert data[..c] + data[c..] == data;
    }
  }

  lemma MulAtLeast(d: int, c: int)
    requires d >= 1 && c > 0
    ensures d * c >= c
  {
    if d > 1 {
      MulAtLeast(d - 1, c);
      assert d * c == (d - 1) * c + c;
    }
  }

  /** Quotient and remainder are unique. */
  lemma DivUnique(q: int, r: int, c: int, q2: int, r2: int)
    requires c > 0 && 0 <= r < c && 0 <= r2 < c && q * c + r == q2 * c + r2
    ensures q == q2 && r == r2
  {
    if q > q2 {
      assert (q - q2) * c == q * c - q2 * c;
      MulAtLeast(q - q2, c);
    } else if q2 > q {
      assert (q2 - q) * c == q2 * c - q * c;
      MulAtLeast(q2 - q, c);
    }
  }

  /** Adding one chunk's worth of bytes adds one to the chunk count and keeps
      the remainder; below one chunk the remainder is the size itself. */
  lemma DivStep(x: nat, c: nat)
    requires c > 0
    ensures (x + c) / c == x / c + 1 && (x + c) % c == x % c
    ensures x < c ==> x / c == 0 && x % c == x
  {
    assert (x / c + 1) * c == (x / c) * c + c;
    DivUnique(x / c + 1, x % c, c, (x + c) / c, (x + c) % c);
    if x < c {
      DivUnique(0, x, c, x / c, x % c);
    }
  }

  /** The split has ceil(F / C) pieces. */
  lemma {:induction false} SplitCount(data: Bytes, c: nat)
    requires c > 0
    ensures |SplitChunks(data, c)| == (|data| + c - 1) / c
    decreases |data|
  {
    if |data| > c {
      SplitCount(data[c..], c);
      DivStep(|data| - c + c - 1, c);
    } else if |data| > 0 {
      DivStep(|data| - 1, c);
    }
  }

  /** All pieces but the last have C bytes; the last holds the remainder, or
      C bytes when there is none. */
  lemma {:induction false} SplitSizes(data: Bytes, c: nat)
    requires c > 0
    ensures var r := SplitChunks(data, c);
      && (forall i :: 0 <= i < |r| - 1 ==> |r[i]| == c)
      && (|r| > 0 ==> |r[|r| - 1]| == (if |data| % c == 0 then c else |data| % c))
    decreases |data|
  {
    var r := SplitChunks(data, c);
    if |data| > c {
      var rest := SplitChunks(data[c..], c);
      assert r == [data[..c]] + rest;
      SplitSizes(data[c..], c);
      DivStep(|data| - c, c);
      forall i | 1 <= i < |r| - 1
        ensures |r[i]| == c
      {
        assert r[i] == rest[i - 1];
      }
    } else {
      DivStep(0, c);
      DivStep(|data|, c);
    }
  }

  lemma SplitShape(data: Bytes, c: nat)
    requires c > 0
    ensures var r := SplitChunks(data, c);
      && |r| == (|data| + c - 1) / c
      && (forall i :: 0 <= i < |r| - 1 ==> |r[i]| == c)
      && (|r| > 0 ==> |r[|r| - 1]| == (if |data| % c == 0 then c else |data| % c))
  {
    SplitCount(data, c);
    SplitSizes(data, c);
  }

  /** Every chunk of a proper split passes the size rule the model uses. */
  lemma SplitSizesAccepted(meta: ChunkedMeta, data: Bytes)
    requires meta.chunkSize > 0 && meta.fileSize as int == |data|
    ensures var r := SplitChunks(data, meta.chunkSize as nat);
      forall i :: 0 <= i < |r| ==> |r[i]| == ExpectedSize(Corrected, meta, i, |r|)
  {
    SplitShape(data, meta.chunkSize as nat);
  }

  /** The rule as written refuses the last chunk of every non-empty file whose
      size is a multiple of the chunk size: the split makes that chunk full,
      the code expects it to be empty. */
  lemma LastSizeAsWrittenRejects(meta: ChunkedMeta, data: Bytes)
    requires meta.chunkSize > 0 && meta.fileSize as int == |data|
    requires |data| > 0 && |data| % meta.chunkSize as int == 0
    ensures var r := SplitChunks(data, meta.chunkSize as nat);
      |r| > 0 && |r[|r| - 1]| != LastSizeAsWritten(meta)
  {
    SplitShape(data, meta.chunkSize as nat);
  }

  /** A concrete case: a 2-byte file in 1-byte chunks. */
  lemma LastSizeAsWrittenExample()
    ensures var meta, data := ChunkedMeta([], 2, 1, [[], []]), [7, 7];
      SplitChunks(data, 1) == [[7], [7]] && LastSizeAsWritten(meta) == 0 && LastSize(meta) == 1
  {
    var data: Bytes := [7, 7];
    assert data[..1] == [7] && data[1..] == [7];
    assert SplitChunks(data, 1) == [[7]] + SplitChunks([7], 1);
  }

  // ------------------------------------------------------------- stat loop

  /** Chunk i exists and has the size its position demands. */
  predicate ChunkOk(variant: Variant, meta: ChunkedMeta, chunks: seq<Path>, fs: FS, i: nat)
    requires i < |chunks|
  {
    && chunks[i] in fs.files
    && (i + 1 < |chunks| || meta.chunkSize > 0)
    && |fs.files[chunks[i]]| == ExpectedSize(variant, meta, i, |chunks|)
  }

  datatype SizeVerdict = SizePanic | SizesChecked(allExist: bool)

  /** The stat loop from chunk i on, given the verdict so far: a missing chunk
      clears the verdict and the loop goes on; an existing chunk of the wrong
      size clears it too; the size check of an existing last chunk divides by
      the chunk size, which panics when it is zero. */
  function StatChunks(variant: Variant, meta: ChunkedMeta, chunks: seq<Path>, fs: FS, i: nat, allExist: bool): (v: SizeVerdict)
    requires i <= |chunks|
    ensures v.SizePanic? <==> meta.chunkSize == 0 && i < |chunks| && chunks[|chunks| - 1] in fs.files
    ensures v.SizesChecked? ==>
      (v.allExist <==> allExist && forall k :: i <= k < |chunks| ==> ChunkOk(variant, meta, chunks, fs, k))
    decreases |chunks| - i
  {
    if i == |chunks| then SizesChecked(allExist)
    else if chunks[i] !in fs.files then
      assert !ChunkOk(variant, meta, chunks, fs, i);
      StatChunks(variant, meta, chunks, fs, i + 1, false)
    else if i + 1 == |chunks| && meta.chunkSize == 0 then SizePanic
    else
      var badSize := |fs.files[chunks[i]]| != ExpectedSize(variant, meta, i, |chunks|);
      assert ChunkOk(variant, meta, chunks, fs, i) == !badSize;
      StatChunks(variant, meta, chunks, fs, i + 1, allExist && !badSize)
  }

  predicate ChunksPresent(chunks: seq<Path>, fs: FS) {
    forall i :: 0 <= i < |chunks| ==> chunks[i] in fs.files
  }

  /** The digest of every chunk is the one the meta records for it. */
  predicate DigestsMatch(host: Host, meta: ChunkedMeta, chunks: seq<Path>, fs: FS)
    requires ChunksPresent(chunks, fs) && |chunks| == |meta.checksums|
  {
    forall i :: 0 <= i < |chunks| ==> host.digest(fs.files[chunks[i]]) == meta.checksums[i]
  }

  /** Everything process verifies before it writes anything. */
  predicate Verified(variant: Variant, host: Host, meta: ChunkedMeta, chunks: seq<Path>, fs: FS) {
    && |chunks| == |meta.checksums|
    && (forall i :: 0 <= i < |chunks| ==> ChunkOk(variant, meta, chunks, fs, i))
    && ChunksPresent(chunks, fs)
    && DigestsMatch(host, meta, chunks, fs)
  }

  // -------------------------------------------------------------- copying

  /** `after` arises from `before` by removals only: no new file, no changed
      content, the same directories. */
  predicate Shrunk(before: FS, after: FS) {
    && after.files.Keys <= before.files.Keys
    && (forall p :: p in after.files ==> after.files[p] == before.files[p])
    && after.dirs == before.dirs
  }

  lemma ShrunkTrans(a: FS, b: FS, c: FS)
    requires Shrunk(a, b) && Shrunk(b, c)
    ensures Shrunk(a, c)
  {
  }

  /** The chunk contents, in index order. */
  function Contents(chunks: seq<Path>, fs: FS): seq<Bytes>
    requires ChunksPresent(chunks, fs)
  {
    seq(|chunks|, i requires 0 <= i < |chunks| => fs.files[chunks[i]])
  }

  datatype Copy = CopyFatal(fs: FS) | Copied(data: Bytes, fs: FS, removeFailed: bool)

  /** The copy loop: each chunk is opened again (failing to is fatal), its
      bytes are appended to the output and, unless keep, it is removed; a
      failed removal is remembered and the loop goes on. */
  function CopyChunks(faults: Faults, keep: bool, chunks: seq<Path>, fs: FS): (c: Copy)
    ensures Shrunk(fs, c.fs)
    ensures forall p :: p in fs.files && p !in chunks ==> p in c.fs.files
    ensures keep ==> c.fs == fs
    decreases |chunks|
  {
    if |chunks| == 0 then Copied([], fs, false)
    else if chunks[0] !in fs.files then CopyFatal(fs)
    else
      var rm := if keep then Sys(true, fs) else Remove(fs, faults, chunks[0]);
      var c := CopyChunks(faults, keep, chunks[1..], rm.fs);
      ShrunkTrans(fs, rm.fs, c.fs);
      match c
      case CopyFatal(fs2) => CopyFatal(fs2)
      case Copied(rest, fs2, failed) => Copied(fs.files[chunks[0]] + rest, fs2, failed || !rm.ok)
  }

  /** A finished copy read every chunk, and its output is their
      concatenation in index order. */
  lemma {:induction false} CopyChunksData(faults: Faults, keep: bool, chunks: seq<Path>, fs: FS)
    ensures var c := CopyChunks(faults, keep, chunks, fs);
      c.Copied? ==> ChunksPresent(chunks, fs) && c.data == Concat(Contents(chunks, fs))
    decreases |chunks|
  {
    var c := CopyChunks(faults, keep, chunks, fs);
    if |chunks| > 0 && chunks[0] in fs.files && c.Copied? {
      var rm := if keep then Sys(true, fs) else Remove(fs, faults, chunks[0]);
      var rest := chunks[1..];
      assert c.data == fs.files[chunks[0]] + CopyChunks(faults, keep, rest, rm.fs).data;
      CopyChunksData(faults, keep, rest, rm.fs);
      assert forall i :: 1 <= i < |chunks| ==> chunks[i] == rest[i - 1];
      assert Contents(rest, rm.fs) == Contents(chunks, fs)[1..];
    }
  }

  /** The copy reports a failed removal exactly when keep is off and the
      system refuses to remove one of the chunks. */
  lemma {:induction false} CopyChunksReports(faults: Faults, keep: bool, chunks: seq<Path>, fs: FS)
    ensures var c := CopyChunks(faults, keep, chunks, fs);
      c.Copied? ==> (c.removeFailed <==> !keep && exists i :: 0 <= i < |chunks| && chunks[i] in faults.removeFails)
    decreases |chunks|
  {
    var c := CopyChunks(faults, keep, chunks, fs);
    if |chunks| > 0 && chunks[0] in fs.files && c.Copied? {
      var rm := if keep then Sys(true, fs) else Remove(fs, faults, chunks[0]);
      var rest := chunks[1..];
      var c2 := CopyChunks(faults, keep, rest, rm.fs);
      assert c.removeFailed == (c2.removeFailed || !rm.ok);
      CopyChunksReports(faults, keep, rest, rm.fs);
      assert forall i :: 1 <= i < |chunks| ==> chunks[i] == rest[i - 1];
    }
  }

  /** Without keep, every chunk the system lets go of is gone; the chunks it
      refuses to remove stay. */
  lemma {:induction false} CopyChunksRemoves(faults: Faults, keep: bool, chunks: seq<Path>, fs: FS)
    ensures var c := CopyChunks(faults, keep, chunks, fs);
      c.Copied? ==>
        && (forall i :: 0 <= i < |chunks| && chunks[i] in faults.removeFails ==> chunks[i] in c.fs.files)
        && (!keep ==> forall i :: 0 <= i < |chunks| && chunks[i] !in faults.removeFails ==> chunks[i] !in c.fs.files)
    decreases |chunks|
  {
    var c := CopyChunks(faults, keep, chunks, fs);
    if |chunks| > 0 && chunks[0] in fs.files && c.Copied? {
      var rm := if keep then Sys(true, fs) else Remove(fs, faults, chunks[0]);
      var rest := chunks[1..];
      assert c.fs == CopyChunks(faults, keep, rest, rm.fs).fs;
      CopyChunksRemoves(faults, keep, rest, rm.fs);
      assert forall i :: 1 <= i < |chunks| ==> chunks[i] == rest[i - 1];
      if chunks[0] in faults.removeFails && chunks[0] in rest {
        var j :| 0 <= j < |rest| && rest[j] == chunks[0];
      }
    }
  }

  /** When the chunk paths are distinct and all present, the copy loop never
      dies. */
  lemma {:induction false} CopyChunksCompletes(faults: Faults, keep: bool, chunks: seq<Path>, fs: FS)
    requires ChunksPresent(chunks, fs)
    requires forall i, j :: 0 <= i < j < |chunks| ==> chunks[i] != chunks[j]
    ensures CopyChunks(faults, keep, chunks, fs).Copied?
    decreases |chunks|
  {
    if |chunks| > 0 {
      var rm := if keep then Sys(true, fs) else Remove(fs, faults, chunks[0]);
      var rest := chunks[1..];
      forall i | 0 <= i < |rest|
        ensures rest[i] in rm.fs.files
      {
        assert rest[i] == chunks[i + 1] != chunks[0];
      }
      CopyChunksCompletes(faults, keep, rest, rm.fs);
    }
  }

  // -------------------------------------------------------------- process

  /** The meta file at `path` when it decodes, carries the expected magic and
      is named NAME.nncp.meta; None otherwise. */
  function ReadMeta(host: Host, fs: FS, path: Path): (m: Option<ChunkedMeta>)
    ensures m.Some? ==> path in fs.files
  {
    var decoded := if path in fs.files then host.unmarshal(fs.files[path]) else None;
    if decoded.Some? && decoded.value.magic == host.magic && HasSuffix(host.paths.base(path), ChunkedSuffixMeta)
    then decoded else None
  }

  /** The name of the reassembled file: the meta file's name without its suffix. */
  function MainName(host: Host, path: Path): string {
    TrimSuffix(host.paths.base(path), ChunkedSuffixMeta)
  }

  function Chunks(host: Host, path: Path, meta: ChunkedMeta): seq<Path> {
    ChunkPaths(host.paths, host.paths.dir(path), MainName(host, path), |meta.checksums|)
  }

  /** The meta at `path` is valid and all its chunks pass the size and digest
      checks. */
  predicate Ready(variant: Variant, host: Host, fs: FS, path: Path) {
    var m := ReadMeta(host, fs, path);
    m.Some? && Verified(variant, host, m.value, Chunks(host, path, m.value), fs)
  }

  /** The destination the finished file is renamed to: the first of NAME,
      NAME0, NAME1, ... beside the meta file that does not exist. */
  function Destination(host: Host, fs: FS, path: Path): Path {
    Naming.FreeName(fs.Names(), host.paths.join(host.paths.dir(path), MainName(host, path)))
  }

  /** process after every check passed: the chunks are copied to a fresh
      temporary file (or standard output) and removed unless keep, then the
      meta is removed unless keep, and the temporary file is renamed to the
      destination. Failing to create the temporary file or to rename it is
      fatal; a failed removal only makes the result false. */
  function Assemble(host: Host, opts: Options, faults: Faults, fs: FS, path: Path, chunks: seq<Path>): (o: Outcome)
    requires ChunksPresent(chunks, fs)
    // A TempFile that cannot be created dies before anything changes, and
    // reassembly into a file writes nothing to standard output.
    ensures !opts.stdout && host.paths.dir(path) in faults.tempFails ==> o == Fatal(fs)
    ensures !opts.stdout && o.Processed? ==> o.out == []
  {
    var mainDir := host.paths.dir(path);
    if !opts.stdout && mainDir in faults.tempFails then Fatal(fs)
    else
      var tmp := TempName(fs, host.paths, mainDir, ReassTempPrefix);
      var fs0 := if opts.stdout then fs else fs.(files := fs.files[tmp := []]);
      match CopyChunks(faults, opts.keep, chunks, fs0)
      case CopyFatal(fs1) => Fatal(fs1)
      case Copied(data, fs1, failed) =>
        var fs2 := if opts.stdout then fs1 else fs1.(files := fs1.files[tmp := data]);
        var rm := if opts.keep then Sys(true, fs2) else Remove(fs2, faults, path);
        var ok := !failed && rm.ok;
        if opts.stdout then Processed(ok, rm.fs, data)
        else
          var mv := Rename(rm.fs, faults, tmp, Destination(host, rm.fs, path));
          if mv.ok then Processed(ok, mv.fs, []) else Fatal(mv.fs)
  }

  datatype ChunkVerdict = ChunksPanic | ChunksBad | ChunksGood

  /** The stat loop followed, when every chunk exists with the right size, by
      the digest loop. */
  function CheckChunks(variant: Variant, host: Host, meta: ChunkedMeta, chunks: seq<Path>, fs: FS): (v: ChunkVerdict)
    requires |chunks| == |meta.checksums|
    ensures v.ChunksPanic? <==> meta.chunkSize == 0 && |chunks| > 0 && chunks[|chunks| - 1] in fs.files
    ensures v.ChunksGood? <==> Verified(variant, host, meta, chunks, fs)
  {
    match StatChunks(variant, meta, chunks, fs, 0, true)
    case SizePanic =>
      assert !ChunkOk(variant, meta, chunks, fs, |chunks| - 1);
      ChunksPanic
    case SizesChecked(allExist) =>
      if !allExist then ChunksBad
      else
        assert ChunksPresent(chunks, fs) by {
          forall i | 0 <= i < |chunks|
            ensures chunks[i] in fs.files
          {
            assert ChunkOk(variant, meta, chunks, fs, i);
          }
        }
        if DigestsMatch(host, meta, chunks, fs) then ChunksGood else ChunksBad
  }

  /** process(ctx, path, keep, dryRun, stdout, dumpMeta). A missing meta file
      is fatal; an undecodable meta, a wrong magic or a wrong name returns
      false; dumpMeta returns true (the dump itself is printing). Then the
      chunk sizes are checked, then the digests, each failing with false and
      nothing written; dryRun returns true at that point. */
  function Process(variant: Variant, host: Host, opts: Options, faults: Faults, fs: FS, path: Path): (o: Outcome)
    ensures ExitFs(o) != fs ==> Ready(variant, host, fs, path) && !opts.dumpMeta && !opts.dryRun
    ensures o.Processed? && o.ok && !opts.dumpMeta ==> Ready(variant, host, fs, path)
    ensures o.Processed? && o.out != [] ==> Ready(variant, host, fs, path) && opts.stdout && !opts.dumpMeta && !opts.dryRun
  {
    if path !in fs.Names() then Fatal(fs)
    else match ReadMeta(host, fs, path)
      case None => Processed(false, fs, [])
      case Some(meta) =>
        if opts.dumpMeta then Processed(true, fs, [])
        else
          var chunks := Chunks(host, path, meta);
          match CheckChunks(variant, host, meta, chunks, fs)
          case ChunksPanic => Fatal(fs)
          case ChunksBad => Processed(false, fs, [])
          case ChunksGood =>
            if opts.dryRun then Processed(true, fs, [])
            else Assemble(host, opts, faults, fs, path, chunks)
  }

  /** The file `data` was delivered under a name derived from NAME beside the
      meta file. */
  ghost predicate DeliveredAs(host: Host, path: Path, after: FS, data: Bytes) {
    exists d :: && Naming.DerivedName(host.paths.join(host.paths.dir(path), MainName(host, path)), d)
                && d in after.files && after.files[d] == data
  }

  /** The temporary file is none of the chunks, so the copy reads the chunks
      as they were. */
  lemma ContentsWithTemp(chunks: seq<Path>, fs: FS, tmp: Path)
    requires ChunksPresent(chunks, fs) && tmp !in fs.Names()
    ensures ChunksPresent(chunks, fs.(files := fs.files[tmp := []]))
    ensures Contents(chunks, fs.(files := fs.files[tmp := []])) == Contents(chunks, fs)
  {
    var fs0 := fs.(files := fs.files[tmp := []]);
    forall i | 0 <= i < |chunks|
      ensures chunks[i] in fs0.files && fs0.files[chunks[i]] == fs.files[chunks[i]]
    {
      assert chunks[i] != tmp;
    }
  }

  /** What a finished assembly produced: the concatenated chunks, on standard
      output or in a file under a fresh name derived from NAME. */
  lemma AssembleOutput(host: Host, opts: Options, faults: Faults, fs: FS, path: Path, chunks: seq<Path>)
    requires ChunksPresent(chunks, fs) && path in fs.files
    ensures var o := Assemble(host, opts, faults, fs, path, chunks);
      o.Processed? ==>
        && (opts.stdout ==> o.out == Concat(Contents(chunks, fs)))
        && (!opts.stdout ==> o.out == [] && DeliveredAs(host, path, o.fs, Concat(Contents(chunks, fs))))
  {
    var o := Assemble(host, opts, faults, fs, path, chunks);
    var mainDir := host.paths.dir(path);
    if o.Processed? {
      var tmp := TempName(fs, host.paths, mainDir, ReassTempPrefix);
      var fs0 := if opts.stdout then fs else fs.(files := fs.files[tmp := []]);
      if !opts.stdout {
        ContentsWithTemp(chunks, fs, tmp);
      }
      CopyChunksData(faults, opts.keep, chunks, fs0);
      var c := CopyChunks(faults, opts.keep, chunks, fs0);
      assert c.Copied?;
      if !opts.stdout {
        assert path != tmp;
        var fs2 := c.fs.(files := c.fs.files[tmp := c.data]);
        var rm := if opts.keep then Sys(true, fs2) else Remove(fs2, faults, path);
        assert tmp in rm.fs.files && rm.fs.files[tmp] == c.data;
        var d := Destination(host, rm.fs, path);
        assert o.fs.files[d] == c.data;
      }
    }
  }

  /** With distinct chunks the assembly finishes on standard output; into a
      file it finishes exactly when TempFile can create the temporary file
      beside the meta file and the rename to the first free name is allowed. */
  lemma AssembleCompletes(host: Host, opts: Options, faults: Faults, fs: FS, path: Path, chunks: seq<Path>)
    requires ChunksPresent(chunks, fs) && path in fs.files
    requires forall i, j :: 0 <= i < j < |chunks| ==> chunks[i] != chunks[j]
    ensures var o := Assemble(host, opts, faults, fs, path, chunks);
      && (opts.stdout ==> o.Processed?)
      && (!opts.stdout ==>
            (o.Processed? <==> && host.paths.dir(path) !in faults.tempFails
                               && Destination(host, Gathered(host, opts, faults, fs, path, chunks).fs, path) !in faults.renameFails))
  {
    var tmp := TempName(fs, host.paths, host.paths.dir(path), ReassTempPrefix);
    if opts.stdout {
      CopyChunksCompletes(faults, opts.keep, chunks, fs);
    } else if host.paths.dir(path) !in faults.tempFails {
      var fs0 := fs.(files := fs.files[tmp := []]);
      ContentsWithTemp(chunks, fs, tmp);
      CopyChunksCompletes(faults, opts.keep, chunks, fs0);
      var c := CopyChunks(faults, opts.keep, chunks, fs0);
      assert path != tmp;
      var fs2 := c.fs.(files := c.fs.files[tmp := c.data]);
      var rm := if opts.keep then Sys(true, fs2) else Remove(fs2, faults, path);
      assert tmp in rm.fs.files;
      assert Gathered(host, opts, faults, fs, path, chunks).fs == rm.fs;
    }
  }

  /** With keep, a finished assembly reports success and every file that
      existed before is still there, unchanged. */
  lemma AssembleKeeps(host: Host, opts: Options, faults: Faults, fs: FS, path: Path, chunks: seq<Path>)
    requires ChunksPresent(chunks, fs) && path in fs.files && opts.keep
    ensures var o := Assemble(host, opts, faults, fs, path, chunks);
      o.Processed? ==> o.ok && Untouched(fs, o.fs, {})
  {
    var o := Assemble(host, opts, faults, fs, path, chunks);
    if o.Processed? {
      var tmp := TempName(fs, host.paths, host.paths.dir(path), ReassTempPrefix);
      var fs0 := if opts.stdout then fs else fs.(files := fs.files[tmp := []]);
      var c := CopyChunks(faults, opts.keep, chunks, fs0);
      assert c.Copied? && c.fs == fs0;
      CopyChunksReports(faults, opts.keep, chunks, fs0);
      if !opts.stdout {
        var fs2 := c.fs.(files := c.fs.files[tmp := c.data]);
        var d := Destination(host, fs2, path);
        assert d !in fs.Names() && tmp !in fs.Names();
      }
    }
  }

  /** The file system after the copy loop and the removal of the meta file,
      just before the rename, and whether every removal succeeded. */
  function Gathered(host: Host, opts: Options, faults: Faults, fs: FS, path: Path, chunks: seq<Path>): Sys
    requires ChunksPresent(chunks, fs)
  {
    var tmp := TempName(fs, host.paths, host.paths.dir(path), ReassTempPrefix);
    var fs0 := if opts.stdout then fs else fs.(files := fs.files[tmp := []]);
    match CopyChunks(faults, opts.keep, chunks, fs0)
    case CopyFatal(fs1) => Sys(false, fs1)
    case Copied(data, fs1, failed) =>
      var fs2 := if opts.stdout then fs1 else fs1.(files := fs1.files[tmp := data]);
      var rm := if opts.keep then Sys(true, fs2) else Remove(fs2, faults, path);
      Sys(!failed && rm.ok, rm.fs)
  }

  /** A finished assembly is the gathered state, renamed into place. */
  lemma AssembleGathered(host: Host, opts: Options, faults: Faults, fs: FS, path: Path, chunks: seq<Path>)
    requires ChunksPresent(chunks, fs)
    ensures var o, g := Assemble(host, opts, faults, fs, path, chunks), Gathered(host, opts, faults, fs, path, chunks);
      o.Processed? ==>
        && CopyChunks(faults, opts.keep, chunks,
             if opts.stdout then fs
             else fs.(files := fs.files[TempName(fs, host.paths, host.paths.dir(path), ReassTempPrefix) := []])).Copied?
        && o.ok == g.ok
        && var tmp := TempName(fs, host.paths, host.paths.dir(path), ReassTempPrefix);
           if opts.stdout then o.fs == g.fs
           else tmp in g.fs.files && o.fs == g.fs.(files := (g.fs.files - {tmp})[Destination(host, g.fs, path) := g.fs.files[tmp]])
  {
  }

  /** Without keep, the gathering reports success exactly when the system
      refused no removal. */
  lemma GatheredReports(host: Host, opts: Options, faults: Faults, fs: FS, path: Path, chunks: seq<Path>)
    requires ChunksPresent(chunks, fs) && path in fs.files && path !in chunks && !opts.keep
    ensures var g := Gathered(host, opts, faults, fs, path, chunks);
      var tmp := TempName(fs, host.paths, host.paths.dir(path), ReassTempPrefix);
      var c := CopyChunks(faults, opts.keep, chunks, if opts.stdout then fs else fs.(files := fs.files[tmp := []]));
      c.Copied? ==>
        (g.ok <==> path !in faults.removeFails && forall i :: 0 <= i < |chunks| ==> chunks[i] !in faults.removeFails)
  {
    var tmp := TempName(fs, host.paths, host.paths.dir(path), ReassTempPrefix);
    var fs0 := if opts.stdout then fs else fs.(files := fs.files[tmp := []]);
    var c := CopyChunks(faults, opts.keep, chunks, fs0);
    if c.Copied? {
      CopyChunksReports(faults, opts.keep, chunks, fs0);
      assert path != tmp && path in c.fs.files;
    }
  }

  /** Without keep, the meta file and the chunks are gone unless the system
      refused to remove them, the temporary file holds the output, and every
      other file is unchanged. */
  lemma GatheredRemoves(host: Host, opts: Options, faults: Faults, fs: FS, path: Path, chunks: seq<Path>)
    requires ChunksPresent(chunks, fs) && path in fs.files && path !in chunks && !opts.keep
    ensures var g := Gathered(host, opts, faults, fs, path, chunks);
      var tmp := TempName(fs, host.paths, host.paths.dir(path), ReassTempPrefix);
      var c := CopyChunks(faults, opts.keep, chunks, if opts.stdout then fs else fs.(files := fs.files[tmp := []]));
      c.Copied? ==>
        && (path in g.fs.files <==> path in faults.removeFails)
        && (forall i :: 0 <= i < |chunks| ==> (chunks[i] in g.fs.files <==> chunks[i] in faults.removeFails))
        && (forall p :: p in fs.files && p != path && p !in chunks ==> p in g.fs.files && g.fs.files[p] == fs.files[p])
        && (!opts.stdout ==> tmp !in fs.Names() && tmp in g.fs.files)
  {
    var tmp := TempName(fs, host.paths, host.paths.dir(path), ReassTempPrefix);
    var fs0 := if opts.stdout then fs else fs.(files := fs.files[tmp := []]);
    var c := CopyChunks(faults, opts.keep, chunks, fs0);
    if c.Copied? {
      CopyChunksRemoves(faults, opts.keep, chunks, fs0);
      assert path in c.fs.files;
      assert forall i :: 0 <= i < |chunks| ==> chunks[i] != path && chunks[i] != tmp;
    }
  }

  /** Without keep, a finished assembly reports success exactly when the
      system refused no removal, and every file other than the chunks and the
      meta file is still there, unchanged. (Which of those are gone is stated
      on the gathered state: the destination name, chosen afterwards, may
      reuse the name of a removed file.) */
  lemma AssembleRemoves(host: Host, opts: Options, faults: Faults, fs: FS, path: Path, chunks: seq<Path>)
    requires ChunksPresent(chunks, fs) && path in fs.files && path !in chunks && !opts.keep
    ensures var o := Assemble(host, opts, faults, fs, path, chunks);
      o.Processed? ==>
        && (o.ok <==> path !in faults.removeFails && forall i :: 0 <= i < |chunks| ==> chunks[i] !in faults.removeFails)
        && (forall p :: p in fs.files && p != path && p !in chunks ==> p in o.fs.files && o.fs.files[p] == fs.files[p])
  {
    var o := Assemble(host, opts, faults, fs, path, chunks);
    if o.Processed? {
      AssembleGathered(host, opts, faults, fs, path, chunks);
      GatheredReports(host, opts, faults, fs, path, chunks);
      GatheredRemoves(host, opts, faults, fs, path, chunks);
      var g := Gathered(host, opts, faults, fs, path, chunks);
      if !opts.stdout {
        assert Destination(host, g.fs, path) !in g.fs.Names();
      }
    }
  }

  /** The outcomes that come before any chunk is written: a missing meta file
      is fatal; a meta that fails to decode, has the wrong magic or the wrong
      name gives false; dumpMeta gives true; a missing, mis-sized or corrupt
      chunk gives false, except that an existing last chunk with a zero chunk
      size divides by zero; dryRun gives true once everything checks out.
      In all of these the file system is left as it was. */
  lemma ProcessEarly(variant: Variant, host: Host, opts: Options, faults: Faults, fs: FS, path: Path)
    ensures var o, m := Process(variant, host, opts, faults, fs, path), ReadMeta(host, fs, path);
      && (path !in fs.Names() ==> o == Fatal(fs))
      && (path in fs.Names() && m.None? ==> o == Processed(false, fs, []))
      && (m.Some? && opts.dumpMeta ==> o == Processed(true, fs, []))
      && (m.Some? && !opts.dumpMeta && !Ready(variant, host, fs, path) ==>
            var chunks := Chunks(host, path, m.value);
            o == if m.value.chunkSize == 0 && |chunks| > 0 && chunks[|chunks| - 1] in fs.files
                 then Fatal(fs) else Processed(false, fs, []))
      && (Ready(variant, host, fs, path) && !opts.dumpMeta && opts.dryRun ==> o == Processed(true, fs, []))
  {
  }

  /** Once everything checks out outside dry-run and dump mode, process is
      the assembly. */
  lemma ProcessAssembles(variant: Variant, host: Host, opts: Options, faults: Faults, fs: FS, path: Path)
    requires Ready(variant, host, fs, path) && !opts.dumpMeta && !opts.dryRun
    ensures var meta := ReadMeta(host, fs, path).value;
      && ChunksPresent(Chunks(host, path, meta), fs)
      && Process(variant, host, opts, faults, fs, path) == Assemble(host, opts, faults, fs, path, Chunks(host, path, meta))
  {
  }

  /** Splitting a file and reassembling it gives the file back: when the
      chunks beside a valid meta file hold the split of `data` and the meta
      records their digests, process writes exactly `data`, to standard
      output or to a fresh destination, and with keep it reports success. */
  lemma ProcessRoundTrip(host: Host, opts: Options, faults: Faults, fs: FS, path: Path, data: Bytes)
    requires ReadMeta(host, fs, path).Some?
    requires var meta := ReadMeta(host, fs, path).value;
      var chunks := Chunks(host, path, meta);
      && meta.chunkSize > 0 && meta.fileSize as int == |data|
      && ChunksPresent(chunks, fs) && Contents(chunks, fs) == SplitChunks(data, meta.chunkSize as nat)
      && (forall i :: 0 <= i < |chunks| ==> host.digest(fs.files[chunks[i]]) == meta.checksums[i])
      && (forall i, j :: 0 <= i < j < |chunks| ==> chunks[i] != chunks[j])
    requires !opts.dumpMeta && !opts.dryRun
    ensures var o := Process(Corrected, host, opts, faults, fs, path);
      && (opts.stdout ==> o.Processed? && o.out == data && (opts.keep ==> o.ok))
      && (!opts.stdout && o.Processed? ==> DeliveredAs(host, path, o.fs, data) && (opts.keep ==> o.ok))
      && (var g := Gathered(host, opts, faults, fs, path, Chunks(host, path, ReadMeta(host, fs, path).value));
          !opts.stdout && host.paths.dir(path) !in faults.tempFails && Destination(host, g.fs, path) !in faults.renameFails ==>
            o.Processed?)
  {
    var meta := ReadMeta(host, fs, path).value;
    var chunks := Chunks(host, path, meta);
    var parts := SplitChunks(data, meta.chunkSize as nat);
    SplitSizesAccepted(meta, data);
    SplitConcat(data, meta.chunkSize as nat);
    forall i | 0 <= i < |chunks|
      ensures ChunkOk(Corrected, meta, chunks, fs, i)
    {
      assert fs.files[chunks[i]] == parts[i];
    }
    assert Ready(Corrected, host, fs, path);
    ProcessAssembles(Corrected, host, opts, faults, fs, path);
    AssembleOutput(host, opts, faults, fs, path, chunks);
    if opts.keep {
      AssembleKeeps(host, opts, faults, fs, path, chunks);
    }
    AssembleCompletes(host, opts, faults, fs, path, chunks);
  }

  /** As written, process refuses exactly the file it should reassemble
      whenever that file is not empty and its size is a multiple of the chunk
      size: the chunks beside a valid meta hold the split of `data` with the
      recorded digests, yet the last one fails the size check, the result is
      false and nothing is written. */
  lemma ProcessRefusesWholeLastChunk(host: Host, opts: Options, faults: Faults, fs: FS, path: Path, data: Bytes)
    requires ReadMeta(host, fs, path).Some?
    requires var meta := ReadMeta(host, fs, path).value;
      var chunks := Chunks(host, path, meta);
      && meta.chunkSize > 0 && meta.fileSize as int == |data|
      && ChunksPresent(chunks, fs) && Contents(chunks, fs) == SplitChunks(data, meta.chunkSize as nat)
    requires |data| > 0 && |data| % ReadMeta(host, fs, path).value.chunkSize as int == 0
    requires !opts.dumpMeta
    ensures Process(AsWritten, host, opts, faults, fs, path) == Processed(false, fs, [])
  {
    var meta := ReadMeta(host, fs, path).value;
    var chunks := Chunks(host, path, meta);
    LastSizeAsWrittenRejects(meta, data);
    var last := |chunks| - 1;
    assert fs.files[chunks[last]] == Contents(chunks, fs)[last];
    assert !ChunkOk(AsWritten, meta, chunks, fs, last);
    assert !Ready(AsWritten, host, fs, path);
  }

  // ------------------------------------------------------------ findMetas

  /** The listed names that end in the meta suffix, joined to the directory,
      in listing order. */
  function MetaPaths(paths: PathOps, dir: Path, names: seq<string>): seq<Path>
    decreases |names|
  {
    if |names| == 0 then []
    else (if HasSuffix(names[0], ChunkedSuffixMeta) then [paths.join(dir, names[0])] else [])
         + MetaPaths(paths, dir, names[1..])
  }

  /** A path is found exactly when it is the directory joined with a listed
      name ending in the meta suffix; nothing else is found. */
  lemma {:induction false} MetaPathsExact(paths: PathOps, dir: Path, names: seq<string>)
    ensures var r := MetaPaths(paths, dir, names);
      && |r| <= |names|
      && forall p :: p in r <==> exists i :: 0 <= i < |names| && HasSuffix(names[i], ChunkedSuffixMeta) && p == paths.join(dir, names[i])
    decreases |names|
  {
    if |names| > 0 {
      var rest := names[1..];
      MetaPathsExact(paths, dir, rest);
      assert forall i :: 1 <= i < |names| ==> names[i] == rest[i - 1];
      forall p | p in MetaPaths(paths, dir, names)
        ensures exists i :: 0 <= i < |names| && HasSuffix(names[i], ChunkedSuffixMeta) && p == paths.join(dir, names[i])
      {
        if p !in MetaPaths(paths, dir, rest) {
          assert HasSuffix(names[0], ChunkedSuffixMeta) && p == paths.join(dir, names[0]);
        } else {
          var j :| 0 <= j < |rest| && HasSuffix(rest[j], ChunkedSuffixMeta) && p == paths.join(dir, rest[j]);
          assert names[j + 1] == rest[j];
        }
      }
      forall p | exists i :: 0 <= i < |names| && HasSuffix(names[i], ChunkedSuffixMeta) && p == paths.join(dir, names[i])
        ensures p in MetaPaths(paths, dir, names)
      {
        var i :| 0 <= i < |names| && HasSuffix(names[i], ChunkedSuffixMeta) && p == paths.join(dir, names[i]);
        if i > 0 {
          assert rest[i - 1] == names[i];
        }
      }
    }
  }

  /** findMetas(dir): the meta files in the directory as it is now; an
      unreadable directory yields none. */
  function FindMetas(host: Host, fs: FS, dir: Path): (r: seq<Path>)
    ensures host.list(fs, dir).None? ==> r == []
    ensures host.list(fs, dir).Some? ==>
      var names := host.list(fs, dir).value;
      && |r| <= |names|
      && forall p :: p in r <==> exists i :: 0 <= i < |names| && HasSuffix(names[i], ChunkedSuffixMeta) && p == host.paths.join(dir, names[i])
  {
    match host.list(fs, dir)
    case None => []
    case Some(names) =>
      MetaPathsExact(host.paths, dir, names);
      MetaPaths(host.paths, dir, names)
  }

  // ------------------------------------------------------------------ main

  /** The command line: the positional arguments, -all, -node, and the flags
      handed to process. */
  datatype Args = Args(files: seq<string>, all: bool, nodeRaw: string, opts: Options)

  datatype Mode = OneFile(path: Path) | OneNode(node: Cfg.Node) | AllNodes

  /** -node names no known node (fatal), the usage rules are broken (exit
      status 1), or a mode was chosen. */
  datatype Selection = BadNode | UsageError | Selected(mode: Mode)

  /** The node -node denotes: ctx.FindNode, whose alias hit is looked up in
      the neighbour map again (a dangling alias gives nil). */
  function NodeOnly(dec: Cfg.Decoders, ctx: Cfg.Ctx, nodeRaw: string): Option<Cfg.Node> {
    match Cfg.FindNode(dec, ctx.alias, ctx.neigh, nodeRaw)
    case Some(id) => if id in ctx.neigh then Some(ctx.neigh[id]) else None
    case None => None
  }

  function Count(b: bool): nat {
    if b then 1 else 0
  }

  /** The -node lookup, then the three usage checks, then the mode. */
  function SelectMode(dec: Cfg.Decoders, ctx: Cfg.Ctx, args: Args): (s: Selection)
    ensures s == BadNode <==> args.nodeRaw != "" && Cfg.FindNode(dec, ctx.alias, ctx.neigh, args.nodeRaw).None?
    ensures s.Selected? <==>
      && s != BadNode
      && Count(|args.files| > 0) + Count(args.all) + Count(args.nodeRaw != "" && NodeOnly(dec, ctx, args.nodeRaw).Some?) == 1
    ensures s.Selected? ==>
      && (s.mode.OneFile? <==> |args.files| > 0)
      && (s.mode.OneFile? ==> s.mode.path == args.files[0])
      && (s.mode.AllNodes? <==> args.all)
      && (s.mode.OneNode? ==> Some(s.mode.node) == NodeOnly(dec, ctx, args.nodeRaw))
  {
    if args.nodeRaw != "" && Cfg.FindNode(dec, ctx.alias, ctx.neigh, args.nodeRaw).None? then BadNode
    else
      var nodeOnly := if args.nodeRaw == "" then None else NodeOnly(dec, ctx, args.nodeRaw);
      var given := |args.files| > 0;
      if !(args.all || nodeOnly.Some? || given) then UsageError
      else if given && (args.all || nodeOnly.Some?) then UsageError
      else if args.all && nodeOnly.Some? then UsageError
      else if given then Selected(OneFile(args.files[0]))
      else if nodeOnly.None? then Selected(AllNodes)
      else Selected(OneNode(nodeOnly.value))
  }

  /** The state of a sweep over meta files: whether some process failed, the
      meta paths already met, the file system, and the meta paths handed to
      process so far, in order; or the program died inside a process. */
  datatype Sweep =
    | Sweep(hasErrors: bool, seen: set<Path>, fs: FS, processed: seq<Path>)
    | SweepDied(fs: FS, processed: seq<Path>)

  /** Sweeps run process with stdout and dumpMeta off. */
  function SweepOptions(opts: Options): Options {
    opts.(stdout := false, dumpMeta := false)
  }

  /** One iteration of the loop over meta paths. With `dedup` (the -all loop)
      a path met before is skipped. With `shortCircuit` the step is the code
      as written, `hasErrors = hasErrors || !process(...)`: once hasErrors is
      set, process is not called any more. Without it every path is processed
      and failures accumulate. */
  function SweepStep(host: Host, opts: Options, faults: Faults, dedup: bool, variant: Variant, s: Sweep, p: Path): (r: Sweep)
    requires s.Sweep?
  {
    if dedup && p in s.seen then s
    else if variant.AsWritten? && s.hasErrors then s.(seen := s.seen + {p})
    else match Process(variant, host, SweepOptions(opts), faults, s.fs, p)
      case Fatal(fs1) => SweepDied(fs1, s.processed + [p])
      case Processed(ok, fs1, _) => Sweep(s.hasErrors || !ok, s.seen + {p}, fs1, s.processed + [p])
  }

  function SweepMetas(host: Host, opts: Options, faults: Faults, dedup: bool, variant: Variant, s: Sweep, metas: seq<Path>): (r: Sweep)
    // Without the short circuit and without -all, a sweep that does not die
    // hands every listed path to process and never forgets an earlier failure.
    ensures variant.Corrected? && !dedup && s.Sweep? && r.Sweep? ==>
      r.processed == s.processed + metas && (s.hasErrors ==> r.hasErrors)
    decreases |metas|
  {
    if |metas| == 0 || s.SweepDied? then s
    else SweepMetas(host, opts, faults, dedup, variant, SweepStep(host, opts, faults, dedup, variant, s, metas[0]), metas[1..])
  }

  /** The -all loop: every node with an incoming directory, in the order the
      neighbour map yields them, its meta files listed when it is reached. */
  function SweepNodes(host: Host, opts: Options, faults: Faults, variant: Variant, s: Sweep, nodes: seq<Cfg.Node>): (r: Sweep)
    // A death ends the loop, and nodes without an incoming directory are skipped.
    ensures s.SweepDied? ==> r == s
    ensures (forall i :: 0 <= i < |nodes| ==> nodes[i].incoming.None?) ==> r == s
    decreases |nodes|
  {
    if |nodes| == 0 || s.SweepDied? then s
    else if nodes[0].incoming.None? then SweepNodes(host, opts, faults, variant, s, nodes[1..])
    else
      var metas := FindMetas(host, s.fs, nodes[0].incoming.value);
      SweepNodes(host, opts, faults, variant, SweepMetas(host, opts, faults, true, variant, s, metas), nodes[1..])
  }

  /** The paths of `metas` that are not in `seen`, each at its first
      occurrence, in order. */
  function Fresh(metas: seq<Path>, seen: set<Path>): seq<Path>
    decreases |metas|
  {
    if |metas| == 0 then []
    else if metas[0] in seen then Fresh(metas[1..], seen)
    else [metas[0]] + Fresh(metas[1..], seen + {metas[0]})
  }

  /** As written, a failure stops all further processing: from a state with
      hasErrors set, the rest of the loop calls process on nothing and
      changes no file. */
  lemma {:induction false} ShortCircuitSkips(host: Host, opts: Options, faults: Faults, dedup: bool, s: Sweep, metas: seq<Path>)
    requires s.Sweep? && s.hasErrors
    ensures var r := SweepMetas(host, opts, faults, dedup, AsWritten, s, metas);
      r.Sweep? && r.hasErrors && r.fs == s.fs && r.processed == s.processed
    decreases |metas|
  {
    if |metas| > 0 {
      ShortCircuitSkips(host, opts, faults, dedup, SweepStep(host, opts, faults, dedup, AsWritten, s, metas[0]), metas[1..]);
    }
  }

  /** The consequence for the loop as written: when the first meta file fails,
      none of the others is looked at. */
  lemma ShortCircuitStopsAtFirstFailure(host: Host, opts: Options, faults: Faults, fs: FS, metas: seq<Path>)
    requires |metas| > 0
    requires var o := Process(AsWritten, host, SweepOptions(opts), faults, fs, metas[0]); o.Processed? && !o.ok
    ensures SweepMetas(host, opts, faults, false, AsWritten, Sweep(false, {}, fs, []), metas).processed == [metas[0]]
  {
    var s1 := SweepStep(host, opts, faults, false, AsWritten, Sweep(false, {}, fs, []), metas[0]);
    ShortCircuitSkips(host, opts, faults, false, s1, metas[1..]);
  }

  function Elems(metas: seq<Path>): set<Path>
    decreases |metas|
  {
    if |metas| == 0 then {} else {metas[0]} + Elems(metas[1..])
  }

  /** One step without the short circuit: a path met before is skipped under
      dedup; any other path is processed, recorded and marked as met, and an
      earlier failure stays recorded. */
  lemma SweepStepProcesses(host: Host, opts: Options, faults: Faults, dedup: bool, s: Sweep, p: Path)
    requires s.Sweep?
    ensures var r := SweepStep(host, opts, faults, dedup, Corrected, s, p);
      r.Sweep? ==>
        if dedup && p in s.seen then r == s
        else r.processed == s.processed + [p] && r.seen == s.seen + {p} && (s.hasErrors ==> r.hasErrors)
  {
  }

  /** Without the short circuit and under -all, a sweep that does not die
      hands each meta path not met before to process once, marks every listed
      path as met, and never forgets an earlier failure. */
  lemma {:induction false} SweepProcessesFresh(host: Host, opts: Options, faults: Faults, s: Sweep, metas: seq<Path>)
    requires s.Sweep?
    ensures var r := SweepMetas(host, opts, faults, true, Corrected, s, metas);
      r.Sweep? ==>
        && r.processed == s.processed + Fresh(metas, s.seen)
        && (s.hasErrors ==> r.hasErrors)
        && r.seen == s.seen + Elems(metas)
    decreases |metas|
  {
    if |metas| > 0 {
      var s1 := SweepStep(host, opts, faults, true, Corrected, s, metas[0]);
      if s1.Sweep? {
        SweepStepProcesses(host, opts, faults, true, s, metas[0]);
        SweepProcessesFresh(host, opts, faults, s1, metas[1..]);
        if metas[0] !in s.seen {
          assert Fresh(metas, s.seen) == [metas[0]] + Fresh(metas[1..], s.seen + {metas[0]});
        }
      }
    }
  }

  /** Without the short circuit, a sweep that does not die hands every meta
      path to process: each one once under -all (paths met before skipped),
      every listed one otherwise; and an earlier failure is never forgotten. */
  lemma SweepProcessesAll(host: Host, opts: Options, faults: Faults, dedup: bool, s: Sweep, metas: seq<Path>)
    requires s.Sweep?
    ensures var r := SweepMetas(host, opts, faults, dedup, Corrected, s, metas);
      r.Sweep? ==>
        && r.processed == s.processed + (if dedup then Fresh(metas, s.seen) else metas)
        && (s.hasErrors ==> r.hasErrors)
        && (dedup ==> r.seen == s.seen + Elems(metas))
  {
    if dedup {
      SweepProcessesFresh(host, opts, faults, s, metas);
    }
  }

  predicate Distinct(ps: seq<Path>) {
    forall i, j :: 0 <= i < j < |ps| ==> ps[i] != ps[j]
  }

  /** Under dedup every processed path is marked as met and none is processed
      twice; one step keeps that so. */
  predicate OnceEach(s: Sweep) {
    s.Sweep? ==> Distinct(s.processed) && forall i :: 0 <= i < |s.processed| ==> s.processed[i] in s.seen
  }

  lemma SweepStepOnce(host: Host, opts: Options, faults: Faults, variant: Variant, s: Sweep, p: Path)
    requires s.Sweep? && OnceEach(s)
    ensures var r := SweepStep(host, opts, faults, true, variant, s, p);
      (r.Sweep? ==> OnceEach(r)) && (r.SweepDied? ==> Distinct(r.processed))
  {
    var r := SweepStep(host, opts, faults, true, variant, s, p);
    if p !in s.seen && r.processed != s.processed {
      assert r.processed == s.processed + [p];
      assert forall i :: 0 <= i < |s.processed| ==> s.processed[i] != p;
    }
  }

  lemma {:induction false} SweepMetasOnce(host: Host, opts: Options, faults: Faults, variant: Variant, s: Sweep, metas: seq<Path>)
    requires OnceEach(s) && (s.SweepDied? ==> Distinct(s.processed))
    ensures var r := SweepMetas(host, opts, faults, true, variant, s, metas);
      OnceEach(r) && Distinct(r.processed)
    decreases |metas|
  {
    if |metas| > 0 && s.Sweep? {
      SweepStepOnce(host, opts, faults, variant, s, metas[0]);
      SweepMetasOnce(host, opts, faults, variant, SweepStep(host, opts, faults, true, variant, s, metas[0]), metas[1..]);
    }
  }

  /** Under -all no meta path is handed to process twice, even when several
      nodes share an incoming directory. */
  lemma {:induction false} SweepNodesOnce(host: Host, opts: Options, faults: Faults, variant: Variant, s: Sweep, nodes: seq<Cfg.Node>)
    requires OnceEach(s) && (s.SweepDied? ==> Distinct(s.processed))
    ensures var r := SweepNodes(host, opts, faults, variant, s, nodes);
      OnceEach(r) && Distinct(r.processed)
    decreases |nodes|
  {
    if |nodes| > 0 && s.Sweep? {
      if nodes[0].incoming.None? {
        SweepNodesOnce(host, opts, faults, variant, s, nodes[1..]);
      } else {
        var metas := FindMetas(host, s.fs, nodes[0].incoming.value);
        SweepMetasOnce(host, opts, faults, variant, s, metas);
        SweepNodesOnce(host, opts, faults, variant, SweepMetas(host, opts, faults, true, variant, s, metas), nodes[1..]);
      }
    }
  }

  /** How the program ends: the usage message with status 1, death by
      log.Fatalln or panic, or a normal exit with status 1 when `failed`,
      together with the file system and what went to standard output. */
  datatype Exit = Usage | Died(fs: FS) | Exited(failed: bool, fs: FS, out: Bytes)

  function SweepExit(s: Sweep): Exit {
    match s
    case SweepDied(fs, _) => Died(fs)
    case Sweep(hasErrors, _, fs, _) => Exited(hasErrors, fs, [])
  }

  /** The start state of a sweep. */
  function Start(fs: FS): Sweep {
    Sweep(false, {}, fs, [])
  }

  /** `order` lists every neighbour id exactly once: the order in which a
      range over the neighbour map happens to visit them. */
  predicate Enumerates(order: seq<NodeId>, neigh: map<NodeId, Cfg.Node>) {
    && (forall i, j :: 0 <= i < j < |order| ==> order[i] != order[j])
    && (forall id :: id in neigh ==> id in order)
    && (forall i :: 0 <= i < |order| ==> order[i] in neigh)
  }

  /** The neighbours in the given order. */
  function NodesIn(order: seq<NodeId>, neigh: map<NodeId, Cfg.Node>): (nodes: seq<Cfg.Node>)
    requires forall i :: 0 <= i < |order| ==> order[i] in neigh
    ensures |nodes| == |order| && forall i :: 0 <= i < |order| ==> nodes[i] == neigh[order[i]]
  {
    seq(|order|, i requires 0 <= i < |order| => neigh[order[i]])
  }

  /** main after the configuration is parsed, as written: process is called
      with the size rule of the code, and the sweeps stop calling it after
      the first failure (ShortCircuitSkips). Under -all the neighbours are
      visited in `order`, any order in which ranging over the map may visit
      them. */
  function Main(dec: Cfg.Decoders, host: Host, ctx: Cfg.Ctx, order: seq<NodeId>, args: Args, faults: Faults, fs: FS): (e: Exit)
    requires Enumerates(order, ctx.neigh)
    ensures e.Usage? <==> SelectMode(dec, ctx, args).UsageError?
    ensures SelectMode(dec, ctx, args) == BadNode ==> e == Died(fs)
    ensures e.Exited? && e.out != [] ==> |args.files| > 0 && args.opts.stdout
    ensures forall node :: SelectMode(dec, ctx, args) == Selected(OneNode(node)) && node.incoming.None? ==> e == Died(fs)
    ensures forall p :: SelectMode(dec, ctx, args) == Selected(OneFile(p)) ==>
      var o := Process(AsWritten, host, args.opts, faults, fs, p);
      && (e.Died? <==> o.Fatal?)
      && (o.Processed? ==> e.Exited? && e.failed == !o.ok && e.fs == o.fs && e.out == o.out)
    ensures forall node :: SelectMode(dec, ctx, args) == Selected(OneNode(node)) && node.incoming.Some? ==>
      var r := SweepMetas(host, args.opts, faults, false, AsWritten, Start(fs), FindMetas(host, fs, node.incoming.value));
      && (e.Exited? <==> r.Sweep?)
      && (r.Sweep? ==> e == Exited(r.hasErrors, r.fs, []))
    ensures SelectMode(dec, ctx, args) == Selected(AllNodes) ==>
      var nodes := NodesIn(order, ctx.neigh);
      var r := SweepNodes(host, args.opts, faults, AsWritten, Start(fs), nodes);
      && (forall id :: id in ctx.neigh ==> exists i :: 0 <= i < |nodes| && order[i] == id && nodes[i] == ctx.neigh[id])
      && (e.Exited? <==> r.Sweep?)
      && (r.Sweep? ==> e == Exited(r.hasErrors, r.fs, []))
  {
    match SelectMode(dec, ctx, args)
    case BadNode => Died(fs)
    case UsageError => Usage
    case Selected(OneFile(path)) =>
      (match Process(AsWritten, host, args.opts, faults, fs, path)
       case Fatal(fs1) => Died(fs1)
       case Processed(ok, fs1, out) => Exited(!ok, fs1, out))
    case Selected(OneNode(node)) =>
      if node.incoming.None? then Died(fs)
      else SweepExit(SweepMetas(host, args.opts, faults, false, AsWritten, Start(fs), FindMetas(host, fs, node.incoming.value)))
    case Selected(AllNodes) =>
      SweepExit(SweepNodes(host, args.opts, faults, AsWritten, Start(fs), NodesIn(order, ctx.neigh)))
  }
}

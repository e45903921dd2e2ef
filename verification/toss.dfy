/** Tossing (toss.go): every received job of one node goes through the nice
    filter, decryption, the per-type enable flags and a type-specific dispatch,
    and is then retired (seen marker, then removal) or left in place. One job is
    a pure function of the configuration, the flags and the file system; a run
    is a fold over the job sequence. */
module Toss {
  import opened Common
  import opened Spool
  import Naming
  import Segments
  import Cfg

  const SeenSuffix: string := ".seen"
  const NulByte: byte := 0
  /** blake2b.Size256: the width of a node id. */
  const NodeIdSize: nat := 32
  const FileTempPrefix: string := "nncp-file"

  datatype PktType = PktFile | PktFreq | PktExec | PktTrns | PktUnknown(tag: int)

  /** The inner packet header, its path already cut to PathLen. */
  datatype Pkt = Pkt(kind: PktType, nice: uint8, path: Bytes)

  /** What remains of the decrypted stream after the header: the bytes that
      can be read, and whether the stream ends cleanly (false when decryption
      fails part way through). */
  datatype Stream = Stream(data: Bytes, complete: bool)

  /** Whether the error the decrypting goroutine reports is looked at once the
      body has been read. Ctx.Toss never receives from that channel
      (AsWritten), so a body cut short by a decryption failure reads as a clean
      end of stream; Checked is the evidently intended behaviour, which makes
      such a job bad and leaves it in the spool. */
  datatype Reading = AsWritten | Checked

  /** The result of decrypting a job and unmarshalling its packet header. */
  datatype Opened = Undecodable | Opened(pkt: Pkt, body: Stream)

  /** What toss.go calls but does not define: PktEncRead together with the
      header unmarshal, zlib.NewReader (None when the header is bad), the
      textual form of a node id, path functions and the per-layer overheads. */
  datatype Host = Host(
    paths: PathOps,
    open: Option<Bytes> -> Opened,
    inflate: Bytes -> Option<Bytes>,
    idString: NodeId -> string,
    pktEncOverhead: int,
    pktOverhead: int
  )

  datatype Command = Command(program: string, args: seq<string>, env: seq<string>, stdin: Bytes)

  /** Outbound packets are recorded, not built: TxFile, TxFileChunked, TxTrns. */
  datatype Outbound =
    | TxFile(node: NodeId, nice: uint8, src: Path, dst: string, minSize: int)
    | TxFileChunked(node: NodeId, nice: uint8, src: Path, dst: string, minSize: int, chunkSize: int)
    | TxTrns(node: NodeId, nice: uint8, size: int, data: Bytes)

  /** Every side effect a job attempts, in the order it attempts them. */
  datatype Effect =
    | Mkdir(dir: Path)
    | WriteTemp(tmp: Path, data: Bytes)
    | MoveInto(tmp: Path, dst: Path)
    | MarkSeen(marker: Path)
    | RemoveJob(path: Path)
    | Run(cmd: Command)
    | Send(out: Outbound)

  /** Which system calls, commands and transmissions fail. */
  datatype Env = Env(faults: Faults, runFails: set<Command>, txFails: set<Outbound>)

  datatype Flags = Flags(nice: uint8, dryRun: bool, doSeen: bool, noFile: bool, noFreq: bool, noExec: bool, noTrns: bool)

  /** A job either finishes (bad or not) or brings the whole run down (a
      log.Fatalln or a nil dereference). */
  datatype Outcome =
    | Tossed(bad: bool, fs: FS, effects: seq<Effect>)
    | Aborted(fs: FS, effects: seq<Effect>)

  function SeenPath(p: Path): Path {
    p + SeenSuffix
  }

  /** The spool file is removed only as the very last effect, and, when seen
      markers are requested, right after its marker was written. */
  predicate RetiredLast(effects: seq<Effect>, job: Job, flags: Flags) {
    forall i :: 0 <= i < |effects| && effects[i].RemoveJob? ==>
      && i == |effects| - 1
      && effects[i].path == job.path
      && (flags.doSeen ==> i > 0 && effects[i - 1] == MarkSeen(SeenPath(job.path)))
  }

  predicate NoRemoval(effects: seq<Effect>) {
    forall i :: 0 <= i < |effects| ==> !effects[i].RemoveJob?
  }

  predicate OnlyMkdirs(effects: seq<Effect>) {
    forall i :: 0 <= i < |effects| ==> effects[i].Mkdir?
  }

  function ExitFs(o: Outcome): FS {
    match o
    case Tossed(_, fs, _) => fs
    case Aborted(fs, _) => fs
  }

  function Effects(o: Outcome): seq<Effect> {
    match o
    case Tossed(_, _, e) => e
    case Aborted(_, e) => e
  }

  // ------------------------------------------------------------- retirement

  /** After a successful dispatch outside dry-run mode: when doSeen, create the
      empty seen marker (its failure is ignored), then remove the spool file
      (its failure marks the job bad). */
  function Retire(env: Env, flags: Flags, job: Job, fs: FS, effects: seq<Effect>, bad: bool): (o: Outcome)
    ensures o.Tossed?
    ensures o.effects == effects + (if flags.doSeen then [MarkSeen(SeenPath(job.path))] else []) + [RemoveJob(job.path)]
    ensures NoRemoval(effects) ==> RetiredLast(o.effects, job, flags)
    ensures o.bad <==> bad || job.path !in fs.files || job.path in env.faults.removeFails
    ensures job.path in o.fs.files <==> job.path in fs.files && job.path in env.faults.removeFails
    ensures Untouched(fs, o.fs, {job.path, SeenPath(job.path)})
    ensures o.fs.dirs == fs.dirs
  {
    var seen := SeenPath(job.path);
    assert seen != job.path by {
      assert |seen| > |job.path|;
    }
    var marked := if flags.doSeen then CreateEmpty(fs, env.faults, seen).fs else fs;
    var marks := if flags.doSeen then [MarkSeen(seen)] else [];
    var rm := Remove(marked, env.faults, job.path);
    Tossed(bad || !rm.ok, rm.fs, effects + marks + [RemoveJob(job.path)])
  }

  /** How a dispatch that reached the retirement ends: the spool file is
      removed last and is gone unless the system refused its removal, and the
      job is bad exactly when `failed`, when the spool file was missing, or
      when its removal was refused. */
  predicate Retired(o: Outcome, env: Env, job: Job, fs: FS, failed: bool) {
    && o.Tossed?
    && |o.effects| > 0 && o.effects[|o.effects| - 1] == RemoveJob(job.path)
    && (o.bad <==> failed || job.path !in fs.files || job.path in env.faults.removeFails)
    && (job.path in o.fs.files <==> job.path in fs.files && job.path in env.faults.removeFails)
  }

  // ------------------------------------------------------------------- Exec

  /** The handle name and the arguments carried in an Exec path. */
  function ExecHandle(pkt: Pkt): string {
    Str(Segments.SplitOn(pkt.path, NulByte)[0])
  }

  function ExecArgs(pkt: Pkt): seq<string> {
    var segs := Segments.SplitOn(pkt.path, NulByte)[1..];
    seq(|segs|, i requires 0 <= i < |segs| => Str(segs[i]))
  }

  /** The environment handed to the command: exactly these three variables. */
  function ExecEnv(host: Host, self: Cfg.NodeOur, sender: Cfg.Node, pkt: Pkt): seq<string> {
    ["NNCP_SELF=" + host.idString(self.id),
     "NNCP_SENDER=" + host.idString(sender.id),
     "NNCP_NICE=" + Naming.Itoa(pkt.nice as nat)]
  }

  predicate HandleFound(ctx: Cfg.Ctx, job: Job, pkt: Pkt) {
    && job.enc.sender in ctx.neigh
    && ExecHandle(pkt) in ctx.neigh[job.enc.sender].exec
    && |ctx.neigh[job.enc.sender].exec[ExecHandle(pkt)]| > 0
  }

  function TossExec(ctx: Cfg.Ctx, host: Host, env: Env, flags: Flags, job: Job, pkt: Pkt, body: Stream, fs: FS): (o: Outcome)
    ensures Untouched(fs, ExitFs(o), {job.path, SeenPath(job.path)})
    ensures RetiredLast(Effects(o), job, flags)
    ensures flags.dryRun ==> ExitFs(o) == fs && Effects(o) == []
    ensures host.inflate(body.data).None? ==> o == Aborted(fs, [])
    ensures host.inflate(body.data).Some? && job.enc.sender in ctx.neigh && !HandleFound(ctx, job, pkt) ==>
      o == Tossed(true, fs, [])
    ensures o.Tossed? && o.effects != [] ==>
      && HandleFound(ctx, job, pkt) && ctx.self.Some?
      && var cmdline := ctx.neigh[job.enc.sender].exec[ExecHandle(pkt)];
         o.effects[0] == Run(Command(cmdline[0], cmdline[1..] + ExecArgs(pkt),
                                     ExecEnv(host, ctx.self.value, ctx.neigh[job.enc.sender], pkt),
                                     host.inflate(body.data).value))
    ensures o.Tossed? && o.effects != [] ==> (o.effects[0].cmd in env.runFails ==> o == Tossed(true, fs, o.effects[..1]))
    ensures !flags.dryRun && host.inflate(body.data).Some? && HandleFound(ctx, job, pkt) && ctx.self.Some? ==>
      var cmdline := ctx.neigh[job.enc.sender].exec[ExecHandle(pkt)];
      var cmd := Command(cmdline[0], cmdline[1..] + ExecArgs(pkt),
                         ExecEnv(host, ctx.self.value, ctx.neigh[job.enc.sender], pkt),
                         host.inflate(body.data).value);
      && o.Tossed? && o.effects != [] && o.effects[0] == Run(cmd)
      && (cmd in env.runFails ==> o == Tossed(true, fs, [Run(cmd)]))
      && (cmd !in env.runFails ==> Retired(o, env, job, fs, false))
  {
    match host.inflate(body.data)
    case None => Aborted(fs, [])
    case Some(stdin) =>
      if job.enc.sender !in ctx.neigh then Aborted(fs, [])
      else
        var sender := ctx.neigh[job.enc.sender];
        var handle := ExecHandle(pkt);
        if handle !in sender.exec || |sender.exec[handle]| == 0 then Tossed(true, fs, [])
        else if flags.dryRun then Tossed(false, fs, [])
        else match ctx.self
          case None => Aborted(fs, [])
          case Some(self) =>
            var cmdline := sender.exec[handle];
            var cmd := Command(cmdline[0], cmdline[1..] + ExecArgs(pkt), ExecEnv(host, self, sender, pkt), stdin);
            if cmd in env.runFails then Tossed(true, fs, [Run(cmd)])
            else Retire(env, flags, job, fs, [Run(cmd)], false)
  }

  // ------------------------------------------------------------------- File

  /** Where a File packet goes: the first name among orig, orig+"0",
      orig+"1", ... that is not `taken`, the paths present while the names are
      probed (everything in `before` plus what the job itself created). The
      received bytes are found there afterwards unless that name is one of the
      spool's own paths `spoolOwn` (the job file and its seen marker), which
      retirement rewrites. */
  predicate DeliveredAt(before: FS, taken: set<Path>, after: FS, orig: Path, data: Bytes, spoolOwn: set<Path>) {
    var d := Naming.FreeName(taken, orig);
    && before.Names() <= taken
    && (d !in spoolOwn ==> d in after.files && after.files[d] == data)
  }

  /** Move the finished temporary file to `dst` and retire the job; a failed
      move marks the job bad but does not stop the retirement. */
  function MoveAndRetire(env: Env, flags: Flags, job: Job, fs: FS, tmp: Path, dst: Path, effects: seq<Effect>): (o: Outcome)
    requires tmp in fs.files
    ensures o.Tossed?
    ensures |o.effects| > |effects| && o.effects[|effects|] == MoveInto(tmp, dst)
    ensures forall i :: 0 <= i < |effects| ==> o.effects[i] == effects[i]
    ensures forall i :: |effects| < i < |o.effects| ==> !o.effects[i].MoveInto?
    ensures Untouched(fs, o.fs, {tmp, dst, job.path, SeenPath(job.path)})
    ensures o.fs.dirs == fs.dirs
    ensures dst in env.faults.renameFails ==> o.bad
    ensures |o.effects| > |effects| && o.effects[|o.effects| - 1] == RemoveJob(job.path)
    ensures NoRemoval(effects) ==> RetiredLast(o.effects, job, flags)
    ensures !o.bad && dst != job.path && dst != SeenPath(job.path) ==> dst in o.fs.files && o.fs.files[dst] == fs.files[tmp]
    ensures !o.bad ==> job.path !in o.fs.files
    ensures tmp != job.path && dst != job.path ==> Retired(o, env, job, fs, dst in env.faults.renameFails)
  {
    var mv := Rename(fs, env.faults, tmp, dst);
    Retire(env, flags, job, mv.fs, effects + [MoveInto(tmp, dst)], !mv.ok)
  }

  /** The non-dry-run tail of a File packet whose body was read in full into
      the fresh temporary file `tmp`: move it to the first free name derived
      from `orig`, then retire the job even when the move failed. */
  function StoreComplete(env: Env, flags: Flags, job: Job, data: Bytes, fs: FS, dir: Path, tmp: Path, orig: Path): (o: Outcome)
    requires tmp !in fs.Names()
    ensures o.Tossed?
    ensures o.fs.dirs == fs.dirs
    ensures RetiredLast(o.effects, job, flags)
    ensures |o.effects| > 0 && o.effects[|o.effects| - 1] == RemoveJob(job.path)
    ensures !o.bad ==> job.path !in o.fs.files
  {
    var written := fs.(files := fs.files[tmp := data]);
    var effects := [Mkdir(dir), WriteTemp(tmp, data)];
    var dst := Naming.FreeName(written.Names(), orig);
    assert NoRemoval(effects);
    var o := MoveAndRetire(env, flags, job, written, tmp, dst, effects);
    assert o.fs.dirs == fs.dirs;
    assert RetiredLast(o.effects, job, flags);
    o
  }

  /** A move that the system refuses makes the job bad. */
  lemma StoreCompleteMoveFails(env: Env, flags: Flags, job: Job, data: Bytes, fs: FS, dir: Path, tmp: Path, orig: Path)
    requires tmp !in fs.Names()
    ensures var o := StoreComplete(env, flags, job, data, fs, dir, tmp, orig);
      forall i :: 0 <= i < |o.effects| && o.effects[i].MoveInto? && o.effects[i].dst in env.faults.renameFails ==> o.bad
  {
    var written := fs.(files := fs.files[tmp := data]);
    var effects := [Mkdir(dir), WriteTemp(tmp, data)];
    var dst := Naming.FreeName(written.Names(), orig);
    var o := MoveAndRetire(env, flags, job, written, tmp, dst, effects);
    assert StoreComplete(env, flags, job, data, fs, dir, tmp, orig) == o;
    forall i | 0 <= i < |o.effects| && o.effects[i].MoveInto? && o.effects[i].dst in env.faults.renameFails
      ensures o.bad
    {
      if i < |effects| {
        assert false;
      } else if i == |effects| {
        assert o.effects[i].dst == dst;
      }
    }
  }

  lemma StoreCompleteFrame(env: Env, flags: Flags, job: Job, data: Bytes, fs: FS, dir: Path, tmp: Path, orig: Path)
    requires tmp !in fs.Names()
    ensures Untouched(fs, StoreComplete(env, flags, job, data, fs, dir, tmp, orig).fs, {job.path, SeenPath(job.path)})
  {
    var written := fs.(files := fs.files[tmp := data]);
    var dst := Naming.FreeName(written.Names(), orig);
    var o := MoveAndRetire(env, flags, job, written, tmp, dst, [Mkdir(dir), WriteTemp(tmp, data)]);
    assert StoreComplete(env, flags, job, data, fs, dir, tmp, orig) == o;
  }

  lemma StoreCompleteDelivers(env: Env, flags: Flags, job: Job, data: Bytes, fs: FS, dir: Path, tmp: Path, orig: Path)
    requires tmp !in fs.Names()
    ensures var o := StoreComplete(env, flags, job, data, fs, dir, tmp, orig);
      !o.bad ==> DeliveredAt(fs, fs.Names() + {tmp}, o.fs, orig, data, {job.path, SeenPath(job.path)})
  {
    var written := fs.(files := fs.files[tmp := data]);
    assert written.Names() == fs.Names() + {tmp};
  }

  /** For a job whose spool file exists, storing ends with the retirement,
      and the job is bad exactly when the move into the first free name or
      the removal of the spool file is refused. */
  lemma StoreCompleteRetires(env: Env, flags: Flags, job: Job, data: Bytes, fs: FS, dir: Path, tmp: Path, orig: Path)
    requires tmp !in fs.Names()
    ensures job.path in fs.files ==>
      Retired(StoreComplete(env, flags, job, data, fs, dir, tmp, orig), env, job, fs,
              Naming.FreeName(fs.Names() + {tmp}, orig) in env.faults.renameFails)
  {
    var written := fs.(files := fs.files[tmp := data]);
    assert written.Names() == fs.Names() + {tmp};
    var dst := Naming.FreeName(written.Names(), orig);
    assert StoreComplete(env, flags, job, data, fs, dir, tmp, orig)
        == MoveAndRetire(env, flags, job, written, tmp, dst, [Mkdir(dir), WriteTemp(tmp, data)]);
  }

  /** The body read into the fresh temporary file `tmp`, then stored as
      StoreComplete describes. With Checked, a body whose decryption failed
      part way stays in the temporary file and the job is bad and kept. */
  function StoreBody(env: Env, flags: Flags, reading: Reading, job: Job, body: Stream, fs: FS, dir: Path, tmp: Path, orig: Path): (o: Outcome)
    requires tmp !in fs.Names()
    ensures o.Tossed?
    ensures o.fs.dirs == fs.dirs
    ensures Untouched(fs, o.fs, {job.path, SeenPath(job.path)})
    ensures RetiredLast(o.effects, job, flags)
    ensures !o.bad ==> job.path !in o.fs.files && |o.effects| > 0 && o.effects[|o.effects| - 1] == RemoveJob(job.path)
    ensures reading.Checked? && !o.bad ==> body.complete
    ensures reading.Checked? && !body.complete ==> NoRemoval(o.effects)
    ensures forall i :: 0 <= i < |o.effects| && o.effects[i].MoveInto? ==>
      && o.effects[|o.effects| - 1] == RemoveJob(job.path)
      && (o.effects[i].dst in env.faults.renameFails ==> o.bad)
    ensures !o.bad ==> DeliveredAt(fs, fs.Names() + {tmp}, o.fs, orig, body.data, {job.path, SeenPath(job.path)})
    ensures (reading.AsWritten? || body.complete) && job.path in fs.files ==>
      Retired(o, env, job, fs, Naming.FreeName(fs.Names() + {tmp}, orig) in env.faults.renameFails)
  {
    if reading.Checked? && !body.complete then
      Tossed(true, fs.(files := fs.files[tmp := body.data]), [Mkdir(dir), WriteTemp(tmp, body.data)])
    else
      StoreCompleteFrame(env, flags, job, body.data, fs, dir, tmp, orig);
      StoreCompleteMoveFails(env, flags, job, body.data, fs, dir, tmp, orig);
      StoreCompleteDelivers(env, flags, job, body.data, fs, dir, tmp, orig);
      StoreCompleteRetires(env, flags, job, body.data, fs, dir, tmp, orig);
      StoreComplete(env, flags, job, body.data, fs, dir, tmp, orig)
  }

  /** A File packet: refused when its destination is absolute or the sender
      has no incoming directory; otherwise the target directory is created (also
      in dry-run mode) and the body stored as StoreBody describes. */
  function TossFile(ctx: Cfg.Ctx, host: Host, env: Env, flags: Flags, reading: Reading, job: Job, pkt: Pkt, body: Stream, fs: FS): (o: Outcome)
    ensures IsAbs(Str(pkt.path)) ==> o == Tossed(true, fs, [])
    ensures !IsAbs(Str(pkt.path)) && job.enc.sender in ctx.neigh && ctx.neigh[job.enc.sender].incoming.None? ==>
      o == Tossed(true, fs, [])
    ensures o.Tossed? && !o.bad && !flags.dryRun ==>
      && job.enc.sender in ctx.neigh && ctx.neigh[job.enc.sender].incoming.Some? && job.path !in o.fs.files
      && |o.effects| > 0 && o.effects[|o.effects| - 1] == RemoveJob(job.path)
    ensures reading.Checked? && o.Tossed? && !o.bad && !flags.dryRun ==> body.complete
    ensures reading.Checked? && !body.complete ==> NoRemoval(Effects(o))
    ensures flags.dryRun ==> ExitFs(o).files == fs.files && |Effects(o)| <= 1
    ensures Untouched(fs, ExitFs(o), {job.path, SeenPath(job.path)})
    ensures o.Tossed? ==> forall i :: 0 <= i < |o.effects| && o.effects[i].MoveInto? ==>
      && o.effects[|o.effects| - 1] == RemoveJob(job.path)
      && (o.effects[i].dst in env.faults.renameFails ==> o.bad)
    ensures o.Tossed? && !o.bad && !flags.dryRun ==>
      var incoming := ctx.neigh[job.enc.sender].incoming.value;
      var dir := host.paths.join(incoming, host.paths.dir(Str(pkt.path)));
      var tmp := TempName(fs.(dirs := fs.dirs + {dir}), host.paths, dir, FileTempPrefix);
      DeliveredAt(fs, fs.Names() + {dir, tmp}, o.fs, host.paths.join(incoming, Str(pkt.path)), body.data, {job.path, SeenPath(job.path)})
  {
    var dst := Str(pkt.path);
    if IsAbs(dst) then Tossed(true, fs, [])
    else if job.enc.sender !in ctx.neigh then Aborted(fs, [])
    else match ctx.neigh[job.enc.sender].incoming
      case None => Tossed(true, fs, [])
      case Some(incoming) =>
        var dir := host.paths.join(incoming, host.paths.dir(dst));
        var mk := MkdirAll(fs, env.faults, dir);
        if !mk.ok then Tossed(true, fs, [Mkdir(dir)])
        else if flags.dryRun then Tossed(false, mk.fs, [Mkdir(dir)])
        // TempFile failing leaves a nil *os.File whose Name() is read before
        // the error is checked: a nil dereference.
        else if dir in env.faults.tempFails then Aborted(mk.fs, [Mkdir(dir)])
        else
          var tmp := TempName(mk.fs, host.paths, dir, FileTempPrefix);
          assert mk.fs.Names() + {tmp} == fs.Names() + {dir, tmp};
          StoreBody(env, flags, reading, job, body, mk.fs, dir, tmp, host.paths.join(incoming, dst))
  }

  /** A File packet that passes every check before the directory is made:
      a relative destination, a known sender with an incoming directory, a
      body read to its end (or read as written), outside dry-run mode, for a
      job whose spool file exists. */
  predicate FileAccepted(ctx: Cfg.Ctx, host: Host, flags: Flags, reading: Reading, job: Job, pkt: Pkt, body: Stream, fs: FS) {
    && !IsAbs(Str(pkt.path)) && !flags.dryRun
    && job.enc.sender in ctx.neigh && ctx.neigh[job.enc.sender].incoming.Some?
    && (reading.AsWritten? || body.complete)
    && job.path in fs.files
  }

  /** A File packet that passes the checks ends as the system calls allow:
      a refused MkdirAll marks the job bad with nothing else done, a refused
      TempFile brings the program down, and otherwise the job is retired and
      is bad exactly when the move into the first free name or the removal of
      the spool file is refused. */
  lemma TossFileRetires(ctx: Cfg.Ctx, host: Host, env: Env, flags: Flags, reading: Reading, job: Job, pkt: Pkt, body: Stream, fs: FS)
    ensures var o := TossFile(ctx, host, env, flags, reading, job, pkt, body, fs);
      FileAccepted(ctx, host, flags, reading, job, pkt, body, fs) ==>
        var incoming := ctx.neigh[job.enc.sender].incoming.value;
        var dir := host.paths.join(incoming, host.paths.dir(Str(pkt.path)));
        var tmp := TempName(fs.(dirs := fs.dirs + {dir}), host.paths, dir, FileTempPrefix);
        var dst := Naming.FreeName(fs.Names() + {dir, tmp}, host.paths.join(incoming, Str(pkt.path)));
        && (dir in env.faults.mkdirFails ==> o == Tossed(true, fs, [Mkdir(dir)]))
        && (dir !in env.faults.mkdirFails && dir in env.faults.tempFails ==> o.Aborted?)
        && (dir !in env.faults.mkdirFails && dir !in env.faults.tempFails ==>
              Retired(o, env, job, fs, dst in env.faults.renameFails))
  {
    if FileAccepted(ctx, host, flags, reading, job, pkt, body, fs) {
      var incoming := ctx.neigh[job.enc.sender].incoming.value;
      var dir := host.paths.join(incoming, host.paths.dir(Str(pkt.path)));
      if dir !in env.faults.mkdirFails && dir !in env.faults.tempFails {
        var made := fs.(dirs := fs.dirs + {dir});
        var tmp := TempName(made, host.paths, dir, FileTempPrefix);
        var orig := host.paths.join(incoming, Str(pkt.path));
        assert made.Names() + {tmp} == fs.Names() + {dir, tmp};
        assert TossFile(ctx, host, env, flags, reading, job, pkt, body, fs)
            == StoreBody(env, flags, reading, job, body, made, dir, tmp, orig);
      }
    }
  }

  /** The order of a File packet's effects: at most a directory creation in
      dry-run mode; the spool file removed last; a failed move still followed
      by the retirement and making the job bad. */
  lemma TossFileEffects(ctx: Cfg.Ctx, host: Host, env: Env, flags: Flags, reading: Reading, job: Job, pkt: Pkt, body: Stream, fs: FS)
    ensures var o := TossFile(ctx, host, env, flags, reading, job, pkt, body, fs);
      && fs.dirs <= ExitFs(o).dirs
      && RetiredLast(Effects(o), job, flags)
      && (flags.dryRun ==> OnlyMkdirs(Effects(o)))
  {
  }

  /** As written, a body cut short by a failed decryption is handled exactly
      as if its stream had ended cleanly: when that would succeed, the
      truncated bytes are delivered and the spool file is removed. */
  lemma TossFileTruncated(ctx: Cfg.Ctx, host: Host, env: Env, flags: Flags, job: Job, pkt: Pkt, body: Stream, fs: FS)
    requires !body.complete
    ensures var o := TossFile(ctx, host, env, flags, AsWritten, job, pkt, body, fs);
      && o == TossFile(ctx, host, env, flags, AsWritten, job, pkt, body.(complete := true), fs)
      && (o.Tossed? && !o.bad && !flags.dryRun ==>
            var incoming := ctx.neigh[job.enc.sender].incoming.value;
            var dir := host.paths.join(incoming, host.paths.dir(Str(pkt.path)));
            var tmp := TempName(fs.(dirs := fs.dirs + {dir}), host.paths, dir, FileTempPrefix);
            && job.path !in o.fs.files
            && DeliveredAt(fs, fs.Names() + {dir, tmp}, o.fs, host.paths.join(incoming, Str(pkt.path)), body.data, {job.path, SeenPath(job.path)}))
  {
  }

  // ------------------------------------------------------------------- Freq

  /** The reply a Freq packet asks for: the requested file under the sender's
      freq directory, sent whole or chunked as the sender's configuration says. */
  function FreqReply(host: Host, sender: Cfg.Node, freq: Path, pkt: Pkt, dst: string): Outbound {
    var src := host.paths.join(freq, Str(pkt.path));
    if sender.freqChunked == 0 then TxFile(sender.id, pkt.nice, src, dst, sender.freqMinSize)
    else TxFileChunked(sender.id, pkt.nice, src, dst, sender.freqMinSize, sender.freqChunked)
  }

  function TossFreq(ctx: Cfg.Ctx, host: Host, env: Env, flags: Flags, reading: Reading, job: Job, pkt: Pkt, body: Stream, fs: FS): (o: Outcome)
    ensures Untouched(fs, ExitFs(o), {job.path, SeenPath(job.path)})
    ensures ExitFs(o).dirs == fs.dirs
    ensures RetiredLast(Effects(o), job, flags)
    ensures flags.dryRun ==> ExitFs(o) == fs && Effects(o) == []
    ensures IsAbs(Str(pkt.path)) ==> o == Tossed(true, fs, [])
    ensures !IsAbs(Str(pkt.path)) && (reading.AsWritten? || body.complete) && job.enc.sender in ctx.neigh && ctx.neigh[job.enc.sender].freq.None? ==>
      o == Tossed(true, fs, [])
    ensures o.Tossed? && o.effects != [] ==>
      && job.enc.sender in ctx.neigh && ctx.neigh[job.enc.sender].freq.Some?
      && o.effects[0] == Send(FreqReply(host, ctx.neigh[job.enc.sender], ctx.neigh[job.enc.sender].freq.value, pkt, Str(body.data)))
    ensures o.Tossed? && o.effects != [] && o.effects[0].out in env.txFails ==> o.bad && |o.effects| == 1
    ensures reading.Checked? && !body.complete ==> o == Tossed(true, fs, [])
    ensures !IsAbs(Str(pkt.path)) && (reading.AsWritten? || body.complete) && !flags.dryRun
            && job.enc.sender in ctx.neigh && ctx.neigh[job.enc.sender].freq.Some? ==>
      var out := FreqReply(host, ctx.neigh[job.enc.sender], ctx.neigh[job.enc.sender].freq.value, pkt, Str(body.data));
      && (out in env.txFails ==> o == Tossed(true, fs, [Send(out)]))
      && (out !in env.txFails ==> Retired(o, env, job, fs, false))
  {
    var src := Str(pkt.path);
    if IsAbs(src) then Tossed(true, fs, [])
    else if reading.Checked? && !body.complete then Tossed(true, fs, [])
    else if job.enc.sender !in ctx.neigh then Aborted(fs, [])
    else
      var sender := ctx.neigh[job.enc.sender];
      match sender.freq
      case None => Tossed(true, fs, [])
      case Some(freq) =>
        if flags.dryRun then Tossed(false, fs, [])
        else
          var out := FreqReply(host, sender, freq, pkt, Str(body.data));
          if out in env.txFails then Tossed(true, fs, [Send(out)])
          else Retire(env, flags, job, fs, [Send(out)], false)
  }

  /** As written, a Freq packet whose body was cut short by a failed
      decryption is served like a whole one: the reply is addressed to the
      truncated destination name. */
  lemma TossFreqTruncated(ctx: Cfg.Ctx, host: Host, env: Env, flags: Flags, job: Job, pkt: Pkt, body: Stream, fs: FS)
    requires !body.complete
    requires !IsAbs(Str(pkt.path)) && !flags.dryRun
    requires job.enc.sender in ctx.neigh && ctx.neigh[job.enc.sender].freq.Some?
    ensures var o := TossFreq(ctx, host, env, flags, AsWritten, job, pkt, body, fs);
      && o == TossFreq(ctx, host, env, flags, AsWritten, job, pkt, body.(complete := true), fs)
      && o.Tossed? && o.effects != []
      && o.effects[0] == Send(FreqReply(host, ctx.neigh[job.enc.sender], ctx.neigh[job.enc.sender].freq.value, pkt, Str(body.data)))
  {
  }

  // ------------------------------------------------------------------- Trns

  /** copy() of the path into a [32]byte: truncated, or padded with zeros. */
  function TransitTarget(path: Bytes): (id: NodeId)
    ensures |id| == NodeIdSize
    ensures forall i :: 0 <= i < NodeIdSize ==> id[i] == (if i < |path| then path[i] else 0)
  {
    if |path| >= NodeIdSize then path[..NodeIdSize] else path + seq(NodeIdSize - |path|, _ => 0)
  }

  function TossTrns(ctx: Cfg.Ctx, host: Host, env: Env, flags: Flags, job: Job, pkt: Pkt, body: Stream, fs: FS): (o: Outcome)
    ensures o.Tossed?
    ensures Untouched(fs, o.fs, {job.path, SeenPath(job.path)})
    ensures o.fs.dirs == fs.dirs
    ensures RetiredLast(o.effects, job, flags)
    ensures flags.dryRun ==> o.fs == fs && o.effects == []
    ensures TransitTarget(pkt.path) !in ctx.neigh ==> o == Tossed(true, fs, [])
    ensures o.effects != [] ==>
      && TransitTarget(pkt.path) in ctx.neigh
      && o.effects[0] == Send(TxTrns(ctx.neigh[TransitTarget(pkt.path)].id, job.enc.nice,
                                     job.size - host.pktEncOverhead - host.pktOverhead, body.data))
    ensures o.effects != [] && o.effects[0].out in env.txFails ==> o.bad && |o.effects| == 1
    ensures TransitTarget(pkt.path) in ctx.neigh && !flags.dryRun ==>
      var out := TxTrns(ctx.neigh[TransitTarget(pkt.path)].id, job.enc.nice,
                        job.size - host.pktEncOverhead - host.pktOverhead, body.data);
      && (out in env.txFails ==> o == Tossed(true, fs, [Send(out)]))
      && (out !in env.txFails ==> Retired(o, env, job, fs, false))
  {
    var target := TransitTarget(pkt.path);
    if target !in ctx.neigh then Tossed(true, fs, [])
    else if flags.dryRun then Tossed(false, fs, [])
    else
      var size := job.size - host.pktEncOverhead - host.pktOverhead;
      var out := TxTrns(ctx.neigh[target].id, job.enc.nice, size, body.data);
      if out in env.txFails then Tossed(true, fs, [Send(out)])
      else Retire(env, flags, job, fs, [Send(out)], false)
  }

  // ---------------------------------------------------------------- one job

  predicate Disabled(flags: Flags, kind: PktType) {
    match kind
    case PktExec => flags.noExec
    case PktFile => flags.noFile
    case PktFreq => flags.noFreq
    case PktTrns => flags.noTrns
    case PktUnknown(_) => false
  }

  /** One iteration of the loop in Ctx.Toss: the nice filter, decryption, the
      per-type enable flags, then the type-specific dispatch. */
  function TossJob(ctx: Cfg.Ctx, host: Host, env: Env, flags: Flags, job: Job, fs: FS): (o: Outcome)
    ensures job.enc.nice > flags.nice ==> o == Tossed(false, fs, [])
    ensures job.enc.nice <= flags.nice && host.open(job.content).Undecodable? ==> o == Tossed(true, fs, [])
    ensures job.enc.nice <= flags.nice && host.open(job.content).Opened? && Disabled(flags, host.open(job.content).pkt.kind) ==>
      o == Tossed(false, fs, [])
    ensures job.enc.nice <= flags.nice && host.open(job.content).Opened? && host.open(job.content).pkt.kind.PktUnknown? ==>
      o == Tossed(true, fs, [])
  {
    if job.enc.nice > flags.nice then Tossed(false, fs, [])
    else match host.open(job.content)
      case Undecodable => Tossed(true, fs, [])
      case Opened(pkt, body) =>
        if Disabled(flags, pkt.kind) then Tossed(false, fs, [])
        else match pkt.kind
          case PktExec => TossExec(ctx, host, env, flags, job, pkt, body, fs)
          case PktFile => TossFile(ctx, host, env, flags, AsWritten, job, pkt, body, fs)
          case PktFreq => TossFreq(ctx, host, env, flags, AsWritten, job, pkt, body, fs)
          case PktTrns => TossTrns(ctx, host, env, flags, job, pkt, body, fs)
          case PktUnknown(_) => Tossed(true, fs, [])
  }

  /** A job only ever rewrites its own spool file and seen marker, and never
      removes a directory. */
  lemma TossJobFrame(ctx: Cfg.Ctx, host: Host, env: Env, flags: Flags, job: Job, fs: FS)
    ensures var o := TossJob(ctx, host, env, flags, job, fs);
      Untouched(fs, ExitFs(o), {job.path, SeenPath(job.path)}) && fs.dirs <= ExitFs(o).dirs
  {
    if job.enc.nice <= flags.nice && host.open(job.content).Opened? {
      var pkt, body := host.open(job.content).pkt, host.open(job.content).body;
      if pkt.kind.PktFile? && !flags.noFile {
        TossFileEffects(ctx, host, env, flags, AsWritten, job, pkt, body, fs);
      }
    }
  }

  /** The spool file is removed only by the final effect, after its seen
      marker when one is requested. */
  lemma TossJobRetiredLast(ctx: Cfg.Ctx, host: Host, env: Env, flags: Flags, job: Job, fs: FS)
    ensures RetiredLast(Effects(TossJob(ctx, host, env, flags, job, fs)), job, flags)
  {
    if job.enc.nice <= flags.nice && host.open(job.content).Opened? {
      var pkt, body := host.open(job.content).pkt, host.open(job.content).body;
      if !Disabled(flags, pkt.kind) && pkt.kind.PktFile? {
        TossFileEffects(ctx, host, env, flags, AsWritten, job, pkt, body, fs);
      }
    }
  }

  /** A job that ends without error outside dry-run mode and did anything
      ended by removing its spool file, which is then gone. */
  predicate RemovedWhenDone(o: Outcome, job: Job, flags: Flags) {
    o.Tossed? && !o.bad && !flags.dryRun && o.effects != [] ==>
      o.effects[|o.effects| - 1] == RemoveJob(job.path) && job.path !in o.fs.files
  }

  lemma TossJobRemoved(ctx: Cfg.Ctx, host: Host, env: Env, flags: Flags, job: Job, fs: FS)
    ensures RemovedWhenDone(TossJob(ctx, host, env, flags, job, fs), job, flags)
  {
    if job.enc.nice <= flags.nice && host.open(job.content).Opened? {
      var pkt, body := host.open(job.content).pkt, host.open(job.content).body;
      if !Disabled(flags, pkt.kind) {
        var o := TossJob(ctx, host, env, flags, job, fs);
        match pkt.kind
        case PktExec =>
          assert RemovedWhenDone(TossExec(ctx, host, env, flags, job, pkt, body, fs), job, flags);
          assert o == TossExec(ctx, host, env, flags, job, pkt, body, fs);
        case PktFile =>
          assert RemovedWhenDone(TossFile(ctx, host, env, flags, AsWritten, job, pkt, body, fs), job, flags);
          assert o == TossFile(ctx, host, env, flags, AsWritten, job, pkt, body, fs);
        case PktFreq =>
          assert RemovedWhenDone(TossFreq(ctx, host, env, flags, AsWritten, job, pkt, body, fs), job, flags);
          assert o == TossFreq(ctx, host, env, flags, AsWritten, job, pkt, body, fs);
        case PktTrns =>
          assert RemovedWhenDone(TossTrns(ctx, host, env, flags, job, pkt, body, fs), job, flags);
          assert o == TossTrns(ctx, host, env, flags, job, pkt, body, fs);
        case PktUnknown(_) =>
      }
    }
  }

  /** Retirement comes last: the spool file is removed only by the final
      effect, after its seen marker when one is requested; a job that ends
      without error outside dry-run mode and did anything is gone from the spool. */
  lemma TossJobRetires(ctx: Cfg.Ctx, host: Host, env: Env, flags: Flags, job: Job, fs: FS)
    ensures var o := TossJob(ctx, host, env, flags, job, fs);
      && RetiredLast(Effects(o), job, flags)
      && (o.Tossed? && !o.bad && !flags.dryRun && o.effects != [] ==>
            o.effects[|o.effects| - 1] == RemoveJob(job.path) && job.path !in o.fs.files)
  {
    TossJobRetiredLast(ctx, host, env, flags, job, fs);
    TossJobRemoved(ctx, host, env, flags, job, fs);
  }

  /** In dry-run mode no file changes and the only effect a job may have is
      creating the incoming directory of a File packet. */
  lemma TossJobDryRun(ctx: Cfg.Ctx, host: Host, env: Env, flags: Flags, job: Job, fs: FS)
    requires flags.dryRun
    ensures var o := TossJob(ctx, host, env, flags, job, fs);
      ExitFs(o).files == fs.files && OnlyMkdirs(Effects(o))
  {
    if job.enc.nice <= flags.nice && host.open(job.content).Opened? {
      var pkt, body := host.open(job.content).pkt, host.open(job.content).body;
      if pkt.kind.PktFile? && !flags.noFile {
        TossFileEffects(ctx, host, env, flags, AsWritten, job, pkt, body, fs);
      }
    }
  }

  // -------------------------------------------------------------------- run

  /** Ctx.Toss: the jobs of one node, in the order the spool listing yields
      them, tossed one after the other on the file system each one leaves
      behind. The result is bad when any job was bad; an aborting job ends the
      whole run (the process exits). */
  function TossRun(ctx: Cfg.Ctx, host: Host, env: Env, flags: Flags, jobs: seq<Job>, fs: FS): (o: Outcome)
    // No jobs, nothing done; otherwise the run's effects begin with those of
    // its first job, and a bad first job makes a finished run bad.
    ensures |jobs| == 0 ==> o == Tossed(false, fs, [])
    ensures |jobs| > 0 ==> TossJob(ctx, host, env, flags, jobs[0], fs).effects <= o.effects
    ensures |jobs| > 0 && o.Tossed? ==>
      var first := TossJob(ctx, host, env, flags, jobs[0], fs);
      first.Tossed? && first.bad ==> o.bad
    decreases |jobs|
  {
    if |jobs| == 0 then Tossed(false, fs, [])
    else match TossJob(ctx, host, env, flags, jobs[0], fs)
      case Aborted(fs1, e1) => Aborted(fs1, e1)
      case Tossed(b1, fs1, e1) =>
        match TossRun(ctx, host, env, flags, jobs[1..], fs1)
        case Aborted(fs2, e2) => Aborted(fs2, e1 + e2)
        case Tossed(b2, fs2, e2) => Tossed(b1 || b2, fs2, e1 + e2)
  }

  /** The file system a run has reached just before its i-th job. */
  function StateBefore(ctx: Cfg.Ctx, host: Host, env: Env, flags: Flags, jobs: seq<Job>, i: nat, fs: FS): FS
    requires i <= |jobs|
  {
    ExitFs(TossRun(ctx, host, env, flags, jobs[..i], fs))
  }

  /** Running one more job from where the first i left off: the prefix of a
      run starting with a finished first job continues on that job's file system. */
  lemma StateBeforeStep(ctx: Cfg.Ctx, host: Host, env: Env, flags: Flags, jobs: seq<Job>, i: nat, fs: FS)
    requires 1 <= i <= |jobs|
    requires TossJob(ctx, host, env, flags, jobs[0], fs).Tossed?
    ensures StateBefore(ctx, host, env, flags, jobs, i, fs)
         == StateBefore(ctx, host, env, flags, jobs[1..], i - 1, TossJob(ctx, host, env, flags, jobs[0], fs).fs)
  {
    var pre := jobs[..i];
    assert pre[0] == jobs[0];
    assert pre[1..] == jobs[1..][..i - 1];
  }

  /** A finished run is bad exactly when one of its jobs was bad on the file
      system the jobs before it left behind. */
  lemma {:induction false} TossRunBad(ctx: Cfg.Ctx, host: Host, env: Env, flags: Flags, jobs: seq<Job>, fs: FS)
    ensures var o := TossRun(ctx, host, env, flags, jobs, fs);
      o.Tossed? ==>
        (o.bad <==> exists i :: 0 <= i < |jobs| &&
                      var j := TossJob(ctx, host, env, flags, jobs[i], StateBefore(ctx, host, env, flags, jobs, i, fs));
                      j.Tossed? && j.bad)
    decreases |jobs|
  {
    if |jobs| > 0 {
      assert jobs[..0] == [];
      var first := TossJob(ctx, host, env, flags, jobs[0], fs);
      if first.Tossed? {
        var rest := jobs[1..];
        TossRunBad(ctx, host, env, flags, rest, first.fs);
        forall i | 1 <= i <= |jobs|
          ensures StateBefore(ctx, host, env, flags, jobs, i, fs) == StateBefore(ctx, host, env, flags, rest, i - 1, first.fs)
        {
          StateBeforeStep(ctx, host, env, flags, jobs, i, fs);
        }
        forall i | 1 <= i < |jobs|
          ensures jobs[i] == rest[i - 1]
        {
        }
      }
    }
  }

  /** When every job is nicer than the threshold, nothing happens at all. */
  lemma {:induction false} TossRunTooNice(ctx: Cfg.Ctx, host: Host, env: Env, flags: Flags, jobs: seq<Job>, fs: FS)
    requires forall i :: 0 <= i < |jobs| ==> jobs[i].enc.nice > flags.nice
    ensures TossRun(ctx, host, env, flags, jobs, fs) == Tossed(false, fs, [])
    decreases |jobs|
  {
    if |jobs| > 0 {
      TossRunTooNice(ctx, host, env, flags, jobs[1..], fs);
    }
  }

  /** In dry-run mode a whole run changes no file and does nothing but create
      incoming directories. */
  lemma {:induction false} TossRunDryRun(ctx: Cfg.Ctx, host: Host, env: Env, flags: Flags, jobs: seq<Job>, fs: FS)
    requires flags.dryRun
    ensures var o := TossRun(ctx, host, env, flags, jobs, fs);
      ExitFs(o).files == fs.files && OnlyMkdirs(Effects(o))
    decreases |jobs|
  {
    if |jobs| > 0 {
      var first := TossJob(ctx, host, env, flags, jobs[0], fs);
      TossJobDryRun(ctx, host, env, flags, jobs[0], fs);
      if first.Tossed? {
        TossRunDryRun(ctx, host, env, flags, jobs[1..], first.fs);
      }
    }
  }

  /** The spool files of a listing together with their seen markers. */
  function SpoolPaths(jobs: seq<Job>): set<Path> {
    (set i | 0 <= i < |jobs| :: jobs[i].path) + (set i | 0 <= i < |jobs| :: SeenPath(jobs[i].path))
  }

  /** A run rewrites nothing but the listed spool files and their seen markers,
      and removes no directory. */
  lemma {:induction false} TossRunFrame(ctx: Cfg.Ctx, host: Host, env: Env, flags: Flags, jobs: seq<Job>, fs: FS)
    ensures var o := TossRun(ctx, host, env, flags, jobs, fs);
      Untouched(fs, ExitFs(o), SpoolPaths(jobs)) && fs.dirs <= ExitFs(o).dirs
    decreases |jobs|
  {
    if |jobs| > 0 {
      var first := TossJob(ctx, host, env, flags, jobs[0], fs);
      TossJobFrame(ctx, host, env, flags, jobs[0], fs);
      assert {jobs[0].path, SeenPath(jobs[0].path)} <= SpoolPaths(jobs);
      if first.Tossed? {
        var rest := jobs[1..];
        TossRunFrame(ctx, host, env, flags, rest, first.fs);
        assert SpoolPaths(rest) <= SpoolPaths(jobs) by {
          forall p | p in SpoolPaths(rest)
            ensures p in SpoolPaths(jobs)
          {
            if p in (set i | 0 <= i < |rest| :: rest[i].path) {
              var i :| 0 <= i < |rest| && rest[i].path == p;
              assert jobs[i + 1].path == p;
            } else {
              var i :| 0 <= i < |rest| && SeenPath(rest[i].path) == p;
              assert SeenPath(jobs[i + 1].path) == p;
            }
          }
        }
        UntouchedTrans(fs, first.fs, ExitFs(TossRun(ctx, host, env, flags, rest, first.fs)),
                       {jobs[0].path, SeenPath(jobs[0].path)}, SpoolPaths(rest));
      }
    }
  }
}

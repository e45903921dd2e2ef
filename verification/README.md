# nncp core, modelled in Dafny

NNCP (Node to Node copy) is a store-and-forward file-transfer system. Packets
arrive in a per-node spool directory and are then *tossed*: each one is
decrypted and acted on. A File packet is stored under the sender's incoming
directory. A Freq packet sends a requested file back. An Exec packet runs a
configured handle. A Trns packet is forwarded to another node. Large files
travel as chunks next to a meta file, and `nncp-reass` reassembles them. An
integrity sweep re-hashes queued packets.

This project models four parts of that system as pure functions, and proves
what each part promises.

- **Configuration** (`cfg.dfy`, module `Cfg`). `NewNode`, `NewNodeOur` and
  `CfgParse` take already-unmarshalled YAML records. They either reject them
  with an error or turn them into validated node records and the process
  context. This covers key sizes, absolute cleaned paths, KiB→byte
  conversion with int64 wrap-around, call defaults and inheritance, address
  aliases and via resolution.
- **Tossing** (`toss.dfy`, module `Toss`). One iteration of `Ctx.Toss` is
  `TossJob`, a function from the job, the context, the flags and the file
  system to an `Outcome`. The outcome holds the bad flag, the new file system
  and the ordered list of side effects attempted. A run folds `TossJob` over
  the job sequence.
- **Reassembly** (`reass.dfy`, module `Reass`). This covers `process`,
  `findMetas`, and the mode selection and meta-file loops of `main` in
  `cmd/nncp-reass`.
- **Integrity sweep** (`check.dfy`, module `Check`). This covers `Check`,
  `checkXx` and `Ctx.Check`.

Shared modules:
- `common.dfy` (`Common`): machine integers, `Option`/`Result`, and path
  predicates.
- `naming.dfy` (`Naming`): `strconv.Itoa` with its inverse, and the
  first-free destination naming (`orig`, `orig0`, `orig1`, …). File delivery
  and reassembly both use this naming.
- `spool.dfy` (`Spool`): the file system, held as a finite map from path to
  content plus a set of directories. It also holds the system calls made on
  it and the spool job record.
- `split.dfy` (`Segments`): `bytes.Split` on one separator, and its inverse.

Some things the code calls are not defined in the modelled files. They are
parameters of the model, held as function-valued fields of host records:
- BLAKE2b, envelope decryption with the XDR header unmarshal, zlib, and the
  XDR unmarshal of meta files;
- base32, `NodeIdFromString` and `cronexpr.Parse`;
- `path.Clean`/`Join`/`Dir`/`Base`, and directory listing.

Whether a system call that the map cannot decide succeeds is also an input. That covers `MkdirAll`, `Rename`, `Remove`, `Create`, `TempFile`, command runs and outbound transmissions, each given as a set of paths or actions where it fails. `log.Fatalln` and runtime panics become an outcome that ends the program, and carries the file system as it was at that point.

## Model

| member | source | states |
|---|---|---|
| Naming.ParseItoa | src/cypherpunks.ru/nncp/toss.go:204 | the decimal counter appended to a destination name reads back as the number it encodes |
| Naming.FreeIndex | src/cypherpunks.ru/nncp/toss.go:195-206 | under either naming scheme (destination counter or nine-digit temporary suffix), the probing loop stops at a free candidate, every earlier candidate exists, and it takes at most one probe per existing name (so it terminates) |
| Naming.TempSuffixInjective | src/cypherpunks.ru/nncp/toss.go:175 | distinct draws give distinct temporary-file suffixes, so probing them never repeats a name |
| Naming.FreeName | src/cypherpunks.ru/nncp/toss.go:192-206 | the chosen destination never exists; it is the original name exactly when that name is free; otherwise it is the original name followed by a decimal counter |
| Naming.FreeNameFirst | src/cypherpunks.ru/nncp/cmd/nncp-reass/main.go:223-235 | the counter chosen is the smallest free one: every name with a smaller counter exists |
| Naming.FreeNameIgnores | src/cypherpunks.ru/nncp/toss.go:192-206 | one more existing name changes the chosen destination only when it is that destination |
| Naming.FreeNameSecond | src/cypherpunks.ru/nncp/toss.go:195-206 | a taken name whose first counter name is free is delivered under that counter name |
| Segments.SplitOn | src/cypherpunks.ru/nncp/toss.go:100 | splitting on NUL gives at least one segment, no segment contains NUL, and rejoining the segments with NUL gives back the path, so handle and arguments lose nothing |
| Segments.SplitJoin | src/cypherpunks.ru/nncp/toss.go:100-105 | joining NUL-free segments with NUL and splitting the result gives back the segments |
| Segments.SplitSepFree | src/cypherpunks.ru/nncp/toss.go:100-101 | a path without NUL is one segment: the whole path is the handle and there are no arguments |
| Spool.TempName | src/cypherpunks.ru/nncp/toss.go:175 | the temporary file is created under the prefix inside the directory followed by a number: a name that did not exist, at least nine characters longer than the prefix, and while fewer than 10^9 names exist exactly nine zero-padded digits |
| Spool.TempNameAvoids | src/cypherpunks.ru/nncp/toss.go:175 | the temporary file is never the bare prefix, nor the prefix followed by a counter of fewer than nine digits |
| Spool.TempNameKeepsDestination | src/cypherpunks.ru/nncp/toss.go:175-206 | creating the temporary file does not move a destination shorter than the temporary name: it is the one chosen in the directory without the temporary file |
| Spool.TempNameKeepsSecondCopy | src/cypherpunks.ru/nncp/toss.go:175-206 | a File packet named like the prefix (`nncp-file`), arriving beside a file of that name with the name followed by 0 free, lands at `nncp-file0` |
| Spool.TempNameKeepsCounterName | src/cypherpunks.ru/nncp/toss.go:175-206 | a File packet named `nncp-file0` lands at `nncp-file0` when that name is free, the temporary file notwithstanding |
| Common.TrimSuffix | src/cypherpunks.ru/nncp/cmd/nncp-reass/main.go:79 | the main name plus the meta suffix is the meta file name; a name without the suffix is kept |
| Cfg.ToInt64 | src/cypherpunks.ru/nncp/cfg.go:154 | the int64 conversion lands in the int64 range, differs from its input by a multiple of 2^64 (two's-complement wrap-around), and is the identity on values that fit |
| Cfg.KiBToBytesExact | src/cypherpunks.ru/nncp/cfg.go:149-159 | for every size below 2^53 KiB, the stored value is exactly KiB × 1024 and non-negative |
| Cfg.FreqChunkedWrapsToZero | src/cypherpunks.ru/nncp/cfg.go:149-156 | a freqchunked of 2^54 KiB passes the non-zero check yet is stored as 0 |
| Cfg.NewCall | src/cypherpunks.ru/nncp/cfg.go:174-222 | a call is accepted iff the cron parses, nice is absent or in 1..255, xx is absent, "rx" or "tx", and the deadline is not 0. Nice defaults to 255. xx maps to TRx/TTx/unset. An address alias is replaced by its mapped value and any other address is kept. The deadline is inherited from the node. MaxOnlineTime is not inherited (0 unless set) |
| Cfg.NewCalls | src/cypherpunks.ru/nncp/cfg.go:173-224 | the calls loop succeeds iff every entry is valid, and then converts each entry in order |
| Cfg.NewNode | src/cypherpunks.ru/nncp/cfg.go:99-247 | a node is accepted iff all of these hold: the id parses; exchPub has 32 bytes and signPub 32 bytes; noisePub, when given, has 32 bytes; incoming and freq are absolute once cleaned; freqchunked is not 0; the deadline is not 0; every call is valid. When accepted: exchPub, signPub and noisePub are the decoded keys; sendmail and addrs are copied; paths are stored cleaned; sizes are KiB×1024 with wrap-around, and 0 when absent; the deadline defaults to DefaultDeadline; calls are converted in order; there are no vias and no exec handles |
| Cfg.NewNodeOur | src/cypherpunks.ru/nncp/cfg.go:249-317 | accepted iff the id parses and all six keys decode to their sizes (32, except signPrv at 64); the stored keys are the decoded ones |
| Cfg.AddNeighbour | src/cypherpunks.ru/nncp/cfg.go:376-387 | one neighbour entry is accepted iff NewNode accepts it and its name is not yet aliased; the node NewNode built is filed under the entry's parsed id, the name is aliased to that id, and the raw via list is recorded under it; nothing else changes |
| Cfg.RawNeighKeys | src/cypherpunks.ru/nncp/cfg.go:377-385 | an id is filed iff some valid entry carries it |
| Cfg.RawNeighLast | src/cypherpunks.ru/nncp/cfg.go:377-385 | the node filed under an id is NewNode's result for the last valid entry carrying that id |
| Cfg.AddNeighbours | src/cypherpunks.ru/nncp/cfg.go:376-387 | after the loop every entry's name is an alias of a known node, and every node is filed under its own id (when the loop succeeds: Cfg.AddNeighboursAccepts) |
| Cfg.AddNeighboursNodes | src/cypherpunks.ru/nncp/cfg.go:376-387 | the nodes of an accepted neighbour list are NewNode's results, a later entry for the same id replacing an earlier one |
| Cfg.AddNeighboursKeepAliases | src/cypherpunks.ru/nncp/cfg.go:382-385 | an alias present before the loop keeps its id |
| Cfg.AddNeighboursAliasAt | src/cypherpunks.ru/nncp/cfg.go:377-385 | the i-th entry's name is aliased to the id that entry parses to |
| Cfg.AddNeighboursAliases | src/cypherpunks.ru/nncp/cfg.go:376-387 | every entry's name is aliased to the id that entry parses to |
| Cfg.AddNeighboursOnlyAliases | src/cypherpunks.ru/nncp/cfg.go:376-387 | no name other than the entries' own becomes an alias |
| Cfg.NeighbourhoodFiled | src/cypherpunks.ru/nncp/cfg.go:376-400 | after the loop and via resolution, every node is the last same-id entry's NewNode result with only its vias replaced, and the aliases are exactly the entry names, each mapped to its own entry's id |
| Cfg.AddNeighboursVias | src/cypherpunks.ru/nncp/cfg.go:386 | the recorded via lists are the raw ones, a later entry for the same id replacing an earlier one |
| Cfg.AddNeighboursValid | src/cypherpunks.ru/nncp/cfg.go:377-380 | every entry of an accepted neighbour list satisfies all of NewNode's checks |
| Cfg.AddNeighboursTaken | src/cypherpunks.ru/nncp/cfg.go:382-384 | an entry whose name is already aliased makes the loop fail |
| Cfg.AddNeighboursAccepts | src/cypherpunks.ru/nncp/cfg.go:376-387 | the neighbour loop succeeds iff every entry passes all of NewNode's checks, no entry's name was aliased before, and no two entries share a name |
| Cfg.DuplicateNamesRejected | src/cypherpunks.ru/nncp/cfg.go:382-384 | two entries with the same name can never both be accepted by CfgParse |
| Cfg.ResolveAll | src/cypherpunks.ru/nncp/cfg.go:390-399 | a via list resolves iff every name resolves; the i-th resolved id is what the i-th name denotes, so configured order is kept |
| Cfg.ResolveVias | src/cypherpunks.ru/nncp/cfg.go:389-400 | via resolution succeeds iff every node's via list resolves; it changes nothing but the via fields |
| Cfg.ResolvedVias | src/cypherpunks.ru/nncp/cfg.go:389-400 | after resolution every node keeps its id and its via list names, in order, nodes of the final map |
| Cfg.ResolveViasAccepts | src/cypherpunks.ru/nncp/cfg.go:389-400 | after a successful neighbour loop, via resolution succeeds iff every name in the via list each node ends up with is an entry name or the textual id of a configured node |
| Cfg.BuildCtx | src/cypherpunks.ru/nncp/cfg.go:360-401 | a context is built iff every entry passes NewNode's checks, names are distinct, and every final via name resolves; valid entries with an unresolvable via give ViaUnresolved. A built context keeps spool, log and self as given. Each node is NewNode's result for the last entry with that id, with only its vias replaced. Each entry name is aliased to the id its entry parses to, and no other name is. SelfId is the id of the entry named "self". No node has exec handles. Vias resolve the raw via lists in order |
| Cfg.CfgParse | src/cypherpunks.ru/nncp/cfg.go:336-402 | it succeeds iff there is a "self" neighbour, the own node (when given) passes NewNodeOur, cleaned spool and log are absolute, every neighbour entry passes NewNode with distinct names, and every final via name resolves. Otherwise it fails with SelfMissing, then NewNodeOur's error, then the spool error, then the log error, and with ViaUnresolved when only a via fails. On success self is NewNodeOur's result, spool and log are cleaned and absolute, each node is NewNode's result for the last entry with that id with only its vias replaced, each entry name is aliased to its entry's parsed id and no other name is, SelfId is the id of the entry named "self", and every via list resolves in configured order |
| Toss.Retire | src/cypherpunks.ru/nncp/toss.go:140-150 | the seen marker (when doSeen) is created before the spool file is removed, and removal is the last effect; the job is bad iff it already was or the removal failed; nothing else changes |
| Toss.TossExec | src/cypherpunks.ru/nncp/toss.go:96-150 | a bad zlib header is fatal. A missing or empty handle marks the job bad and has no effect. When the handle is found outside dry-run, the command run first is cmdline[0] with arguments cmdline[1:] ++ path args, given NNCP_SELF/NNCP_SENDER/NNCP_NICE and the decompressed body; a failed run is bad and keeps the spool file; a successful run retires the job, which is bad iff the spool file cannot be removed. In dry-run mode nothing happens |
| Toss.MoveAndRetire | src/cypherpunks.ru/nncp/toss.go:207-223 | the move into place is followed by the retirement even when it fails. When neither path is the spool file, the job is bad iff the rename or the spool file's removal is refused, and the spool file is gone unless its removal was refused. A job that ends well finds the data at the destination |
| Toss.StoreComplete | src/cypherpunks.ru/nncp/toss.go:174-223 | storing a fully read body ends with the spool file's removal, after its seen marker, and creates no directory (the verdict is stated by Toss.StoreCompleteRetires) |
| Toss.StoreCompleteMoveFails | src/cypherpunks.ru/nncp/toss.go:207-210 | a move the system refuses makes the job bad |
| Toss.StoreCompleteFrame | src/cypherpunks.ru/nncp/toss.go:174-223 | storing the body leaves every file but the spool file and its seen marker as it was |
| Toss.StoreCompleteDelivers | src/cypherpunks.ru/nncp/toss.go:192-210 | a job that ends well left the body at the first free name derived from the destination, given the names present while probing (the earlier paths and the temporary file) |
| Toss.StoreCompleteRetires | src/cypherpunks.ru/nncp/toss.go:192-223 | for an existing spool file, storing is bad iff the rename to the first free name or the spool file's removal is refused, and the spool file is gone unless its removal was refused |
| Toss.StoreBody | src/cypherpunks.ru/nncp/toss.go:174-223 | storing the body creates no directory, rewrites nothing but the spool file and its marker, and removes the spool file last. A body read to its end (or read as written) is bad iff the rename to the first free name or the removal is refused. A job that ends well left the body at the first free name and is gone from the spool. With the decryption error checked, a truncated body makes the job bad and keeps the spool file |
| Toss.TossFile | src/cypherpunks.ru/nncp/toss.go:151-223 | an absolute destination, or a sender without an incoming directory, marks the job bad with no effect. Nothing but the spool file and its marker is rewritten. A move is always followed by the spool file's removal, and a refused move makes the job bad. Success outside dry-run means the sender has an incoming directory, the spool file is gone, and the body sits at the first free name derived from the destination, given the names present while probing. With the decryption error checked, success needs a complete body, and a truncated one never removes the spool file. In dry-run mode no file changes and there is at most the directory creation |
| Toss.TossFileRetires | src/cypherpunks.ru/nncp/toss.go:151-223 | a File packet with a relative path from a sender with an incoming directory, for an existing spool file, with the body read to its end (or read as written), outside dry-run: a refused MkdirAll is bad with only that effect, a refused TempFile is fatal, and otherwise the job is bad iff the rename to the first free name or the spool file's removal is refused, and the spool file is gone unless its removal was refused |
| Toss.TossFileEffects | src/cypherpunks.ru/nncp/toss.go:168-223 | no directory is removed; the spool file is removed last, after its marker; in dry-run mode only MkdirAll happens |
| Toss.TossFileTruncated | src/cypherpunks.ru/nncp/toss.go:66-83 | as written, a body cut short by a failed decryption is handled exactly like a whole one: when that succeeds, the truncated bytes are delivered and the spool file removed |
| Toss.TossFreq | src/cypherpunks.ru/nncp/toss.go:239-300 | an absolute source, or a sender without freq, marks the job bad with no effect. The reply is TxFile when FreqChunked is 0 and TxFileChunked otherwise, from Join(freq, src) with the sender's FreqMinSize and the packet nice. A failed send is bad and keeps the spool file; a successful send retires the job, which is bad iff the spool file cannot be removed. With the decryption error checked, a truncated body is bad with no effect. In dry-run mode nothing happens |
| Toss.TossFreqTruncated | src/cypherpunks.ru/nncp/toss.go:66-83 | as written, a Freq packet whose body was cut short by a failed decryption is served like a whole one, with the reply addressed to the truncated name |
| Toss.TransitTarget | src/cypherpunks.ru/nncp/toss.go:319-321 | the target id is the path copied into 32 bytes, truncated or padded with zeros |
| Toss.TossTrns | src/cypherpunks.ru/nncp/toss.go:315-348 | an unknown target marks the job bad with no outbound packet. Otherwise the job is forwarded at the envelope nice with size job.Size − PktEncOverhead − PktOverhead. A failed send is bad and keeps the spool file; a successful one retires the job, which is bad iff the spool file cannot be removed. In dry-run mode nothing happens |
| Toss.TossJob | src/cypherpunks.ru/nncp/toss.go:57-99 | a job nicer than the threshold is skipped (not bad, no effect). An undecodable job is bad with no effect. A disabled type is left untouched and not bad. An unknown type is bad |
| Toss.TossJobFrame | src/cypherpunks.ru/nncp/toss.go:95-352 | a job rewrites nothing but its own spool file and seen marker, and removes no directory |
| Toss.TossJobRetiredLast | src/cypherpunks.ru/nncp/toss.go:140-150 | for every packet type the spool file is removed only by the last effect, after its seen marker |
| Toss.TossJobRemoved | src/cypherpunks.ru/nncp/toss.go:140-150 | a job that ends well outside dry-run and acted ended by removing its spool file, which is gone |
| Toss.TossJobRetires | src/cypherpunks.ru/nncp/toss.go:140-150 | for every packet type the spool file is removed only by the last effect, after its seen marker; a job that ends well outside dry-run and acted is gone from the spool |
| Toss.TossJobDryRun | src/cypherpunks.ru/nncp/toss.go:168-174 | in dry-run mode a job changes no file, and its only possible effect is the incoming directory's creation |
| Toss.TossRun | src/cypherpunks.ru/nncp/toss.go:55-357 | a run over no jobs does nothing; a run's effects begin with those of its first job, and a bad first job makes a finished run bad. TossRunBad, TossRunTooNice, TossRunDryRun and TossRunFrame state the whole run |
| Toss.TossRunBad | src/cypherpunks.ru/nncp/toss.go:55-357 | a finished run is bad iff some job was bad on the file system the jobs before it left |
| Toss.TossRunTooNice | src/cypherpunks.ru/nncp/toss.go:60-65 | a run over jobs that are all too nice does nothing and is not bad |
| Toss.TossRunDryRun | src/cypherpunks.ru/nncp/toss.go:55-357 | a dry run changes no file and does nothing but create incoming directories |
| Toss.TossRunFrame | src/cypherpunks.ru/nncp/toss.go:55-357 | a run rewrites only the listed spool files and their seen markers, and removes no directory |
| Reass.ChunkNameIndex | src/cypherpunks.ru/nncp/cmd/nncp-reass/main.go:101-107 | chunk i is named NAME.nncp.part followed by the decimal i, which reads back as i |
| Reass.ChunkNamesDistinct | src/cypherpunks.ru/nncp/cmd/nncp-reass/main.go:101-107 | different indices give different chunk names |
| Reass.SplitConcat | src/cypherpunks.ru/nncp/cmd/nncp-reass/main.go:187-195 | concatenating the chunks of a split gives back the file (the partner of the copy loop) |
| Reass.SplitCount | src/cypherpunks.ru/nncp/cmd/nncp-reass/main.go:101-102 | a file splits into ceil(F/C) chunks, one digest each |
| Reass.SplitSizes | src/cypherpunks.ru/nncp/cmd/nncp-reass/main.go:121-125 | all chunks but the last have C bytes; the last has F mod C, or C when that is 0 |
| Reass.SplitShape | src/cypherpunks.ru/nncp/cmd/nncp-reass/main.go:121-125 | the count and the sizes of a split together |
| Reass.SplitSizesAccepted | src/cypherpunks.ru/nncp/cmd/nncp-reass/main.go:121-125 | every chunk of a proper split passes the corrected size rule (the Corrected variant) |
| Reass.LastSizeAsWrittenRejects | src/cypherpunks.ru/nncp/cmd/nncp-reass/main.go:121-122 | the rule as written refuses the last chunk of every non-empty file whose size is a multiple of the chunk size |
| Reass.LastSizeAsWrittenExample | src/cypherpunks.ru/nncp/cmd/nncp-reass/main.go:121-122 | a 2-byte file in 1-byte chunks: the last chunk holds 1 byte, the code as written expects 0 |
| Reass.StatChunks | src/cypherpunks.ru/nncp/cmd/nncp-reass/main.go:109-133 | the stat loop panics iff the chunk size is 0 and the last chunk exists; otherwise all chunks pass iff each one exists with the size its position demands under the chosen rule (as written: FileSize % ChunkSize for the last chunk) |
| Reass.CheckChunks | src/cypherpunks.ru/nncp/cmd/nncp-reass/main.go:109-163 | the size loop and then the digest loop accept iff every chunk exists, has its size under the chosen rule, and matches its digest |
| Reass.CopyChunks | src/cypherpunks.ru/nncp/cmd/nncp-reass/main.go:186-205 | the copy loop only removes files, never a file that is not a chunk, and with keep removes nothing |
| Reass.CopyChunksData | src/cypherpunks.ru/nncp/cmd/nncp-reass/main.go:187-195 | the output is the concatenation of the chunks in index order |
| Reass.CopyChunksReports | src/cypherpunks.ru/nncp/cmd/nncp-reass/main.go:196-203 | a removal failure is recorded iff keep is off and some chunk cannot be removed |
| Reass.CopyChunksRemoves | src/cypherpunks.ru/nncp/cmd/nncp-reass/main.go:196-204 | without keep, every chunk the system lets go of is gone, and the others stay |
| Reass.CopyChunksCompletes | src/cypherpunks.ru/nncp/cmd/nncp-reass/main.go:187-194 | with distinct, present chunks, reopening a chunk never fails |
| Reass.ReadMeta | src/cypherpunks.ru/nncp/cmd/nncp-reass/main.go:55-78 | a meta is accepted only from an existing file that decodes, carries the magic and ends in .nncp.meta |
| Reass.Process | src/cypherpunks.ru/nncp/cmd/nncp-reass/main.go:54-241 | under either size rule, process changes the file system only when the meta is valid and every chunk passes, outside dump and dry-run mode. It returns true without dump only then. It writes reassembled data to standard output only then, in stdout mode |
| Reass.ProcessEarly | src/cypherpunks.ru/nncp/cmd/nncp-reass/main.go:55-167 | under either size rule: a missing meta file is fatal. A bad meta gives false. Dump gives true. A missing, mis-sized or corrupt chunk gives false, except that a zero chunk size panics. Dry-run gives true. None of these touches a file |
| Reass.ProcessAssembles | src/cypherpunks.ru/nncp/cmd/nncp-reass/main.go:164-241 | under either size rule, once every check passes outside dump and dry-run mode, process is the assembly |
| Reass.ProcessRoundTrip | src/cypherpunks.ru/nncp/cmd/nncp-reass/main.go:169-241 | with the corrected size rule, reassembling the split of a file gives the file back, on standard output or at a fresh name derived from NAME, and with keep reports success. Into a file it finishes whenever TempFile can create the temporary file and the rename to the first free name is allowed |
| Reass.ProcessRefusesWholeLastChunk | src/cypherpunks.ru/nncp/cmd/nncp-reass/main.go:109-135 | as written, process refuses the split of every non-empty file whose size is a multiple of the chunk size, returning false with nothing written |
| Reass.Assemble | src/cypherpunks.ru/nncp/cmd/nncp-reass/main.go:169-240 | a TempFile that cannot be created is fatal before anything changes, and reassembly into a file writes nothing to standard output. AssembleOutput, AssembleCompletes, AssembleKeeps and AssembleRemoves state the rest |
| Reass.AssembleOutput | src/cypherpunks.ru/nncp/cmd/nncp-reass/main.go:169-238 | the output is the concatenated chunks: written to standard output, or delivered at a name derived from NAME beside the meta file |
| Reass.AssembleCompletes | src/cypherpunks.ru/nncp/cmd/nncp-reass/main.go:174-238 | with distinct chunks the assembly finishes on standard output; into a file it finishes iff TempFile can create the temporary file beside the meta file and the rename to the first free name is allowed |
| Reass.AssembleKeeps | src/cypherpunks.ru/nncp/cmd/nncp-reass/main.go:196-217 | with keep, success is reported and every file that existed before is unchanged |
| Reass.AssembleGathered | src/cypherpunks.ru/nncp/cmd/nncp-reass/main.go:206-238 | a finished assembly is the state after copying and removals, with the temporary file renamed to the first free name |
| Reass.GatheredReports | src/cypherpunks.ru/nncp/cmd/nncp-reass/main.go:196-217 | without keep, the result is true iff neither the meta file nor any chunk refused removal |
| Reass.GatheredRemoves | src/cypherpunks.ru/nncp/cmd/nncp-reass/main.go:196-217 | without keep, the meta file and each chunk are gone iff the system let them go; all other files are unchanged; the fresh temporary file holds the output |
| Reass.AssembleRemoves | src/cypherpunks.ru/nncp/cmd/nncp-reass/main.go:196-240 | without keep, the result is true iff no removal failed, and every file other than chunks and meta is unchanged |
| Reass.MetaPathsExact | src/cypherpunks.ru/nncp/cmd/nncp-reass/main.go:256-262 | findMetas yields exactly the directory joined with each listed name ending in .nncp.meta |
| Reass.FindMetas | src/cypherpunks.ru/nncp/cmd/nncp-reass/main.go:243-263 | an unreadable directory yields no meta file; otherwise exactly the directory joined with each listed name ending in .nncp.meta, at most one per listed name |
| Reass.SelectMode | src/cypherpunks.ru/nncp/cmd/nncp-reass/main.go:301-320 | an unknown -node is fatal; otherwise a mode is selected iff exactly one of FILE, -all and -node is given, and it is the given one |
| Reass.ShortCircuitSkips | src/cypherpunks.ru/nncp/cmd/nncp-reass/main.go:348-350 | as written, once hasErrors is set the loop calls process on nothing more and changes no file |
| Reass.ShortCircuitStopsAtFirstFailure | src/cypherpunks.ru/nncp/cmd/nncp-reass/main.go:348-350 | as written, when the first meta file fails no other meta file is processed |
| Reass.SweepMetas | src/cypherpunks.ru/nncp/cmd/nncp-reass/main.go:348-350 | the corrected loop over listed meta files, when it does not die, hands every listed path to process in order and never forgets a failure |
| Reass.SweepStepProcesses | src/cypherpunks.ru/nncp/cmd/nncp-reass/main.go:336-342 | one step of the corrected loop (no short circuit) skips a path already seen under -all, and otherwise processes it, records it and keeps an earlier failure |
| Reass.SweepProcessesAll | src/cypherpunks.ru/nncp/cmd/nncp-reass/main.go:329-351 | the corrected loops process every listed meta path, each once under -all, and never forget a failure |
| Reass.SweepStepOnce | src/cypherpunks.ru/nncp/cmd/nncp-reass/main.go:337-341 | one -all step keeps "every processed path is seen, none twice" |
| Reass.SweepMetasOnce | src/cypherpunks.ru/nncp/cmd/nncp-reass/main.go:336-342 | one directory's loop under -all processes no path twice |
| Reass.SweepNodes | src/cypherpunks.ru/nncp/cmd/nncp-reass/main.go:330-343 | a death ends the -all loop, and nodes without an incoming directory are skipped. SweepNodesOnce states that no meta path is processed twice, and Main that every neighbour is visited |
| Reass.SweepNodesOnce | src/cypherpunks.ru/nncp/cmd/nncp-reass/main.go:330-343 | under -all no meta path is processed twice, even when nodes share an incoming directory |
| Reass.Main | src/cypherpunks.ru/nncp/cmd/nncp-reass/main.go:301-354 | main as written (the code's size rule and short-circuiting loops): it prints usage iff the usage rules are broken; an unknown -node dies with no file changed; a -node without an incoming directory dies. With FILE it dies iff process does and otherwise exits with failure iff process returned false. With -node and -all it exits with failure iff the as-written loop recorded an error. -all visits every neighbour once, in any order the map may yield. Only the FILE mode with -stdout writes reassembled data to standard output |
| Check.Check | src/cypherpunks.ru/nncp/check.go:30-39 | a read error is an error; readable content gives true exactly when its digest equals the recorded checksum |
| Check.CheckXxFrom | src/cypherpunks.ru/nncp/check.go:43-56 | the loop reads at most the jobs left |
| Check.CheckXx | src/cypherpunks.ru/nncp/check.go:41-57 | checkXx reads at most the queued jobs |
| Check.CheckXxFromBad | src/cypherpunks.ru/nncp/check.go:43-56 | the loop reports bad iff no job fails to read and some job, or an earlier one, mismatches |
| Check.CheckXxFromExamined | src/cypherpunks.ru/nncp/check.go:46-50 | the loop stops right after the first unreadable job, and reads all jobs otherwise |
| Check.CheckXxSpec | src/cypherpunks.ru/nncp/check.go:41-57 | checkXx is true iff every job reads and some content does not hash to its recorded digest; a read error yields false even after a mismatch |
| Check.CtxCheck | src/cypherpunks.ru/nncp/check.go:59-60 | Ctx.Check is bad iff either queue is bad, and the tx queue is not read once rx is bad |
| Check.CtxCheckSpec | src/cypherpunks.ru/nncp/check.go:59-60 | Ctx.Check is true iff one of the two queues reads without error and holds a mismatching job |

## Left out

- Logging (`LogD`/`LogI`/`LogE`) and the human-readable meta dump (`fmt.Printf`, humanize, hex): they only print. `-dump` is modelled as "return true without touching any chunk".
- Sendmail notifications after File and Freq packets (toss.go:224-237, 301-313) and MIME header encoding: they are external commands whose failure is ignored.
- The internals of `TxFile`, `TxFileChunked`, `TxTrns` and of `exec.Command`: they are recorded as effects, and whether each fails is an input.
- Decryption, BLAKE2b, zlib, XDR, base32 and `NodeIdFromString`: they are uninterpreted parameters.
- The goroutine and pipe between decryption and header parsing in Toss, and the goroutine that `Ctx.Jobs` uses: the model sees the decrypted stream as a finished value, together with whether decryption reached its end (`Toss.Stream.complete`). A body cut short is what the header parser and the copy read when the pipe closes early.
- Reading and parsing the configuration file in nncp-reass `main`, and the `-cfg`, `-quiet`, `-debug`, `-version` and `-warranty` flags: `Reass.Main` starts from a parsed context.
- `Ctx.FindNode`, `Ctx.Jobs`, `ChunkedMeta`, `MagicNNCPMv1`, `DefaultDeadline`, `PktEncOverhead` and `PktOverhead` are defined in files that are not part of this model. FindNode is modelled from its uses; the magic and the overheads are host parameters.
- The YAML unmarshal in `CfgParse`: the model takes the unmarshalled document. Map fields become sequences in whatever order Go's map iteration visits them.
- `Cfg.NewNode`: it never fills in `Exec`, as the code does not, so exec handles always come out empty. Exec packets therefore always miss their handle unless the context is built by other means.
- `Toss.TossFile`: the `TempFile` error path dereferences a nil file before checking the error (toss.go:175-178). It is modelled as an abort.
- `Toss.TossFile`: a delivered file whose first free name happens to be the job's own seen marker is overwritten by the marker. `DeliveredAt` states delivery only for names other than the spool file and its marker.
- `Toss.StoreComplete`: in the destination-naming loop, a stat error other than "does not exist" marks the job bad and leaves it in the spool (toss.go:196-203). The model's file system answers every stat, so that path is not modelled and no contract speaks of it.
- `Toss.StoreBody`: a failed write of the body into the temporary file marks the job bad and leaves it in the spool (toss.go:184-188). The model has no write failures, so that path is not modelled and no contract speaks of it.
- `Reass.StatChunks`: a stat error other than "does not exist" leaves `fi` nil, so `fi.Size()` panics. That case and a directory at a chunk path are both treated as a missing chunk.
- `Reass.Assemble`: in the destination-naming loop, a stat error other than "does not exist" is fatal (main.go:227-232). The model's file system answers every stat, so that path is not modelled and no contract speaks of it.
- `Reass.Assemble`: a failed copy of a chunk into the temporary file, or a failed read of a chunk while hashing it, is fatal (main.go:192-194, 149-151). The model has no read or write failures, so those paths are not modelled and no contract speaks of them.
- `Reass.Assemble`: on a fatal exit the partial contents of the temporary file are not modelled. The temporary file is created empty, and the whole output is written when the copy loop finishes.
- `Reass.AssembleRemoves`: it does not state which chunks and meta file are gone after the rename, because the destination, chosen afterwards, may reuse the name of a removed file. Those facts are stated on the gathered state by `Reass.GatheredRemoves`.
- `Spool.TempName`: ioutil.TempFile draws random numbers until the name is free. The Go releases of this code's era, before os.CreateTemp existed, write each draw as nine zero-padded digits. The model takes the smallest free nine-digit number, one of the draws the library may make. Later releases write a random uint32 in decimal, with no padding; that naming is not modelled. Past 10^9 existing names the model writes the number in full, where the library gives up after 10000 draws. The model appends the number to the joined path, while the library joins the directory with prefix and number; for the fixed prefixes `nncp-file` and `nncp-reass` both give the same name.
- `Common.Str`: a byte string is read one character per byte, with no UTF-8 decoding. Every comparison the core makes on such strings (absolute-path test, map lookups) is then exact.
- For a file of F bytes split in chunks of C bytes, a meta lists ⌈F/C⌉ digests: one per chunk of a split into full chunks and a shorter remainder, so when C divides F the last chunk has C bytes. The code demands `FileSize % ChunkSize` bytes of it. `Reass.Process` takes a `Variant`. `AsWritten` is the code, and `Reass.Main` uses it. `Corrected` demands a full last chunk. The round trip is proved for the corrected rule, and the refusal for the rule as written; see Findings.
- Chunks are named `<name>.nncp.part<index>`, as the code builds them (main.go:101-107).
- humanizer.go, nncp-caller, nncp-daemon, nncp-file, nncp-freq, nncp-log and lockdir.go: they are presentation, concurrency, network I/O, flag plumbing or kernel locking, outside the modelled core.

## Findings

| source | as written | input that shows it | evidently intended | confidence | as-written member | corrected member |
|---|---|---|---|---|---|---|
| src/cypherpunks.ru/nncp/cmd/nncp-reass/main.go:121-122 | the last chunk must have exactly `FileSize % ChunkSize` bytes | FileSize 2, ChunkSize 1: a meta listing two digests, beside two 1-byte chunks, and the rule demands 0 bytes of the last one, so reassembly always fails | the last chunk has `FileSize % ChunkSize` bytes, or `ChunkSize` when that remainder is 0 | not executed; high | Reass.ProcessRefusesWholeLastChunk | Reass.ProcessRoundTrip |
| src/cypherpunks.ru/nncp/cmd/nncp-reass/main.go:336-350 | `hasErrors = hasErrors \|\| !process(...)` skips the call once hasErrors is true | two meta files in one incoming directory, the first with a missing chunk: the second is never processed, even when complete | process every meta file and exit with status 1 if any failed | not executed; medium | Reass.ShortCircuitStopsAtFirstFailure | Reass.SweepProcessesAll |
| src/cypherpunks.ru/nncp/toss.go:66-83 | the decrypting goroutine sends its error on `errs`, which nothing receives, and then closes the pipe without that error, so a decryption failure part way through reads as a clean end of the body | a File packet whose ciphertext is damaged after the header: the bytes decrypted so far are stored at the destination and the spool file is removed | receive from `errs` once the body has been read, and treat an error as a bad job that stays in the spool | not executed; medium | Toss.TossFileTruncated | Toss.TossFile |

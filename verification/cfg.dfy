/** Configuration validation (cfg.go): YAML records in, validated node records
    and the process context out. Every branch either rejects the record with an
    error or assigns a field. */
module Cfg {
  import opened Common

  /** Sizes of the decoded keys: Curve25519 keys are [32]byte arrays, and the
      ed25519 public and private key sizes are those of the Go library. */
  const CurveKeySize: nat := 32
  const Ed25519PublicKeySize: nat := 32
  const Ed25519PrivateKeySize: nat := 64

  /** The node-level online deadline used when none is configured, in seconds
      (declared beside the sync protocol in sp.go, which is not part of this
      model; no contract depends on its value). */
  const DefaultDeadline: uint64 := 10

  const Int64Min: int := -0x8000_0000_0000_0000
  const Int64Limit: int := 0x8000_0000_0000_0000
  const Word64: int := 0x1_0000_0000_0000_0000

  /** The decoders cfg.go calls but does not define: NodeIdFromString,
      FromBase32 (both may fail), cronexpr.Parse (validity only) and path.Clean. */
  datatype Decoders = Decoders(
    nodeIdFromString: string -> Option<NodeId>,
    fromBase32: string -> Option<Bytes>,
    cronParses: string -> bool,
    clean: Path -> Path
  )

  datatype KeyName = ExchPub | ExchPrv | SignPub | SignPrv | NoisePub | NoisePrv

  datatype CfgError =
    | BadNodeId
    | BadBase32(key: KeyName)
    | BadKeySize(key: KeyName)
    | IncomingNotAbsolute
    | FreqNotAbsolute
    | ZeroFreqChunked
    | ZeroOnlineDeadline
    | BadCron
    | BadNice
    | BadXx
    | SelfMissing
    | SpoolNotAbsolute
    | LogNotAbsolute
    | NamesConflict
    | ViaUnresolved

  // ---------------------------------------------------------------- YAML side

  datatype CallYAML = CallYAML(
    cron: string,
    nice: Option<int>,
    xx: Option<string>,
    addr: Option<string>,
    onlineDeadline: Option<uint64>,
    maxOnlineTime: Option<uint64>
  )

  datatype NodeYAML = NodeYAML(
    id: string,
    exchPub: string,
    signPub: string,
    noisePub: Option<string>,
    sendmail: seq<string>,
    incoming: Option<string>,
    freq: Option<string>,
    freqChunked: Option<uint64>,
    freqMinSize: Option<uint64>,
    via: seq<string>,
    calls: seq<CallYAML>,
    addrs: map<string, string>,
    onlineDeadline: Option<uint64>,
    maxOnlineTime: Option<uint64>
  )

  datatype NodeOurYAML = NodeOurYAML(
    id: string,
    exchPub: string,
    exchPrv: string,
    signPub: string,
    signPrv: string,
    noisePrv: string,
    noisePub: string
  )

  datatype FromTo = FromTo(from: string, to: string)

  datatype NotifyYAML = NotifyYAML(file: Option<FromTo>, freq: Option<FromTo>)

  /** One entry of the `neigh` mapping; the sequence lists the entries in the
      order in which Go's map iteration happens to visit them. */
  datatype NeighYAML = NeighYAML(name: string, node: NodeYAML)

  datatype CfgYAML = CfgYAML(
    self: Option<NodeOurYAML>,
    neigh: seq<NeighYAML>,
    spool: string,
    log: string,
    notify: Option<NotifyYAML>
  )

  // ------------------------------------------------------------ validated side

  /** TRxTx; the zero value (no `xx` given) is neither direction. */
  datatype RxTx = RxTxUnset | TRx | TTx

  datatype Call = Call(
    cron: string,
    nice: uint8,
    xx: RxTx,
    addr: Option<string>,
    onlineDeadline: uint64,
    maxOnlineTime: uint64
  )

  datatype Node = Node(
    name: string,
    id: NodeId,
    exchPub: Bytes,
    signPub: Bytes,
    noisePub: Option<Bytes>,
    sendmail: seq<string>,
    incoming: Option<Path>,
    freq: Option<Path>,
    freqChunked: int,
    freqMinSize: int,
    via: seq<NodeId>,
    calls: seq<Call>,
    addrs: map<string, string>,
    onlineDeadline: uint64,
    maxOnlineTime: uint64,
    exec: map<string, seq<string>>
  )

  datatype NodeOur = NodeOur(
    id: NodeId,
    exchPub: Bytes,
    exchPrv: Bytes,
    signPub: Bytes,
    signPrv: Bytes,
    noisePub: Bytes,
    noisePrv: Bytes
  )

  datatype Ctx = Ctx(
    spool: Path,
    logPath: Path,
    self: Option<NodeOur>,
    neigh: map<NodeId, Node>,
    alias: map<string, NodeId>,
    selfId: NodeId,
    notifyFile: Option<FromTo>,
    notifyFreq: Option<FromTo>
  )

  // --------------------------------------------------------------- arithmetic

  /** Reinterprets the low 64 bits of x as a two's-complement int64. */
  function ToInt64(x: int): (r: int)
    ensures Int64Min <= r < Int64Limit
    ensures 0 <= x < Int64Limit ==> r == x
    ensures (r - x) % Word64 == 0
  {
    var m := x % Word64;
    assert x == (x / Word64) * Word64 + m;
    if m >= Int64Limit then
      assert m - Word64 - x == (-1 - x / Word64) * Word64;
      m - Word64
    else
      assert m - x == (-(x / Word64)) * Word64;
      m
  }

  /** int64(v) * 1024 computed in int64: congruent to v * 1024 modulo 2^64,
      so the whole computation wraps exactly like ToInt64(v * 1024). An absent
      value yields 0. */
  function KiBToBytes(v: Option<uint64>): int {
    match v
    case None => 0
    case Some(k) => ToInt64(k as int * 1024)
  }

  // ------------------------------------------------------------------ helpers

  function DecodeKey(dec: Decoders, s: string, size: nat, key: KeyName): Result<Bytes, CfgError> {
    match dec.fromBase32(s)
    case None => Err(BadBase32(key))
    case Some(b) => if |b| != size then Err(BadKeySize(key)) else Ok(b)
  }

  predicate KeyOk(dec: Decoders, s: string, size: nat) {
    dec.fromBase32(s).Some? && |dec.fromBase32(s).value| == size
  }

  /** An optional directory is stored cleaned, and must then be absolute. */
  function CleanAbs(dec: Decoders, p: Option<string>, err: CfgError): Result<Option<Path>, CfgError> {
    match p
    case None => Ok(None)
    case Some(s) => if IsAbs(dec.clean(s)) then Ok(Some(dec.clean(s))) else Err(err)
  }

  predicate PathOk(dec: Decoders, p: Option<string>) {
    p.Some? ==> IsAbs(dec.clean(p.value))
  }

  // -------------------------------------------------------------------- calls

  predicate CallOk(dec: Decoders, c: CallYAML) {
    && dec.cronParses(c.cron)
    && (c.nice.Some? ==> 1 <= c.nice.value <= 255)
    && (c.xx.Some? ==> c.xx.value == "rx" || c.xx.value == "tx")
    && c.onlineDeadline != Some(0)
  }

  /** One entry of `calls`, given the node's address book and deadline. */
  function NewCall(dec: Decoders, addrs: map<string, string>, nodeDeadline: uint64, c: CallYAML): (r: Result<Call, CfgError>)
    ensures r.Ok? <==> CallOk(dec, c)
    ensures !dec.cronParses(c.cron) ==> r == Err(BadCron)
    ensures dec.cronParses(c.cron) && c.nice.Some? && !(1 <= c.nice.value <= 255) ==> r == Err(BadNice)
    ensures r.Ok? ==> r.value.cron == c.cron
    ensures r.Ok? ==> r.value.nice as int == c.nice.GetOr(255)
    ensures r.Ok? ==> (r.value.xx == TRx <==> c.xx == Some("rx"))
    ensures r.Ok? ==> (r.value.xx == TTx <==> c.xx == Some("tx"))
    ensures r.Ok? ==> (r.value.xx == RxTxUnset <==> c.xx.None?)
    ensures r.Ok? ==> (c.addr.None? <==> r.value.addr.None?)
    ensures r.Ok? && c.addr.Some? && c.addr.value in addrs ==> r.value.addr == Some(addrs[c.addr.value])
    ensures r.Ok? && c.addr.Some? && c.addr.value !in addrs ==> r.value.addr == c.addr
    ensures r.Ok? ==> r.value.onlineDeadline == c.onlineDeadline.GetOr(nodeDeadline)
    ensures r.Ok? ==> r.value.maxOnlineTime == c.maxOnlineTime.GetOr(0)
  {
    if !dec.cronParses(c.cron) then Err(BadCron)
    else if c.nice.Some? && (c.nice.value < 1 || c.nice.value > 255) then Err(BadNice)
    else if c.xx.Some? && c.xx.value != "rx" && c.xx.value != "tx" then Err(BadXx)
    else if c.onlineDeadline == Some(0) then Err(ZeroOnlineDeadline)
    else
      var nice: uint8 := if c.nice.Some? then c.nice.value as uint8 else 255;
      var xx := match c.xx
        case None => RxTxUnset
        case Some(s) => if s == "rx" then TRx else TTx;
      var addr := match c.addr
        case None => None
        case Some(a) => if a in addrs then Some(addrs[a]) else Some(a);
      var deadline := match c.onlineDeadline
        case None => nodeDeadline
        case Some(d) => d;
      var maxOnline := match c.maxOnlineTime
        case None => 0
        case Some(m) => m;
      Ok(Call(c.cron, nice, xx, addr, deadline, maxOnline))
  }

  /** The loop over `calls`: the first invalid entry rejects the node; otherwise
      every entry is converted, in order. */
  function NewCalls(dec: Decoders, addrs: map<string, string>, nodeDeadline: uint64, cs: seq<CallYAML>): (r: Result<seq<Call>, CfgError>)
    ensures r.Ok? <==> forall i :: 0 <= i < |cs| ==> CallOk(dec, cs[i])
    ensures r.Ok? ==> |r.value| == |cs|
    ensures r.Ok? ==> forall i :: 0 <= i < |cs| ==> NewCall(dec, addrs, nodeDeadline, cs[i]) == Ok(r.value[i])
    decreases |cs|
  {
    if |cs| == 0 then Ok([])
    else
      var c :- NewCall(dec, addrs, nodeDeadline, cs[0]);
      var rest :- NewCalls(dec, addrs, nodeDeadline, cs[1..]);
      assert forall i :: 1 <= i < |cs| ==> cs[i] == cs[1..][i - 1];
      Ok([c] + rest)
  }

  // -------------------------------------------------------------------- nodes

  /** Every condition NewNode checks, stated declaratively. */
  predicate NodeYAMLOk(dec: Decoders, yml: NodeYAML) {
    && dec.nodeIdFromString(yml.id).Some?
    && KeyOk(dec, yml.exchPub, CurveKeySize)
    && KeyOk(dec, yml.signPub, Ed25519PublicKeySize)
    && (yml.noisePub.Some? ==> KeyOk(dec, yml.noisePub.value, CurveKeySize))
    && PathOk(dec, yml.incoming)
    && PathOk(dec, yml.freq)
    && yml.freqChunked != Some(0)
    && yml.onlineDeadline != Some(0)
    && forall i :: 0 <= i < |yml.calls| ==> CallOk(dec, yml.calls[i])
  }

  /** NewNode: validates one neighbour entry and normalises it. */
  function NewNode(dec: Decoders, name: string, yml: NodeYAML): (r: Result<Node, CfgError>)
    ensures r.Ok? <==> NodeYAMLOk(dec, yml)
    ensures dec.nodeIdFromString(yml.id).None? ==> r == Err(BadNodeId)
    ensures r.Ok? ==> r.value.name == name && Some(r.value.id) == dec.nodeIdFromString(yml.id)
    ensures r.Ok? ==> |r.value.exchPub| == CurveKeySize && |r.value.signPub| == Ed25519PublicKeySize
    ensures r.Ok? ==> Some(r.value.exchPub) == dec.fromBase32(yml.exchPub)
    ensures r.Ok? ==> Some(r.value.signPub) == dec.fromBase32(yml.signPub)
    ensures r.Ok? ==> (r.value.noisePub.Some? <==> yml.noisePub.Some?)
    ensures r.Ok? && r.value.noisePub.Some? ==> |r.value.noisePub.value| == CurveKeySize
    ensures r.Ok? && yml.noisePub.Some? ==> r.value.noisePub == dec.fromBase32(yml.noisePub.value)
    ensures r.Ok? ==> r.value.sendmail == yml.sendmail && r.value.addrs == yml.addrs
    ensures r.Ok? ==> (r.value.incoming.Some? <==> yml.incoming.Some?)
    ensures r.Ok? && yml.incoming.Some? ==>
      r.value.incoming.value == dec.clean(yml.incoming.value) && IsAbs(r.value.incoming.value)
    ensures r.Ok? ==> (r.value.freq.Some? <==> yml.freq.Some?)
    ensures r.Ok? && yml.freq.Some? ==>
      r.value.freq.value == dec.clean(yml.freq.value) && IsAbs(r.value.freq.value)
    ensures r.Ok? ==> r.value.freqChunked == KiBToBytes(yml.freqChunked)
    ensures r.Ok? ==> r.value.freqMinSize == KiBToBytes(yml.freqMinSize)
    ensures r.Ok? ==> r.value.onlineDeadline == yml.onlineDeadline.GetOr(DefaultDeadline)
    ensures r.Ok? ==> r.value.maxOnlineTime == yml.maxOnlineTime.GetOr(0)
    ensures r.Ok? ==> |r.value.calls| == |yml.calls|
    ensures r.Ok? ==> forall i :: 0 <= i < |yml.calls| ==>
      NewCall(dec, yml.addrs, r.value.onlineDeadline, yml.calls[i]) == Ok(r.value.calls[i])
    ensures r.Ok? ==> r.value.via == [] && r.value.exec == map[]
  {
    match dec.nodeIdFromString(yml.id)
    case None => Err(BadNodeId)
    case Some(id) =>
      var exchPub :- DecodeKey(dec, yml.exchPub, CurveKeySize, ExchPub);
      var signPub :- DecodeKey(dec, yml.signPub, Ed25519PublicKeySize, SignPub);
      var noisePub :- match yml.noisePub
        case None => Ok(None)
        case Some(s) => (match DecodeKey(dec, s, CurveKeySize, NoisePub)
          case Err(e) => Err(e)
          case Ok(b) => Ok(Some(b)));
      var incoming :- CleanAbs(dec, yml.incoming, IncomingNotAbsolute);
      var freq :- CleanAbs(dec, yml.freq, FreqNotAbsolute);
      if yml.freqChunked == Some(0) then Err(ZeroFreqChunked)
      else if yml.onlineDeadline == Some(0) then Err(ZeroOnlineDeadline)
      else
        var deadline := yml.onlineDeadline.GetOr(DefaultDeadline);
        var maxOnline := yml.maxOnlineTime.GetOr(0);
        var calls :- NewCalls(dec, yml.addrs, deadline, yml.calls);
        Ok(Node(name, id, exchPub, signPub, noisePub, yml.sendmail, incoming, freq,
                KiBToBytes(yml.freqChunked), KiBToBytes(yml.freqMinSize), [], calls,
                yml.addrs, deadline, maxOnline, map[]))
  }

  predicate NodeOurYAMLOk(dec: Decoders, yml: NodeOurYAML) {
    && dec.nodeIdFromString(yml.id).Some?
    && KeyOk(dec, yml.exchPub, CurveKeySize)
    && KeyOk(dec, yml.exchPrv, CurveKeySize)
    && KeyOk(dec, yml.signPub, Ed25519PublicKeySize)
    && KeyOk(dec, yml.signPrv, Ed25519PrivateKeySize)
    && KeyOk(dec, yml.noisePub, CurveKeySize)
    && KeyOk(dec, yml.noisePrv, CurveKeySize)
  }

  /** NewNodeOur: the local node's identity and all six keys. */
  function NewNodeOur(dec: Decoders, yml: NodeOurYAML): (r: Result<NodeOur, CfgError>)
    ensures r.Ok? <==> NodeOurYAMLOk(dec, yml)
    ensures r.Ok? ==> Some(r.value.id) == dec.nodeIdFromString(yml.id)
    ensures r.Ok? ==> Some(r.value.exchPub) == dec.fromBase32(yml.exchPub)
    ensures r.Ok? ==> Some(r.value.exchPrv) == dec.fromBase32(yml.exchPrv)
    ensures r.Ok? ==> Some(r.value.signPub) == dec.fromBase32(yml.signPub)
    ensures r.Ok? ==> Some(r.value.signPrv) == dec.fromBase32(yml.signPrv)
    ensures r.Ok? ==> Some(r.value.noisePub) == dec.fromBase32(yml.noisePub)
    ensures r.Ok? ==> Some(r.value.noisePrv) == dec.fromBase32(yml.noisePrv)
    ensures r.Ok? ==> |r.value.signPrv| == Ed25519PrivateKeySize
  {
    match dec.nodeIdFromString(yml.id)
    case None => Err(BadNodeId)
    case Some(id) =>
      var exchPub :- DecodeKey(dec, yml.exchPub, CurveKeySize, ExchPub);
      var exchPrv :- DecodeKey(dec, yml.exchPrv, CurveKeySize, ExchPrv);
      var signPub :- DecodeKey(dec, yml.signPub, Ed25519PublicKeySize, SignPub);
      var signPrv :- DecodeKey(dec, yml.signPrv, Ed25519PrivateKeySize, SignPrv);
      var noisePub :- DecodeKey(dec, yml.noisePub, CurveKeySize, NoisePub);
      var noisePrv :- DecodeKey(dec, yml.noisePrv, CurveKeySize, NoisePrv);
      Ok(NodeOur(id, exchPub, exchPrv, signPub, signPrv, noisePub, noisePrv))
  }

  // ---------------------------------------------------------------- CfgParse

  datatype Neighbourhood = Neighbourhood(
    neigh: map<NodeId, Node>,
    alias: map<string, NodeId>,
    vias: map<NodeId, seq<string>>
  )

  /** The maps built so far agree with each other: every alias and every via
      list belongs to a known node, and nodes are filed under their own id. */
  predicate Coherent(nb: Neighbourhood) {
    && nb.vias.Keys == nb.neigh.Keys
    && (forall name :: name in nb.alias ==> nb.alias[name] in nb.neigh)
    && (forall id :: id in nb.neigh ==> nb.neigh[id].id == id)
    && (forall id :: id in nb.neigh ==> nb.neigh[id].exec == map[])
  }

  /** The via list each node id ends up with when the entries are visited in
      order and a later entry with the same id replaces an earlier one. */
  function RawVias(dec: Decoders, acc: map<NodeId, seq<string>>, entries: seq<NeighYAML>): map<NodeId, seq<string>>
    decreases |entries|
  {
    if |entries| == 0 then acc
    else
      var e := entries[0];
      match dec.nodeIdFromString(e.node.id)
      case None => RawVias(dec, acc, entries[1..])
      case Some(id) => RawVias(dec, acc[id := e.node.via], entries[1..])
  }

  /** The node each id ends up with when the entries are visited in order:
      the NewNode result of the last valid entry carrying that id. */
  function RawNeigh(dec: Decoders, acc: map<NodeId, Node>, entries: seq<NeighYAML>): map<NodeId, Node>
    decreases |entries|
  {
    if |entries| == 0 then acc
    else
      var e := entries[0];
      match NewNode(dec, e.name, e.node)
      case Err(_) => RawNeigh(dec, acc, entries[1..])
      case Ok(n) => RawNeigh(dec, acc[n.id := n], entries[1..])
  }

  /** The entry is valid and its NewNode result carries the given id. */
  predicate Carries(dec: Decoders, e: NeighYAML, id: NodeId) {
    NewNode(dec, e.name, e.node).Ok? && NewNode(dec, e.name, e.node).value.id == id
  }

  /** An id is in RawNeigh iff the start map or some valid entry has it. */
  lemma {:induction false} RawNeighKeys(dec: Decoders, acc: map<NodeId, Node>, entries: seq<NeighYAML>, id: NodeId)
    ensures id in RawNeigh(dec, acc, entries) <==>
      id in acc || exists i :: 0 <= i < |entries| && Carries(dec, entries[i], id)
    decreases |entries|
  {
    if |entries| > 0 {
      var e := entries[0];
      var rest := entries[1..];
      var acc' := if NewNode(dec, e.name, e.node).Ok? then acc[NewNode(dec, e.name, e.node).value.id := NewNode(dec, e.name, e.node).value] else acc;
      assert RawNeigh(dec, acc, entries) == RawNeigh(dec, acc', rest);
      RawNeighKeys(dec, acc', rest, id);
      if exists i :: 0 <= i < |rest| && Carries(dec, rest[i], id) {
        var i :| 0 <= i < |rest| && Carries(dec, rest[i], id);
        assert entries[i + 1] == rest[i];
      }
      if exists i :: 0 <= i < |entries| && Carries(dec, entries[i], id) {
        var i :| 0 <= i < |entries| && Carries(dec, entries[i], id);
        if i > 0 {
          assert entries[i] == rest[i - 1];
        }
      }
    }
  }

  /** Entry i is the last valid entry carrying the id. */
  predicate LastCarrier(dec: Decoders, entries: seq<NeighYAML>, id: NodeId, i: nat) {
    i < |entries| && Carries(dec, entries[i], id) && forall j :: i < j < |entries| ==> !Carries(dec, entries[j], id)
  }

  predicate NoCarrier(dec: Decoders, entries: seq<NeighYAML>, id: NodeId) {
    forall j :: 0 <= j < |entries| ==> !Carries(dec, entries[j], id)
  }

  /** The RawNeigh node of an id is the last valid entry's NewNode result
      for that id, or the start value when no entry carries the id. */
  lemma {:induction false} RawNeighLast(dec: Decoders, acc: map<NodeId, Node>, entries: seq<NeighYAML>, id: NodeId)
    requires id in RawNeigh(dec, acc, entries)
    ensures
      || (exists i: nat :: LastCarrier(dec, entries, id, i)
            && RawNeigh(dec, acc, entries)[id] == NewNode(dec, entries[i].name, entries[i].node).value)
      || (id in acc && RawNeigh(dec, acc, entries)[id] == acc[id] && NoCarrier(dec, entries, id))
    decreases |entries|
  {
    if |entries| > 0 {
      var e := entries[0];
      var rest := entries[1..];
      var acc' := if NewNode(dec, e.name, e.node).Ok? then acc[NewNode(dec, e.name, e.node).value.id := NewNode(dec, e.name, e.node).value] else acc;
      var m := RawNeigh(dec, acc', rest);
      assert RawNeigh(dec, acc, entries) == m;
      RawNeighLast(dec, acc', rest, id);
      if i: nat :| LastCarrier(dec, rest, id, i) && m[id] == NewNode(dec, rest[i].name, rest[i].node).value {
        assert entries[i + 1] == rest[i];
        assert LastCarrier(dec, entries, id, i + 1) by {
          assert forall j :: i + 1 < j < |entries| ==> entries[j] == rest[j - 1];
        }
      } else {
        assert NoCarrier(dec, rest, id);
        if Carries(dec, e, id) {
          assert LastCarrier(dec, entries, id, 0);
        } else {
          assert NoCarrier(dec, entries, id) by {
            assert forall j :: 1 <= j < |entries| ==> entries[j] == rest[j - 1];
          }
        }
      }
    }
  }

  /** One iteration of the loop over the neighbours: the entry is validated,
      filed under its id and aliased under its name; a repeated name is a
      conflict. */
  function AddNeighbour(dec: Decoders, e: NeighYAML, acc: Neighbourhood): (r: Result<Neighbourhood, CfgError>)
    requires Coherent(acc)
    ensures r.Ok? <==> NewNode(dec, e.name, e.node).Ok? && e.name !in acc.alias
    ensures r.Ok? ==> Coherent(r.value)
    ensures r.Ok? ==> acc.alias.Keys + {e.name} == r.value.alias.Keys
    ensures r.Ok? ==> dec.nodeIdFromString(e.node.id).Some?
    ensures r.Ok? ==> r.value.vias == acc.vias[dec.nodeIdFromString(e.node.id).value := e.node.via]
    ensures r.Ok? ==>
      && r.value.neigh == acc.neigh[dec.nodeIdFromString(e.node.id).value := NewNode(dec, e.name, e.node).value]
      && r.value.alias == acc.alias[e.name := dec.nodeIdFromString(e.node.id).value]
  {
    var node :- NewNode(dec, e.name, e.node);
    if e.name in acc.alias then Err(NamesConflict)
    else Ok(Neighbourhood(acc.neigh[node.id := node], acc.alias[e.name := node.id], acc.vias[node.id := e.node.via]))
  }

  /** The loop over the neighbours, one AddNeighbour per entry in order. */
  function AddNeighbours(dec: Decoders, entries: seq<NeighYAML>, acc: Neighbourhood): (r: Result<Neighbourhood, CfgError>)
    requires Coherent(acc)
    ensures r.Ok? ==> Coherent(r.value)
    ensures r.Ok? ==> acc.alias.Keys <= r.value.alias.Keys
    ensures r.Ok? ==> forall i :: 0 <= i < |entries| ==> entries[i].name in r.value.alias
    decreases |entries|
  {
    if |entries| == 0 then Ok(acc)
    else match AddNeighbour(dec, entries[0], acc)
      case Err(e) => Err(e)
      case Ok(next) =>
        var r := AddNeighbours(dec, entries[1..], next);
        assert r.Ok? ==> forall i :: 0 <= i < |entries| ==> entries[i].name in r.value.alias by {
          if r.Ok? {
            assert entries[0].name in next.alias.Keys;
            forall i | 1 <= i < |entries|
              ensures entries[i].name in r.value.alias
            {
              assert entries[i] == entries[1..][i - 1];
            }
          }
        }
        r
  }

  /** The via lists of an accepted neighbour list are the raw ones, a later
      entry for the same id replacing an earlier one. */
  lemma {:induction false} AddNeighboursVias(dec: Decoders, entries: seq<NeighYAML>, acc: Neighbourhood)
    requires Coherent(acc)
    ensures var r := AddNeighbours(dec, entries, acc);
      r.Ok? ==> r.value.vias == RawVias(dec, acc.vias, entries)
    decreases |entries|
  {
    if |entries| > 0 && AddNeighbour(dec, entries[0], acc).Ok? {
      var next := AddNeighbour(dec, entries[0], acc).value;
      assert AddNeighbours(dec, entries, acc) == AddNeighbours(dec, entries[1..], next);
      assert RawVias(dec, acc.vias, entries) == RawVias(dec, next.vias, entries[1..]);
      AddNeighboursVias(dec, entries[1..], next);
    }
  }

  /** The nodes of an accepted neighbour list are NewNode's results, a later
      entry for the same id replacing an earlier one. */
  lemma {:induction false} AddNeighboursNodes(dec: Decoders, entries: seq<NeighYAML>, acc: Neighbourhood)
    requires Coherent(acc)
    ensures var r := AddNeighbours(dec, entries, acc);
      r.Ok? ==> r.value.neigh == RawNeigh(dec, acc.neigh, entries)
    decreases |entries|
  {
    if |entries| > 0 && AddNeighbour(dec, entries[0], acc).Ok? {
      var next := AddNeighbour(dec, entries[0], acc).value;
      assert AddNeighbours(dec, entries, acc) == AddNeighbours(dec, entries[1..], next);
      assert RawNeigh(dec, acc.neigh, entries) == RawNeigh(dec, next.neigh, entries[1..]);
      AddNeighboursNodes(dec, entries[1..], next);
    }
  }

  /** Aliases already present before the loop keep their ids. */
  lemma {:induction false} AddNeighboursKeepAliases(dec: Decoders, entries: seq<NeighYAML>, acc: Neighbourhood)
    requires Coherent(acc)
    ensures var r := AddNeighbours(dec, entries, acc);
      r.Ok? ==> forall n :: n in acc.alias ==> n in r.value.alias && r.value.alias[n] == acc.alias[n]
    decreases |entries|
  {
    if |entries| > 0 && AddNeighbour(dec, entries[0], acc).Ok? {
      var next := AddNeighbour(dec, entries[0], acc).value;
      assert AddNeighbours(dec, entries, acc) == AddNeighbours(dec, entries[1..], next);
      AddNeighboursKeepAliases(dec, entries[1..], next);
    }
  }

  /** The i-th entry's name is aliased to the id that entry parses to. */
  lemma {:induction false} AddNeighboursAliasAt(dec: Decoders, entries: seq<NeighYAML>, acc: Neighbourhood, i: nat)
    requires Coherent(acc)
    requires i < |entries|
    ensures var r := AddNeighbours(dec, entries, acc);
      r.Ok? ==> entries[i].name in r.value.alias && dec.nodeIdFromString(entries[i].node.id) == Some(r.value.alias[entries[i].name])
    decreases |entries|
  {
    if AddNeighbour(dec, entries[0], acc).Ok? {
      var next := AddNeighbour(dec, entries[0], acc).value;
      var rest := entries[1..];
      assert AddNeighbours(dec, entries, acc) == AddNeighbours(dec, rest, next);
      if i == 0 {
        AddNeighboursKeepAliases(dec, rest, next);
      } else {
        assert entries[i] == rest[i - 1];
        AddNeighboursAliasAt(dec, rest, next, i - 1);
      }
    }
  }

  /** Every name of an accepted neighbour list is aliased to the id its own
      entry parses to. */
  lemma AddNeighboursAliases(dec: Decoders, entries: seq<NeighYAML>, acc: Neighbourhood)
    requires Coherent(acc)
    ensures var r := AddNeighbours(dec, entries, acc);
      r.Ok? ==> forall i :: 0 <= i < |entries| ==>
        entries[i].name in r.value.alias && dec.nodeIdFromString(entries[i].node.id) == Some(r.value.alias[entries[i].name])
  {
    forall i | 0 <= i < |entries| {
      AddNeighboursAliasAt(dec, entries, acc, i);
    }
  }

  /** Some entry of the list has the given name. */
  predicate Named(entries: seq<NeighYAML>, n: string) {
    exists i :: 0 <= i < |entries| && entries[i].name == n
  }

  /** No name other than the entries' own joins the aliases. */
  lemma {:induction false} AddNeighboursOnlyAliases(dec: Decoders, entries: seq<NeighYAML>, acc: Neighbourhood)
    requires Coherent(acc)
    ensures var r := AddNeighbours(dec, entries, acc);
      r.Ok? ==> forall n :: n in r.value.alias ==> n in acc.alias || Named(entries, n)
    decreases |entries|
  {
    if |entries| > 0 && AddNeighbour(dec, entries[0], acc).Ok? {
      var next := AddNeighbour(dec, entries[0], acc).value;
      var rest := entries[1..];
      var r := AddNeighbours(dec, rest, next);
      assert AddNeighbours(dec, entries, acc) == r;
      AddNeighboursOnlyAliases(dec, rest, next);
      assert next.alias.Keys == acc.alias.Keys + {entries[0].name};
      assert Named(entries, entries[0].name);
      assert forall n :: Named(rest, n) ==> Named(entries, n) by {
        forall n | Named(rest, n) ensures Named(entries, n) {
          var k :| 0 <= k < |rest| && rest[k].name == n;
          assert entries[k + 1].name == n;
        }
      }
    }
  }

  /** Every entry of an accepted neighbour list passed NewNode's checks. */
  lemma {:induction false} AddNeighboursValid(dec: Decoders, entries: seq<NeighYAML>, acc: Neighbourhood)
    requires Coherent(acc)
    ensures AddNeighbours(dec, entries, acc).Ok? ==> forall i :: 0 <= i < |entries| ==> NodeYAMLOk(dec, entries[i].node)
    decreases |entries|
  {
    if |entries| > 0 && AddNeighbour(dec, entries[0], acc).Ok? {
      var next := AddNeighbour(dec, entries[0], acc).value;
      assert AddNeighbours(dec, entries, acc) == AddNeighbours(dec, entries[1..], next);
      assert NewNode(dec, entries[0].name, entries[0].node).Ok?;
      AddNeighboursValid(dec, entries[1..], next);
      if AddNeighbours(dec, entries, acc).Ok? {
        forall i | 1 <= i < |entries|
          ensures NodeYAMLOk(dec, entries[i].node)
        {
          assert entries[i] == entries[1..][i - 1];
        }
      }
    }
  }

  /** An entry whose name is already aliased makes the whole loop fail. */
  lemma {:induction false} AddNeighboursTaken(dec: Decoders, entries: seq<NeighYAML>, acc: Neighbourhood, i: nat)
    requires Coherent(acc)
    requires i < |entries| && entries[i].name in acc.alias
    ensures AddNeighbours(dec, entries, acc).Err?
    decreases |entries|
  {
    if i > 0 && AddNeighbour(dec, entries[0], acc).Ok? {
      AddNeighboursTaken(dec, entries[1..], AddNeighbour(dec, entries[0], acc).value, i - 1);
    }
  }

  /** Every entry passes NewNode's checks and no two entries share a name. */
  predicate EntriesOk(dec: Decoders, entries: seq<NeighYAML>) {
    && (forall i :: 0 <= i < |entries| ==> NodeYAMLOk(dec, entries[i].node))
    && (forall i, j :: 0 <= i < j < |entries| ==> entries[i].name != entries[j].name)
  }

  /** No entry's name is among the `taken` ones. */
  predicate NamesFresh(entries: seq<NeighYAML>, taken: set<string>) {
    forall i :: 0 <= i < |entries| ==> entries[i].name !in taken
  }

  lemma EntriesOkCons(dec: Decoders, entries: seq<NeighYAML>)
    requires |entries| > 0
    ensures EntriesOk(dec, entries) <==>
      NodeYAMLOk(dec, entries[0].node) && EntriesOk(dec, entries[1..]) && NamesFresh(entries[1..], {entries[0].name})
  {
    var rest := entries[1..];
    assert forall i :: 1 <= i < |entries| ==> entries[i] == rest[i - 1];
    if NodeYAMLOk(dec, entries[0].node) && EntriesOk(dec, rest) && NamesFresh(rest, {entries[0].name}) {
      forall i, j | 0 <= i < j < |entries|
        ensures entries[i].name != entries[j].name
      {
        if i > 0 {
          assert rest[i - 1].name != rest[j - 1].name;
        } else {
          assert rest[j - 1].name !in {entries[0].name};
        }
      }
    }
    if EntriesOk(dec, entries) {
      forall i | 0 <= i < |rest|
        ensures rest[i].name !in {entries[0].name}
      {
        assert entries[0].name != entries[i + 1].name;
      }
    }
  }

  lemma NamesFreshCons(entries: seq<NeighYAML>, taken: set<string>)
    requires |entries| > 0
    ensures NamesFresh(entries, taken) <==> entries[0].name !in taken && NamesFresh(entries[1..], taken)
  {
    assert forall i :: 1 <= i < |entries| ==> entries[i] == entries[1..][i - 1];
  }

  /** The loop over the neighbours succeeds exactly when every entry passes
      NewNode's checks and every name is new: not aliased before the loop,
      and not repeated by a later entry. */
  lemma {:induction false} AddNeighboursAccepts(dec: Decoders, entries: seq<NeighYAML>, acc: Neighbourhood)
    requires Coherent(acc)
    ensures AddNeighbours(dec, entries, acc).Ok? <==> EntriesOk(dec, entries) && NamesFresh(entries, acc.alias.Keys)
    decreases |entries|
  {
    if |entries| > 0 {
      var e, rest := entries[0], entries[1..];
      EntriesOkCons(dec, entries);
      NamesFreshCons(entries, acc.alias.Keys);
      if AddNeighbour(dec, e, acc).Ok? {
        var next := AddNeighbour(dec, e, acc).value;
        assert AddNeighbours(dec, entries, acc) == AddNeighbours(dec, rest, next);
        AddNeighboursAccepts(dec, rest, next);
        assert next.alias.Keys == acc.alias.Keys + {e.name};
        assert NamesFresh(rest, acc.alias.Keys + {e.name}) <==> NamesFresh(rest, acc.alias.Keys) && NamesFresh(rest, {e.name});
      }
    }
  }

  /** Ctx.FindNode: a name is looked up as an alias first, then parsed as a
      node id that must belong to a known neighbour. */
  function FindNode(dec: Decoders, alias: map<string, NodeId>, neigh: map<NodeId, Node>, name: string): Option<NodeId> {
    if name in alias then Some(alias[name])
    else match dec.nodeIdFromString(name)
      case None => None
      case Some(id) => if id in neigh then Some(id) else None
  }

  /** The via names, resolved in configured order; None if any fails. */
  function ResolveAll(dec: Decoders, alias: map<string, NodeId>, neigh: map<NodeId, Node>, names: seq<string>): (r: Option<seq<NodeId>>)
    ensures r.Some? <==> forall i :: 0 <= i < |names| ==> FindNode(dec, alias, neigh, names[i]).Some?
    ensures r.Some? ==> ResolvesTo(dec, alias, neigh, names, r.value)
    decreases |names|
  {
    if |names| == 0 then Some([])
    else match FindNode(dec, alias, neigh, names[0])
      case None => None
      case Some(id) =>
        assert forall i :: 1 <= i < |names| ==> names[i] == names[1..][i - 1];
        match ResolveAll(dec, alias, neigh, names[1..])
        case None => None
        case Some(rest) => Some([id] + rest)
  }

  /** The i-th resolved via is what the i-th configured via name denotes. */
  predicate ResolvesTo(dec: Decoders, alias: map<string, NodeId>, neigh: map<NodeId, Node>, names: seq<string>, ids: seq<NodeId>) {
    |names| == |ids| && forall i :: 0 <= i < |names| ==> FindNode(dec, alias, neigh, names[i]) == Some(ids[i])
  }

  function ResolveVias(dec: Decoders, nb: Neighbourhood): (r: Result<map<NodeId, Node>, CfgError>)
    requires Coherent(nb)
    ensures r.Ok? <==> forall id :: id in nb.vias ==> ResolveAll(dec, nb.alias, nb.neigh, nb.vias[id]).Some?
    ensures r.Ok? ==> r.value.Keys == nb.neigh.Keys
    ensures r.Ok? ==> forall id :: id in r.value ==>
      r.value[id] == nb.neigh[id].(via := r.value[id].via)
      && ResolvesTo(dec, nb.alias, nb.neigh, nb.vias[id], r.value[id].via)
  {
    if forall id :: id in nb.vias ==> ResolveAll(dec, nb.alias, nb.neigh, nb.vias[id]).Some? then
      Ok(map id | id in nb.neigh :: nb.neigh[id].(via := ResolveAll(dec, nb.alias, nb.neigh, nb.vias[id]).value))
    else Err(ViaUnresolved)
  }

  predicate HasSelfEntry(entries: seq<NeighYAML>) {
    exists i :: 0 <= i < |entries| && entries[i].name == "self"
  }

  predicate SelfOk(dec: Decoders, cfg: CfgYAML) {
    cfg.self.Some? ==> NodeOurYAMLOk(dec, cfg.self.value)
  }

  /** FindNode depends on the neighbour map only through its keys. */
  lemma ResolvesToKeys(dec: Decoders, alias: map<string, NodeId>, n1: map<NodeId, Node>, n2: map<NodeId, Node>,
                       names: seq<string>, ids: seq<NodeId>)
    requires n1.Keys == n2.Keys
    ensures ResolvesTo(dec, alias, n1, names, ids) == ResolvesTo(dec, alias, n2, names, ids)
  {
    assert forall n :: FindNode(dec, alias, n1, n) == FindNode(dec, alias, n2, n);
  }

  /** Every neighbour built from configuration has an empty exec table:
      NewNode never fills one in. */
  predicate NoExecHandles(neigh: map<NodeId, Node>) {
    forall id :: id in neigh ==> neigh[id].exec == map[]
  }

  /** How an accepted context relates to the neighbour entries: every id's
      node is the RawNeigh node with only its via list replaced, every entry's
      name is aliased to the id that entry parses to, and no other name is. */
  predicate Filed(dec: Decoders, entries: seq<NeighYAML>, neigh: map<NodeId, Node>, alias: map<string, NodeId>) {
    && neigh.Keys == RawNeigh(dec, map[], entries).Keys
    && (forall id :: id in neigh ==> neigh[id] == RawNeigh(dec, map[], entries)[id].(via := neigh[id].via))
    && (forall i :: 0 <= i < |entries| ==>
          entries[i].name in alias && dec.nodeIdFromString(entries[i].node.id) == Some(alias[entries[i].name]))
    && (forall n :: n in alias ==> Named(entries, n))
  }

  /** An accepted neighbour list with resolved vias is filed as Filed says. */
  lemma NeighbourhoodFiled(dec: Decoders, entries: seq<NeighYAML>)
    ensures var nb := AddNeighbours(dec, entries, Neighbourhood(map[], map[], map[]));
      nb.Ok? && ResolveVias(dec, nb.value).Ok? ==> Filed(dec, entries, ResolveVias(dec, nb.value).value, nb.value.alias)
  {
    AddNeighboursNodes(dec, entries, Neighbourhood(map[], map[], map[]));
    AddNeighboursAliases(dec, entries, Neighbourhood(map[], map[], map[]));
    AddNeighboursOnlyAliases(dec, entries, Neighbourhood(map[], map[], map[]));
  }

  /** Once resolved, every via list names nodes of the final map, which keeps
      each node's id. */
  lemma ResolvedVias(dec: Decoders, nb: Neighbourhood)
    requires Coherent(nb) && ResolveVias(dec, nb).Ok?
    ensures var neigh := ResolveVias(dec, nb).value;
      forall id :: id in neigh ==>
        neigh[id].id == nb.neigh[id].id && ResolvesTo(dec, nb.alias, neigh, nb.vias[id], neigh[id].via)
  {
    var neigh := ResolveVias(dec, nb).value;
    forall id | id in neigh
      ensures neigh[id].id == nb.neigh[id].id && ResolvesTo(dec, nb.alias, neigh, nb.vias[id], neigh[id].via)
    {
      ResolvesToKeys(dec, nb.alias, nb.neigh, neigh, nb.vias[id], neigh[id].via);
    }
  }

  /** A via name the configuration can resolve: the name of some entry, or
      the textual id of some valid entry's node. */
  predicate NameResolves(dec: Decoders, entries: seq<NeighYAML>, name: string) {
    || Named(entries, name)
    || (dec.nodeIdFromString(name).Some? && dec.nodeIdFromString(name).value in RawNeigh(dec, map[], entries))
  }

  /** Every name in the via list each node ends up with can be resolved. */
  predicate ViasResolve(dec: Decoders, entries: seq<NeighYAML>) {
    var vias := RawVias(dec, map[], entries);
    forall id, k :: id in vias && 0 <= k < |vias[id]| ==> NameResolves(dec, entries, vias[id][k])
  }

  /** Once the neighbour loop has succeeded, via resolution succeeds exactly
      when every via name of the final via lists resolves. */
  lemma ResolveViasAccepts(dec: Decoders, entries: seq<NeighYAML>)
    ensures var nb := AddNeighbours(dec, entries, Neighbourhood(map[], map[], map[]));
      nb.Ok? ==> (ResolveVias(dec, nb.value).Ok? <==> ViasResolve(dec, entries))
  {
    var empty := Neighbourhood(map[], map[], map[]);
    var r := AddNeighbours(dec, entries, empty);
    if r.Ok? {
      var nb := r.value;
      AddNeighboursVias(dec, entries, empty);
      AddNeighboursNodes(dec, entries, empty);
      AddNeighboursAliases(dec, entries, empty);
      AddNeighboursOnlyAliases(dec, entries, empty);
      ViasResolveIff(dec, entries, nb);
    }
  }

  lemma ViasResolveIff(dec: Decoders, entries: seq<NeighYAML>, nb: Neighbourhood)
    requires Coherent(nb)
    requires nb.vias == RawVias(dec, map[], entries) && nb.neigh.Keys == RawNeigh(dec, map[], entries).Keys
    requires forall n :: n in nb.alias <==> Named(entries, n)
    ensures ResolveVias(dec, nb).Ok? <==> ViasResolve(dec, entries)
  {
    var vias := nb.vias;
    forall id | id in vias
      ensures ResolveAll(dec, nb.alias, nb.neigh, vias[id]).Some? <==>
        forall k :: 0 <= k < |vias[id]| ==> NameResolves(dec, entries, vias[id][k])
    {
      forall k | 0 <= k < |vias[id]|
        ensures FindNode(dec, nb.alias, nb.neigh, vias[id][k]).Some? <==> NameResolves(dec, entries, vias[id][k])
      {
        FindNodeResolves(dec, entries, nb, vias[id][k]);
      }
    }
  }

  lemma FindNodeResolves(dec: Decoders, entries: seq<NeighYAML>, nb: Neighbourhood, n: string)
    requires nb.neigh.Keys == RawNeigh(dec, map[], entries).Keys
    requires n in nb.alias <==> Named(entries, n)
    ensures FindNode(dec, nb.alias, nb.neigh, n).Some? <==> NameResolves(dec, entries, n)
  {
  }

  /** The second half of CfgParse: neighbours, aliases and via resolution. */
  function BuildCtx(dec: Decoders, cfg: CfgYAML, self: Option<NodeOur>, spool: Path, logPath: Path): (r: Result<Ctx, CfgError>)
    requires HasSelfEntry(cfg.neigh)
    ensures r.Ok? ==> r.value.spool == spool && r.value.logPath == logPath && r.value.self == self
    ensures r.Ok? ==> "self" in r.value.alias && r.value.selfId == r.value.alias["self"]
    ensures r.Ok? ==> forall i :: 0 <= i < |cfg.neigh| ==>
      NodeYAMLOk(dec, cfg.neigh[i].node) && cfg.neigh[i].name in r.value.alias
    ensures r.Ok? ==> forall name :: name in r.value.alias ==> r.value.alias[name] in r.value.neigh
    ensures r.Ok? ==> forall id :: id in r.value.neigh ==> r.value.neigh[id].id == id
    ensures r.Ok? ==> NoExecHandles(r.value.neigh)
    ensures r.Ok? ==> forall id :: id in r.value.neigh ==>
      id in RawVias(dec, map[], cfg.neigh)
      && ResolvesTo(dec, r.value.alias, r.value.neigh, RawVias(dec, map[], cfg.neigh)[id], r.value.neigh[id].via)
    ensures r.Ok? ==> Filed(dec, cfg.neigh, r.value.neigh, r.value.alias)
    ensures r.Ok? ==> forall i :: 0 <= i < |cfg.neigh| && cfg.neigh[i].name == "self" ==>
      dec.nodeIdFromString(cfg.neigh[i].node.id) == Some(r.value.selfId)
    ensures r.Ok? <==> EntriesOk(dec, cfg.neigh) && ViasResolve(dec, cfg.neigh)
    ensures EntriesOk(dec, cfg.neigh) && !ViasResolve(dec, cfg.neigh) ==> r == Err(ViaUnresolved)
  {
    AddNeighboursAccepts(dec, cfg.neigh, Neighbourhood(map[], map[], map[]));
    ResolveViasAccepts(dec, cfg.neigh);
    var nb :- AddNeighbours(dec, cfg.neigh, Neighbourhood(map[], map[], map[]));
    AddNeighboursValid(dec, cfg.neigh, Neighbourhood(map[], map[], map[]));
    AddNeighboursVias(dec, cfg.neigh, Neighbourhood(map[], map[], map[]));
    AddNeighboursAliases(dec, cfg.neigh, Neighbourhood(map[], map[], map[]));
    NeighbourhoodFiled(dec, cfg.neigh);
    var neigh :- ResolveVias(dec, nb);
    var notifyFile := if cfg.notify.Some? then cfg.notify.value.file else None;
    var notifyFreq := if cfg.notify.Some? then cfg.notify.value.freq else None;
    assert "self" in nb.alias;
    ResolvedVias(dec, nb);
    Ok(Ctx(spool, logPath, self, neigh, nb.alias, nb.alias["self"], notifyFile, notifyFreq))
  }

  /** Everything CfgParse checks before the neighbours: a "self" entry, a
      valid own node when one is given, and absolute spool and log paths. */
  predicate HeaderOk(dec: Decoders, cfg: CfgYAML) {
    && HasSelfEntry(cfg.neigh) && SelfOk(dec, cfg)
    && IsAbs(dec.clean(cfg.spool)) && IsAbs(dec.clean(cfg.log))
  }

  /** CfgParse on an already-unmarshalled YAML document. */
  function CfgParse(dec: Decoders, cfg: CfgYAML): (r: Result<Ctx, CfgError>)
    ensures !HasSelfEntry(cfg.neigh) ==> r == Err(SelfMissing)
    ensures HasSelfEntry(cfg.neigh) && SelfOk(dec, cfg) && !IsAbs(dec.clean(cfg.spool)) ==> r == Err(SpoolNotAbsolute)
    ensures HasSelfEntry(cfg.neigh) && SelfOk(dec, cfg) && IsAbs(dec.clean(cfg.spool)) && !IsAbs(dec.clean(cfg.log)) ==>
      r == Err(LogNotAbsolute)
    ensures r.Ok? ==> HasSelfEntry(cfg.neigh) && SelfOk(dec, cfg)
    ensures r.Ok? ==> r.value.spool == dec.clean(cfg.spool) && IsAbs(r.value.spool)
    ensures r.Ok? ==> r.value.logPath == dec.clean(cfg.log) && IsAbs(r.value.logPath)
    ensures r.Ok? ==> (r.value.self.Some? <==> cfg.self.Some?)
    ensures r.Ok? ==> "self" in r.value.alias && r.value.selfId == r.value.alias["self"]
    ensures r.Ok? ==> forall i :: 0 <= i < |cfg.neigh| ==> cfg.neigh[i].name in r.value.alias
    ensures r.Ok? ==> forall id :: id in r.value.neigh ==> r.value.neigh[id].id == id
    ensures r.Ok? ==> NoExecHandles(r.value.neigh)
    ensures r.Ok? ==> forall id :: id in r.value.neigh ==>
      id in RawVias(dec, map[], cfg.neigh)
      && ResolvesTo(dec, r.value.alias, r.value.neigh, RawVias(dec, map[], cfg.neigh)[id], r.value.neigh[id].via)
    ensures r.Ok? ==> Filed(dec, cfg.neigh, r.value.neigh, r.value.alias)
    ensures r.Ok? ==> forall i :: 0 <= i < |cfg.neigh| && cfg.neigh[i].name == "self" ==>
      dec.nodeIdFromString(cfg.neigh[i].node.id) == Some(r.value.selfId)
    ensures r.Ok? <==> HeaderOk(dec, cfg) && EntriesOk(dec, cfg.neigh) && ViasResolve(dec, cfg.neigh)
    ensures HasSelfEntry(cfg.neigh) && !SelfOk(dec, cfg) ==> r == Err(NewNodeOur(dec, cfg.self.value).error)
    ensures HeaderOk(dec, cfg) && EntriesOk(dec, cfg.neigh) && !ViasResolve(dec, cfg.neigh) ==> r == Err(ViaUnresolved)
    ensures r.Ok? ==> r.value.self == (if cfg.self.Some? then Some(NewNodeOur(dec, cfg.self.value).value) else None)
  {
    if !HasSelfEntry(cfg.neigh) then Err(SelfMissing)
    else
      var self :- match cfg.self
        case None => Ok(None)
        case Some(y) => (match NewNodeOur(dec, y)
          case Err(e) => Err(e)
          case Ok(n) => Ok(Some(n)));
      var spool := dec.clean(cfg.spool);
      if !IsAbs(spool) then Err(SpoolNotAbsolute)
      else
        var logPath := dec.clean(cfg.log);
        if !IsAbs(logPath) then Err(LogNotAbsolute)
        else BuildCtx(dec, cfg, self, spool, logPath)
  }

  // ------------------------------------------------------------------ lemmas

  /** For any size a real configuration uses, the KiB value is scaled exactly. */
  lemma KiBToBytesExact(k: uint64)
    requires (k as int) < 0x20_0000_0000_0000
    ensures KiBToBytes(Some(k)) == k as int * 1024
    ensures KiBToBytes(Some(k)) >= 0
  {
  }

  /** int64 wrap-around: a freqchunked of 2^54 KiB passes the "greater than
      zero" check yet is stored as 0, which toss.go reads as "not chunked". */
  lemma FreqChunkedWrapsToZero(dec: Decoders, name: string, yml: NodeYAML)
    requires NodeYAMLOk(dec, yml)
    requires yml.freqChunked == Some(0x40_0000_0000_0000)
    ensures NewNode(dec, name, yml).Ok?
    ensures NewNode(dec, name, yml).value.freqChunked == 0
  {
    assert (0x40_0000_0000_0000 * 1024) % Word64 == 0;
  }

  /** Two neighbour entries under the same name can never both be accepted.
      The YAML `neigh` section is a Go map, so the program itself never meets
      such an input: this is about the conflict check as written, which the
      sequence of entries in this model can exercise. */
  lemma DuplicateNamesRejected(dec: Decoders, cfg: CfgYAML, i: nat, j: nat)
    requires i < j < |cfg.neigh| && cfg.neigh[i].name == cfg.neigh[j].name
    ensures CfgParse(dec, cfg).Err?
  {
    if HasSelfEntry(cfg.neigh) && SelfOk(dec, cfg) && IsAbs(dec.clean(cfg.spool)) && IsAbs(dec.clean(cfg.log)) {
      DuplicateNamesRejectedFrom(dec, cfg.neigh, Neighbourhood(map[], map[], map[]), i, j);
    }
  }

  lemma {:induction false} DuplicateNamesRejectedFrom(dec: Decoders, entries: seq<NeighYAML>, acc: Neighbourhood, i: nat, j: nat)
    requires Coherent(acc)
    requires i < j < |entries| && entries[i].name == entries[j].name
    ensures AddNeighbours(dec, entries, acc).Err?
    decreases |entries|
  {
    match AddNeighbour(dec, entries[0], acc)
    case Err(_) =>
    case Ok(next) =>
      if i == 0 {
        AddNeighboursTaken(dec, entries[1..], next, j - 1);
      } else {
        DuplicateNamesRejectedFrom(dec, entries[1..], next, i - 1, j - 1);
      }
  }
}

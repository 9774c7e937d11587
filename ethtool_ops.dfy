/** The ethtool operations built from the dispatcher and the descriptor codec:
    the offload flag getters and setter, and the coalescing and ring-parameter
    getters and setters. Each C function's stack buffer is the `array`
    argument; its initial contents are arbitrary, as uninitialised stack memory is. */
module EthtoolOps {
  import opened Bytes
  import opened Errors
  import opened StructDesc
  import opened Dispatch

  // Command codes of the Linux ethtool interface (`ETHTOOL_*`).
  const ETHTOOL_GCOALESCE: uint32 := 0x0e
  const ETHTOOL_SCOALESCE: uint32 := 0x0f
  const ETHTOOL_GRINGPARAM: uint32 := 0x10
  const ETHTOOL_SRINGPARAM: uint32 := 0x11
  const ETHTOOL_GSG: uint32 := 0x18
  const ETHTOOL_GTSO: uint32 := 0x1e
  const ETHTOOL_STSO: uint32 := 0x1f
  const ETHTOOL_GUFO: uint32 := 0x21
  const ETHTOOL_GGSO: uint32 := 0x23

  /** The offload queries `get_tso`, `get_ufo`, `get_gso` and `get_sg`. */
  predicate IsOffloadQuery(cmd: uint32) {
    cmd == ETHTOOL_GTSO || cmd == ETHTOOL_GUFO || cmd == ETHTOOL_GGSO || cmd == ETHTOOL_GSG
  }

  /** The shared body of `get_tso`, `get_ufo`, `get_gso` and `get_sg`: the
      flag's value as a Python int, or the dispatcher's error. */
  method GetOffload(cmd: uint32, devname: seq<uint8>, k: Kernel, eval: array<uint8>)
    returns (r: Result<int>)
    requires IsOffloadQuery(cmd)
    requires eval.Length == ETHTOOL_VALUE_SIZE
    modifies eval
    ensures var x := Transact(k, PrepareRequest(cmd, devname, old(eval[..])));
      && eval[..] == x.block
      && r == match x.status
              case Pass => Success(U32ToInt32(ReadU32(x.block, VALUE_DATA_OFFSET)) as int)
              case Fail(e) => Failure(e)
  {
    var status, value := GetDevIntValue(cmd, devname, k, eval, 0);
    if status.Fail? {
      return Failure(status.error);
    }
    return Success(value);
  }

  /** `set_tso`: None on success, or the dispatcher's error. */
  method SetTso(devname: seq<uint8>, data: int32, k: Kernel, eval: array<uint8>)
    returns (status: Outcome)
    requires eval.Length == ETHTOOL_VALUE_SIZE
    modifies eval
    ensures Exchange(status, eval[..]) ==
      Transact(k, PrepareRequest(ETHTOOL_STSO, devname, WriteU32(old(eval[..]), VALUE_DATA_OFFSET, LongToU32(data))))
  {
    status := DevSetIntValue(ETHTOOL_STSO, devname, data, k, eval);
  }

  /** `get_coalesce` / `get_ringparam`: query the device, then decode the block
      the kernel filled in. */
  method GetStruct(cmd: uint32, table: seq<FieldDesc>, devname: seq<uint8>, k: Kernel, block: array<uint8>)
    returns (r: Result<Dict>)
    requires block.Length >= U32_SIZE && InBounds(table, block.Length)
    modifies block
    ensures var x := Transact(k, PrepareRequest(cmd, devname, old(block[..])));
      && block[..] == x.block
      && r == match x.status
              case Pass => Success(Decode(table, x.block))
              case Fail(e) => Failure(e)
  {
    var status := GetDevValue(cmd, devname, block, k);
    if status.Fail? {
      return Failure(status.error);
    }
    var dict := CreateDict(table, block);
    return Success(dict);
  }

  /** `set_coalesce` / `set_ringparam`: encode the dict into the block in
      place; only when that succeeds, send the block. */
  method SetStruct(cmd: uint32, table: seq<FieldDesc>, devname: seq<uint8>, dict: Dict, k: Kernel, block: array<uint8>)
    returns (status: Outcome)
    requires block.Length >= U32_SIZE && InBounds(table, block.Length)
    modifies block
    ensures var e := Encode(table, dict, old(block[..]));
      if e.status.Fail? then status == e.status && block[..] == e.block
      else Exchange(status, block[..]) == Transact(k, PrepareRequest(cmd, devname, e.block))
  {
    status := FromDict(table, block, dict);
    if status.Fail? {
      return;
    }
    status := SendCommand(cmd, devname, block, k);
  }

  /** `get_coalesce`. The shipped table only holds `__u32` members, so the
      dict is the one the corrected decoding gives. */
  method GetCoalesce(devname: seq<uint8>, k: Kernel, coal: array<uint8>) returns (r: Result<Dict>)
    requires coal.Length == COALESCE_SIZE
    modifies coal
    ensures var x := Transact(k, PrepareRequest(ETHTOOL_GCOALESCE, devname, old(coal[..])));
      && coal[..] == x.block
      && r == match x.status
              case Pass => DecodeChecked(COALESCE_DESC, x.block)
              case Fail(e) => Failure(e)
  {
    CoalesceLayout();
    r := GetStruct(ETHTOOL_GCOALESCE, COALESCE_DESC, devname, k, coal);
    ShippedTablesDecodeChecked(coal[..]);
  }

  /** `set_coalesce`. */
  method SetCoalesce(devname: seq<uint8>, dict: Dict, k: Kernel, coal: array<uint8>) returns (status: Outcome)
    requires coal.Length == COALESCE_SIZE
    modifies coal
    ensures var e := Encode(COALESCE_DESC, dict, old(coal[..]));
      if e.status.Fail? then status == e.status && coal[..] == e.block
      else Exchange(status, coal[..]) == Transact(k, PrepareRequest(ETHTOOL_SCOALESCE, devname, e.block))
  {
    CoalesceLayout();
    status := SetStruct(ETHTOOL_SCOALESCE, COALESCE_DESC, devname, dict, k, coal);
  }

  /** `get_ringparam`, likewise. */
  method GetRingparam(devname: seq<uint8>, k: Kernel, ring: array<uint8>) returns (r: Result<Dict>)
    requires ring.Length == RINGPARAM_SIZE
    modifies ring
    ensures var x := Transact(k, PrepareRequest(ETHTOOL_GRINGPARAM, devname, old(ring[..])));
      && ring[..] == x.block
      && r == match x.status
              case Pass => DecodeChecked(RINGPARAM_DESC, x.block)
              case Fail(e) => Failure(e)
  {
    RingparamLayout();
    r := GetStruct(ETHTOOL_GRINGPARAM, RINGPARAM_DESC, devname, k, ring);
    ShippedTablesDecodeChecked(ring[..]);
  }

  /** `set_ringparam`. */
  method SetRingparam(devname: seq<uint8>, dict: Dict, k: Kernel, ring: array<uint8>) returns (status: Outcome)
    requires ring.Length == RINGPARAM_SIZE
    modifies ring
    ensures var e := Encode(RINGPARAM_DESC, dict, old(ring[..]));
      if e.status.Fail? then status == e.status && ring[..] == e.block
      else Exchange(status, ring[..]) == Transact(k, PrepareRequest(ETHTOOL_SRINGPARAM, devname, e.block))
  {
    RingparamLayout();
    status := SetStruct(ETHTOOL_SRINGPARAM, RINGPARAM_DESC, devname, dict, k, ring);
  }

  /** What a set operation sends: for a table whose spans are disjoint, all
      of size 4 and clear of the `cmd` word, a dict holding every table name
      with a u32 value is encoded without error, and the request the kernel
      receives carries the set command and decodes back to that dict
      restricted to the table's names. */
  lemma {:induction false} SetRequestCarriesDict(t: seq<FieldDesc>, cmd: uint32, devname: seq<uint8>, d: Dict, b: seq<uint8>)
    requires |b| >= U32_SIZE && InBounds(t, |b|) && Disjoint(t) && AllSupported(t)
    requires ClearOfCommandWord(t)
    requires forall i :: 0 <= i < |t| ==> t[i].name in d && 0 <= d[t[i].name] < 0x1_0000_0000
    ensures Encode(t, d, b).status == Pass
    ensures var req := PrepareRequest(cmd, devname, Encode(t, d, b).block);
      ReadU32(req.data, 0) == cmd && Decode(t, req.data) == map n | n in Names(t) :: d[n]
  {
    EncodeThenDecode(t, d, b);
    EncodeValues(t, d, b);
    assert FirstUnencodable(t, d) == |t|;
    var out := Encode(t, d, b).block;
    var sent := PrepareRequest(cmd, devname, out).data;
    assert sent == WriteU32(out, 0, cmd);
    forall i | 0 <= i < |t| ensures d[t[i].name] == ReadU32(sent, t[i].offset) {
      ReadAfterDisjointWrite(out, 0, cmd, t[i].offset);
      assert LongToU32(d[t[i].name]) == d[t[i].name];
    }
    DecodeFieldsAgree(t, sent, d);
    DecodeAllSupported(t, sent);
  }

  /** Feeding the dict a coalescing get returned into a coalescing set
      succeeds, and the kernel receives the same field values back. */
  lemma CoalesceGetThenSet(got: seq<uint8>, devname: seq<uint8>, b: seq<uint8>)
    requires |got| == COALESCE_SIZE && |b| == COALESCE_SIZE
    ensures var d := Decode(COALESCE_DESC, got);
      && Encode(COALESCE_DESC, d, b).status == Pass
      && Decode(COALESCE_DESC, PrepareRequest(ETHTOOL_SCOALESCE, devname, Encode(COALESCE_DESC, d, b).block).data) == d
  {
    CoalesceLayout();
    GetThenSet(COALESCE_DESC, ETHTOOL_SCOALESCE, got, devname, b);
  }

  /** The same for ring parameters. */
  lemma RingparamGetThenSet(got: seq<uint8>, devname: seq<uint8>, b: seq<uint8>)
    requires |got| == RINGPARAM_SIZE && |b| == RINGPARAM_SIZE
    ensures var d := Decode(RINGPARAM_DESC, got);
      && Encode(RINGPARAM_DESC, d, b).status == Pass
      && Decode(RINGPARAM_DESC, PrepareRequest(ETHTOOL_SRINGPARAM, devname, Encode(RINGPARAM_DESC, d, b).block).data) == d
  {
    RingparamLayout();
    GetThenSet(RINGPARAM_DESC, ETHTOOL_SRINGPARAM, got, devname, b);
  }

  lemma GetThenSet(t: seq<FieldDesc>, cmd: uint32, got: seq<uint8>, devname: seq<uint8>, b: seq<uint8>)
    requires |b| >= U32_SIZE && InBounds(t, |b|) && InBounds(t, |got|) && Disjoint(t) && AllSupported(t)
    requires ClearOfCommandWord(t)
    ensures var d := Decode(t, got);
      && Encode(t, d, b).status == Pass
      && Decode(t, PrepareRequest(cmd, devname, Encode(t, d, b).block).data) == d
  {
    var d := Decode(t, got);
    DecodeAllSupported(t, got);
    DecodeFieldsKeys(t, got);
    DecodeFieldsRange(t, got);
    assert d.Keys == Names(t);
    forall i | 0 <= i < |t| ensures t[i].name in d && 0 <= d[t[i].name] < 0x1_0000_0000 {
      assert t[i].name in Names(t);
    }
    SetRequestCarriesDict(t, cmd, devname, d, b);
    RestrictToAllKeys(d, Names(t));
  }

  lemma RestrictToAllKeys(d: Dict, keys: set<string>)
    requires d.Keys == keys
    ensures (map n | n in keys :: d[n]) == d
  {
  }
}

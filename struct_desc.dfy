/** The descriptor-driven codec between a fixed-layout ethtool block and a
    Python dict of field name to integer (`struct struct_desc`,
    `__struct_desc_create_dict`, `__struct_desc_from_dict`). */
module StructDesc {
  import opened Bytes
  import opened Errors

  /** One `struct struct_desc` entry: a member's name, byte offset and byte size. */
  datatype FieldDesc = FieldDesc(name: string, offset: uint16, size: uint16)

  /** A Python dict from `str` field names to `int` values. */
  type Dict = map<string, int>

  // ---------------------------------------------------------------------------
  // The two descriptor tables.
  //
  // `member_desc` takes offset and size from `offsetof`/`sizeof` over the
  // kernel's `struct ethtool_coalesce` and `struct ethtool_ringparam`. Both
  // start with a `__u32 cmd` word followed only by `__u32` members, so member
  // number i (counting from 0) sits at offset 4 + 4 * i with size 4. These
  // offsets are pinned here as an assumption about that layout.
  // ---------------------------------------------------------------------------

  const COALESCE_NAMES: seq<string> := [
    "rx_coalesce_usecs", "rx_max_coalesced_frames",
    "rx_coalesce_usecs_irq", "rx_max_coalesced_frames_irq",
    "tx_coalesce_usecs", "tx_max_coalesced_frames",
    "tx_coalesce_usecs_irq", "tx_max_coalesced_frames_irq",
    "stats_block_coalesce_usecs",
    "use_adaptive_rx_coalesce", "use_adaptive_tx_coalesce",
    "pkt_rate_low",
    "rx_coalesce_usecs_low", "rx_max_coalesced_frames_low",
    "tx_coalesce_usecs_low", "tx_max_coalesced_frames_low",
    "pkt_rate_high",
    "rx_coalesce_usecs_high", "rx_max_coalesced_frames_high",
    "tx_coalesce_usecs_high", "tx_max_coalesced_frames_high",
    "rate_sample_interval"
  ]

  const RINGPARAM_NAMES: seq<string> := [
    "rx_max_pending", "rx_mini_max_pending", "rx_jumbo_max_pending", "tx_max_pending",
    "rx_pending", "rx_mini_pending", "rx_jumbo_pending", "tx_pending"
  ]

  /** `member_desc` for the i-th `__u32` member after the `cmd` word. */
  function U32Member(name: string, i: nat): (d: FieldDesc)
    requires i < 0x3FFF
    ensures d.name == name && d.size == U32_SIZE
    ensures d.offset == U32_SIZE * (i + 1) && d.offset >= U32_SIZE
  {
    FieldDesc(name, U32_SIZE + U32_SIZE * i, U32_SIZE)
  }

  /** `ethtool_coalesce_desc`. */
  const COALESCE_DESC: seq<FieldDesc> :=
    seq(|COALESCE_NAMES|, i requires 0 <= i < |COALESCE_NAMES| => U32Member(COALESCE_NAMES[i], i))

  /** `ethtool_ringparam_desc`. */
  const RINGPARAM_DESC: seq<FieldDesc> :=
    seq(|RINGPARAM_NAMES|, i requires 0 <= i < |RINGPARAM_NAMES| => U32Member(RINGPARAM_NAMES[i], i))

  /** `sizeof(struct ethtool_coalesce)` and `sizeof(struct ethtool_ringparam)`. */
  const COALESCE_SIZE: nat := U32_SIZE * (1 + |COALESCE_NAMES|)
  const RINGPARAM_SIZE: nat := U32_SIZE * (1 + |RINGPARAM_NAMES|)

  // ---------------------------------------------------------------------------
  // Table predicates
  // ---------------------------------------------------------------------------

  /** The codec's `switch (d->size)` has a case only for `sizeof(uint32_t)`. */
  predicate Supported(d: FieldDesc) {
    d.size == U32_SIZE
  }

  predicate AllSupported(t: seq<FieldDesc>) {
    forall i :: 0 <= i < |t| ==> Supported(t[i])
  }

  /** Every field's span lies inside a block of `len` bytes. */
  predicate InBounds(t: seq<FieldDesc>, len: nat) {
    forall i :: 0 <= i < |t| ==> t[i].offset + t[i].size <= len
  }

  predicate DistinctNames(t: seq<FieldDesc>) {
    forall i, j :: 0 <= i < j < |t| ==> t[i].name != t[j].name
  }

  /** No two fields' spans share a byte. */
  predicate Disjoint(t: seq<FieldDesc>) {
    forall i, j :: 0 <= i < j < |t| ==>
      t[i].offset + t[i].size <= t[j].offset || t[j].offset + t[j].size <= t[i].offset
  }

  /** Byte `p` lies in the span of the field `d`. */
  predicate InSpan(d: FieldDesc, p: int) {
    d.offset <= p < d.offset + d.size
  }

  /** No field overlaps the `cmd` word at offset 0, which the dispatcher stamps. */
  predicate ClearOfCommandWord(t: seq<FieldDesc>) {
    forall i :: 0 <= i < |t| ==> t[i].offset >= U32_SIZE
  }

  function Names(t: seq<FieldDesc>): set<string> {
    set i | 0 <= i < |t| :: t[i].name
  }

  /** The names of a table are those of its front and its last entry's. */
  lemma NamesSnoc(t: seq<FieldDesc>)
    requires t != []
    ensures Names(t) == Names(t[..|t| - 1]) + {t[|t| - 1].name}
  {
    var front := t[..|t| - 1];
    forall n | n in Names(t) ensures n in Names(front) + {t[|t| - 1].name} {
      var i :| 0 <= i < |t| && t[i].name == n;
      if i < |t| - 1 { assert front[i].name == n; }
    }
    forall n | n in Names(front) ensures n in Names(t) {
      var i :| 0 <= i < |front| && front[i].name == n;
      assert t[i].name == n;
    }
  }

  // ---------------------------------------------------------------------------
  // Decoding: __struct_desc_create_dict
  // ---------------------------------------------------------------------------

  /** The index of the first entry whose size the codec does not handle, or
      `|t|` when every entry is handled. */
  function FirstUnsupported(t: seq<FieldDesc>): (k: nat)
    ensures k <= |t|
    ensures forall i :: 0 <= i < k ==> Supported(t[i])
    ensures k < |t| ==> !Supported(t[k])
  {
    if t == [] || !Supported(t[0]) then 0 else 1 + FirstUnsupported(t[1..])
  }

  /** The dict after `PyDict_SetItemString` for every entry of `t` in order;
      a later entry with the same name replaces an earlier one. */
  function DecodeFields(t: seq<FieldDesc>, b: seq<uint8>): (m: Dict)
    requires AllSupported(t) && InBounds(t, |b|)
    ensures t != [] ==> t[|t| - 1].name in m && m[t[|t| - 1].name] == ReadU32(b, t[|t| - 1].offset)
    decreases |t|
  {
    if t == [] then map[]
    else
      var last := t[|t| - 1];
      DecodeFields(t[..|t| - 1], b)[last.name := ReadU32(b, last.offset)]
  }

  /** The dict `__struct_desc_create_dict` returns. At the first entry whose
      size is not 4 the loop jumps to `free_dict`, which jumps straight back
      to `out`: the dict filled so far is returned, not NULL. */
  function Decode(t: seq<FieldDesc>, b: seq<uint8>): (m: Dict)
    requires InBounds(t, |b|)
    ensures m.Keys == Names(t[..FirstUnsupported(t)])
    ensures forall n :: n in m ==> 0 <= m[n] < 0x1_0000_0000
  {
    var k := FirstUnsupported(t);
    DecodeFieldsKeys(t[..k], b);
    DecodeFieldsRange(t[..k], b);
    DecodeFields(t[..k], b)
  }

  /** When every size is handled, decoding reads every entry. */
  lemma DecodeAllSupported(t: seq<FieldDesc>, b: seq<uint8>)
    requires AllSupported(t) && InBounds(t, |b|)
    ensures Decode(t, b) == DecodeFields(t, b)
  {
    assert FirstUnsupported(t) == |t|;
    assert t[..|t|] == t;
  }

  lemma {:induction false} DecodeFieldsKeys(t: seq<FieldDesc>, b: seq<uint8>)
    requires AllSupported(t) && InBounds(t, |b|)
    ensures DecodeFields(t, b).Keys == Names(t)
    decreases |t|
  {
    if t != [] {
      var front := t[..|t| - 1];
      DecodeFieldsKeys(front, b);
      NamesSnoc(t);
    }
  }

  lemma {:induction false} DecodeFieldsRange(t: seq<FieldDesc>, b: seq<uint8>)
    requires AllSupported(t) && InBounds(t, |b|)
    ensures forall n :: n in DecodeFields(t, b) ==> 0 <= DecodeFields(t, b)[n] < 0x1_0000_0000
    decreases |t|
  {
    if t != [] {
      DecodeFieldsRange(t[..|t| - 1], b);
    }
  }

  /** If every entry's span holds the value `d` gives its name, decoding the
      entries yields `d` restricted to their names. Names may repeat. */
  lemma {:induction false} DecodeFieldsAgree(t: seq<FieldDesc>, b: seq<uint8>, d: Dict)
    requires AllSupported(t) && InBounds(t, |b|)
    requires forall i :: 0 <= i < |t| ==> t[i].name in d && d[t[i].name] == ReadU32(b, t[i].offset)
    ensures DecodeFields(t, b) == map n | n in Names(t) :: d[n]
    decreases |t|
  {
    if t == [] {
      assert Names(t) == {};
    } else {
      var front := t[..|t| - 1];
      var last := t[|t| - 1];
      DecodeFieldsAgree(front, b, d);
      NamesSnoc(t);
      assert Names(front) <= d.Keys by {
        forall n | n in Names(front) ensures n in d {
          var i :| 0 <= i < |front| && front[i].name == n;
          assert front[i] == t[i];
        }
      }
      RestrictSnoc(d, Names(front), last.name);
    }
  }

  /** Adding one key to a restriction of `d` restricts `d` to one more key. */
  lemma RestrictSnoc(d: Dict, keys: set<string>, x: string)
    requires keys <= d.Keys && x in d
    ensures (map n | n in keys :: d[n])[x := d[x]] == map n | n in keys + {x} :: d[n]
  {
  }

  /** With distinct names, the entry named `t[i].name` maps to the u32 read at `t[i].offset`. */
  lemma DecodeFieldsAt(t: seq<FieldDesc>, b: seq<uint8>, i: nat)
    requires AllSupported(t) && InBounds(t, |b|) && DistinctNames(t)
    requires i < |t|
    ensures t[i].name in DecodeFields(t, b)
    ensures DecodeFields(t, b)[t[i].name] == ReadU32(b, t[i].offset)
  {
    var d := map n | n in Names(t) :: var j :| 0 <= j < |t| && t[j].name == n; ReadU32(b, t[j].offset);
    forall j | 0 <= j < |t| ensures t[j].name in d && d[t[j].name] == ReadU32(b, t[j].offset) {
      assert t[j].name in Names(t);
    }
    DecodeFieldsAgree(t, b, d);
    assert t[i].name in Names(t);
  }

  /** Decoding with a table of distinct names maps each name of an entry
      before the first unsupported one to the u32 stored at that entry's
      offset, and nothing else is in the dict. */
  lemma DecodeAt(t: seq<FieldDesc>, b: seq<uint8>, i: nat)
    requires InBounds(t, |b|) && DistinctNames(t)
    requires i < FirstUnsupported(t)
    ensures t[i].name in Decode(t, b)
    ensures Decode(t, b)[t[i].name] == ReadU32(b, t[i].offset)
  {
    var k := FirstUnsupported(t);
    assert t[..k][i] == t[i];
    DecodeFieldsAt(t[..k], b, i);
  }

  lemma {:induction false} DistinctNamesCount(t: seq<FieldDesc>)
    requires DistinctNames(t)
    ensures |Names(t)| == |t|
    decreases |t|
  {
    if t != [] {
      var front := t[..|t| - 1];
      DistinctNamesCount(front);
      NamesSnoc(t);
      assert t[|t| - 1].name !in Names(front);
    }
  }

  /** Tables with the same entries have the same names. */
  lemma SameEntriesSameNames(t1: seq<FieldDesc>, t2: seq<FieldDesc>)
    requires forall e :: e in t1 <==> e in t2
    ensures Names(t1) == Names(t2)
  {
    forall n | n in Names(t1) ensures n in Names(t2) {
      var i :| 0 <= i < |t1| && t1[i].name == n;
      assert t1[i] in t2;
    }
    forall n | n in Names(t2) ensures n in Names(t1) {
      var i :| 0 <= i < |t2| && t2[i].name == n;
      assert t2[i] in t1;
    }
  }

  /** Decoding does not depend on the order of a table's entries, as long as
      names are distinct and every size is handled. */
  lemma DecodeOrderIndependent(t1: seq<FieldDesc>, t2: seq<FieldDesc>, b: seq<uint8>)
    requires AllSupported(t1) && InBounds(t1, |b|) && DistinctNames(t1)
    requires AllSupported(t2) && InBounds(t2, |b|) && DistinctNames(t2)
    requires forall e :: e in t1 <==> e in t2
    ensures Decode(t1, b) == Decode(t2, b)
  {
    assert t1[..|t1|] == t1 && t2[..|t2|] == t2;
    var m1, m2 := Decode(t1, b), Decode(t2, b);
    SameEntriesSameNames(t1, t2);
    assert m1.Keys == m2.Keys;
    forall n | n in m1 ensures m1[n] == m2[n] {
      var i :| 0 <= i < |t1| && t1[i].name == n;
      assert t1[i] in t2;
      var j :| 0 <= j < |t2| && t2[j] == t1[i];
      DecodeAt(t1, b, i);
      DecodeAt(t2, b, j);
    }
  }

  // ---------------------------------------------------------------------------
  // Encoding: __struct_desc_from_dict
  // ---------------------------------------------------------------------------

  /** The status `__struct_desc_from_dict` returns together with the
      caller's block as it stands afterwards. */
  datatype Encoded = Encoded(status: Outcome, block: seq<uint8>)

  /** `__struct_desc_from_dict` run on the block `b`: entries are processed in
      table order, each handled one stored into its span with `(uint32_t)
      PyLong_AsLong(...)`; the first entry whose size is not 4, or whose name is
      absent from the dict, stops the loop with an error, leaving the stores
      already made in place. */
  function Encode(t: seq<FieldDesc>, d: Dict, b: seq<uint8>): (r: Encoded)
    requires InBounds(t, |b|)
    ensures |r.block| == |b|
    decreases |t|
  {
    if t == [] then Encoded(Pass, b)
    else if !Supported(t[0]) then Encoded(Fail(InvalidTypeSize(t[0].size, t[0].name)), b)
    else if t[0].name !in d then Encoded(Fail(MissingField(t[0].name)), b)
    else Encode(t[1..], d, WriteU32(b, t[0].offset, LongToU32(d[t[0].name])))
  }

  /** The index of the first entry encoding cannot store, or `|t|`. */
  function FirstUnencodable(t: seq<FieldDesc>, d: Dict): (k: nat)
    ensures k <= |t|
    ensures forall i :: 0 <= i < k ==> Supported(t[i]) && t[i].name in d
    ensures k < |t| ==> !Supported(t[k]) || t[k].name !in d
  {
    if t == [] || !Supported(t[0]) || t[0].name !in d then 0
    else 1 + FirstUnencodable(t[1..], d)
  }

  /** Encoding succeeds exactly when every entry has size 4 and a dict entry;
      otherwise it reports the first entry that has not, with "Invalid type
      size" when its size is wrong (the dict is not consulted) and "Missing dict
      entry" when its name is absent. */
  lemma {:induction false} EncodeStatus(t: seq<FieldDesc>, d: Dict, b: seq<uint8>)
    requires InBounds(t, |b|)
    ensures var k := FirstUnencodable(t, d);
      Encode(t, d, b).status ==
        if k == |t| then Pass
        else if !Supported(t[k]) then Fail(InvalidTypeSize(t[k].size, t[k].name))
        else Fail(MissingField(t[k].name))
    decreases |t|
  {
    if t != [] && Supported(t[0]) && t[0].name in d {
      var b' := WriteU32(b, t[0].offset, LongToU32(d[t[0].name]));
      assert InBounds(t[1..], |b'|);
      EncodeStatus(t[1..], d, b');
    }
  }

  /** Encoding fails with `MissingField` exactly when some entry's name is
      absent from the dict and every entry before it has size 4 and a dict entry. */
  lemma EncodeMissingFieldIff(t: seq<FieldDesc>, d: Dict, b: seq<uint8>, name: string)
    requires InBounds(t, |b|) && AllSupported(t)
    ensures Encode(t, d, b).status == Fail(MissingField(name)) <==>
      exists i :: 0 <= i < |t| && t[i].name == name && name !in d &&
        forall j :: 0 <= j < i ==> t[j].name in d
  {
    EncodeStatus(t, d, b);
    var k := FirstUnencodable(t, d);
    if exists i :: 0 <= i < |t| && t[i].name == name && name !in d &&
        forall j :: 0 <= j < i ==> t[j].name in d
    {
      var i :| 0 <= i < |t| && t[i].name == name && name !in d &&
        forall j :: 0 <= j < i ==> t[j].name in d;
      assert k == i;
    }
  }

  /** Encoding touches no byte outside the spans of the entries it stored:
      every such byte, the `cmd` word included, is the byte the caller passed in
      (the block is not cleared first). */
  lemma {:induction false} EncodeFrame(t: seq<FieldDesc>, d: Dict, b: seq<uint8>)
    requires InBounds(t, |b|)
    ensures var k := FirstUnencodable(t, d);
      forall p :: 0 <= p < |b| && (forall i :: 0 <= i < k ==> !InSpan(t[i], p)) ==>
        Encode(t, d, b).block[p] == b[p]
    decreases |t|
  {
    var k := FirstUnencodable(t, d);
    if t != [] && Supported(t[0]) && t[0].name in d {
      var b' := WriteU32(b, t[0].offset, LongToU32(d[t[0].name]));
      var rest := t[1..];
      assert InBounds(rest, |b'|);
      EncodeFrame(rest, d, b');
      WriteThenRead(b, t[0].offset, LongToU32(d[t[0].name]));
      forall p | 0 <= p < |b| && (forall i :: 0 <= i < k ==> !InSpan(t[i], p))
        ensures Encode(t, d, b).block[p] == b[p]
      {
        assert !InSpan(t[0], p);
        forall i | 0 <= i < k - 1 ensures !InSpan(rest[i], p) {
          assert rest[i] == t[i + 1];
        }
      }
    }
  }

  lemma DisjointTail(t: seq<FieldDesc>)
    requires t != [] && Disjoint(t)
    ensures Disjoint(t[1..])
  {
    var rest := t[1..];
    forall i, j | 0 <= i < j < |rest| ensures
      rest[i].offset + rest[i].size <= rest[j].offset || rest[j].offset + rest[j].size <= rest[i].offset
    {
      assert rest[i] == t[i + 1] && rest[j] == t[j + 1];
    }
  }

  /** A u32 whose span no entry of the table overlaps reads the same after encoding. */
  lemma EncodeKeepsU32(t: seq<FieldDesc>, d: Dict, b: seq<uint8>, off: nat)
    requires InBounds(t, |b|) && off + U32_SIZE <= |b|
    requires forall i :: 0 <= i < |t| ==> t[i].offset + t[i].size <= off || off + U32_SIZE <= t[i].offset
    ensures ReadU32(Encode(t, d, b).block, off) == ReadU32(b, off)
  {
    EncodeFrame(t, d, b);
    var out := Encode(t, d, b).block;
    forall p | off <= p < off + U32_SIZE ensures out[p] == b[p] {
      assert forall i :: 0 <= i < |t| ==> !InSpan(t[i], p);
    }
    assert out[off..off + U32_SIZE] == b[off..off + U32_SIZE];
  }

  /** With disjoint spans, the first entry's store survives the later ones. */
  lemma EncodeFirstValue(t: seq<FieldDesc>, d: Dict, b: seq<uint8>)
    requires InBounds(t, |b|) && Disjoint(t)
    requires t != [] && Supported(t[0]) && t[0].name in d
    ensures ReadU32(Encode(t, d, b).block, t[0].offset) == LongToU32(d[t[0].name])
  {
    var off := t[0].offset;
    var v := LongToU32(d[t[0].name]);
    var b' := WriteU32(b, off, v);
    var rest := t[1..];
    assert InBounds(rest, |b'|);
    forall i | 0 <= i < |rest| ensures rest[i].offset + rest[i].size <= off || off + U32_SIZE <= rest[i].offset {
      assert rest[i] == t[i + 1];
    }
    EncodeKeepsU32(rest, d, b', off);
    WriteThenRead(b, off, v);
  }

  /** With disjoint spans, each entry before the first failing one holds its
      dict value cut to 32 bits after encoding; on failure these stores remain,
      so the operation is not atomic. */
  lemma {:induction false} EncodeValues(t: seq<FieldDesc>, d: Dict, b: seq<uint8>)
    requires InBounds(t, |b|) && Disjoint(t)
    ensures var k := FirstUnencodable(t, d);
      forall i :: 0 <= i < k ==> ReadU32(Encode(t, d, b).block, t[i].offset) == LongToU32(d[t[i].name])
    decreases |t|
  {
    var k := FirstUnencodable(t, d);
    if t != [] && Supported(t[0]) && t[0].name in d {
      var b' := WriteU32(b, t[0].offset, LongToU32(d[t[0].name]));
      var rest := t[1..];
      assert InBounds(rest, |b'|);
      DisjointTail(t);
      EncodeValues(rest, d, b');
      EncodeFirstValue(t, d, b);
      var out := Encode(t, d, b).block;
      assert out == Encode(rest, d, b').block;
      forall i | 0 < i < k ensures ReadU32(out, t[i].offset) == LongToU32(d[t[i].name]) {
        assert rest[i - 1] == t[i];
      }
    }
  }

  /** Round trip from a dict: if every table name is in the dict with a value
      in [0, 2^32), spans are disjoint and every size is 4, encoding succeeds
      and decoding the block gives back the dict restricted to the table's names. */
  lemma EncodeThenDecode(t: seq<FieldDesc>, d: Dict, b: seq<uint8>)
    requires InBounds(t, |b|) && Disjoint(t) && AllSupported(t)
    requires forall i :: 0 <= i < |t| ==> t[i].name in d && 0 <= d[t[i].name] < 0x1_0000_0000
    ensures Encode(t, d, b).status == Pass
    ensures Decode(t, Encode(t, d, b).block) == map n | n in Names(t) :: d[n]
  {
    assert FirstUnencodable(t, d) == |t|;
    EncodeStatus(t, d, b);
    EncodeValues(t, d, b);
    var out := Encode(t, d, b).block;
    forall i | 0 <= i < |t| ensures t[i].name in d && d[t[i].name] == ReadU32(out, t[i].offset) {
      assert LongToU32(d[t[i].name]) == d[t[i].name];
    }
    DecodeFieldsAgree(t, out, d);
    DecodeAllSupported(t, out);
  }

  /** Storing into every span the value already there changes nothing. */
  lemma {:induction false} EncodeOwnValues(t: seq<FieldDesc>, d: Dict, b: seq<uint8>)
    requires InBounds(t, |b|) && AllSupported(t)
    requires forall i :: 0 <= i < |t| ==> t[i].name in d && d[t[i].name] == ReadU32(b, t[i].offset)
    ensures Encode(t, d, b) == Encoded(Pass, b)
    decreases |t|
  {
    if t != [] {
      var rest := t[1..];
      assert Supported(t[0]) && t[0].name in d;
      assert LongToU32(d[t[0].name]) == ReadU32(b, t[0].offset);
      WriteOwnValue(b, t[0].offset);
      assert Encode(t, d, b) == Encode(rest, d, b);
      forall i | 0 <= i < |rest|
        ensures Supported(rest[i]) && rest[i].offset + rest[i].size <= |b|
        ensures rest[i].name in d && d[rest[i].name] == ReadU32(b, rest[i].offset)
      {
        assert rest[i] == t[i + 1];
      }
      EncodeOwnValues(rest, d, b);
    }
  }

  /** Round trip from a block: with distinct names and every size 4, encoding
      the decoded dict back into the same block succeeds and reproduces it byte
      for byte. */
  lemma DecodeThenEncode(t: seq<FieldDesc>, b: seq<uint8>)
    requires InBounds(t, |b|) && AllSupported(t) && DistinctNames(t)
    ensures Encode(t, Decode(t, b), b) == Encoded(Pass, b)
  {
    assert t[..|t|] == t;
    forall i | 0 <= i < |t| ensures t[i].name in Decode(t, b) && Decode(t, b)[t[i].name] == ReadU32(b, t[i].offset) {
      DecodeAt(t, b, i);
    }
    EncodeOwnValues(t, Decode(t, b), b);
  }

  // ---------------------------------------------------------------------------
  // Finding: the unreachable `dict = NULL`
  // ---------------------------------------------------------------------------

  /** What `__struct_desc_create_dict` evidently means to do on an entry whose
      size it cannot decode: fail instead of returning a partial dict. */
  function DecodeChecked(t: seq<FieldDesc>, b: seq<uint8>): (r: Result<Dict>)
    requires InBounds(t, |b|)
    ensures r.Success? <==> AllSupported(t)
    ensures r.Success? ==> r.value.Keys == Names(t)
    ensures r.Failure? ==> exists i :: 0 <= i < |t| && r.error == InvalidTypeSize(t[i].size, t[i].name) && !Supported(t[i])
  {
    var k := FirstUnsupported(t);
    if k == |t| then
      assert t[..k] == t;
      Success(Decode(t, b))
    else
      Failure(InvalidTypeSize(t[k].size, t[k].name))
  }

  /** As written, a table with an entry of size 2 after one of size 4 decodes
      to a one-key dict instead of failing. */
  lemma DecodeReturnsPartialDict(b: seq<uint8>)
    requires |b| == 12
    ensures var t := [FieldDesc("a", 4, 4), FieldDesc("b", 8, 2)];
      && Decode(t, b) == map["a" := ReadU32(b, 4)]
      && DecodeChecked(t, b).Failure?
  {
    var t := [FieldDesc("a", 4, 4), FieldDesc("b", 8, 2)];
    assert FirstUnsupported(t[1..]) == 0;
    assert t[..1] == [FieldDesc("a", 4, 4)];
    assert [FieldDesc("a", 4, 4)][..0] == [];
  }

  /** On the shipped tables, which only hold `__u32` members, the code as
      written and the corrected decoding agree. */
  lemma ShippedTablesDecodeChecked(b: seq<uint8>)
    ensures |b| >= COALESCE_SIZE ==>
      DecodeChecked(COALESCE_DESC, b) == Success(Decode(COALESCE_DESC, b))
    ensures |b| >= RINGPARAM_SIZE ==>
      DecodeChecked(RINGPARAM_DESC, b) == Success(Decode(RINGPARAM_DESC, b))
  {
    CoalesceLayout();
    RingparamLayout();
  }

  // ---------------------------------------------------------------------------
  // Layout facts about the shipped tables
  // ---------------------------------------------------------------------------

  /** A table built by `U32Member` has every size 4, disjoint spans that leave
      the `cmd` word alone, and fits a block of `4 * (1 + |names|)` bytes. */
  lemma U32MembersLayout(names: seq<string>, t: seq<FieldDesc>)
    requires |names| < 0x3FFF && |t| == |names|
    requires forall i :: 0 <= i < |t| ==> t[i] == U32Member(names[i], i)
    ensures AllSupported(t) && Disjoint(t)
    ensures InBounds(t, U32_SIZE * (1 + |names|))
    ensures ClearOfCommandWord(t)
  {
  }

  /** The 22 coalescing member names are pairwise different. */
  lemma CoalesceNamesDistinct()
    ensures forall i, j :: 0 <= i < j < |COALESCE_NAMES| ==> COALESCE_NAMES[i] != COALESCE_NAMES[j]
  {
  }

  lemma CoalesceLayout()
    ensures |COALESCE_DESC| == 22 && COALESCE_SIZE == 92
    ensures AllSupported(COALESCE_DESC) && Disjoint(COALESCE_DESC) && DistinctNames(COALESCE_DESC)
    ensures InBounds(COALESCE_DESC, COALESCE_SIZE)
    ensures ClearOfCommandWord(COALESCE_DESC)
  {
    U32MembersLayout(COALESCE_NAMES, COALESCE_DESC);
    CoalesceNamesDistinct();
    forall i, j | 0 <= i < j < |COALESCE_DESC| ensures COALESCE_DESC[i].name != COALESCE_DESC[j].name {
      assert COALESCE_DESC[i].name == COALESCE_NAMES[i] && COALESCE_DESC[j].name == COALESCE_NAMES[j];
    }
  }

  lemma RingparamLayout()
    ensures |RINGPARAM_DESC| == 8 && RINGPARAM_SIZE == 36
    ensures AllSupported(RINGPARAM_DESC) && Disjoint(RINGPARAM_DESC) && DistinctNames(RINGPARAM_DESC)
    ensures InBounds(RINGPARAM_DESC, RINGPARAM_SIZE)
    ensures ClearOfCommandWord(RINGPARAM_DESC)
  {
    U32MembersLayout(RINGPARAM_NAMES, RINGPARAM_DESC);
    assert DistinctNames(RINGPARAM_DESC) by {
      forall i, j | 0 <= i < j < |RINGPARAM_DESC| ensures RINGPARAM_DESC[i].name != RINGPARAM_DESC[j].name {
        assert RINGPARAM_DESC[i].name == RINGPARAM_NAMES[i] && RINGPARAM_DESC[j].name == RINGPARAM_NAMES[j];
      }
    }
  }

  /** Decoding a coalescing block gives one key per entry: 22 of them. */
  lemma CoalesceDecodeHas22Keys(b: seq<uint8>)
    requires |b| >= COALESCE_SIZE
    ensures |Decode(COALESCE_DESC, b).Keys| == 22
  {
    CoalesceLayout();
    assert COALESCE_DESC[..|COALESCE_DESC|] == COALESCE_DESC;
    DistinctNamesCount(COALESCE_DESC);
  }

  /** Decoding a ring-parameter block gives one key per entry: 8 of them. */
  lemma RingparamDecodeHas8Keys(b: seq<uint8>)
    requires |b| >= RINGPARAM_SIZE
    ensures |Decode(RINGPARAM_DESC, b).Keys| == 8
  {
    RingparamLayout();
    assert RINGPARAM_DESC[..|RINGPARAM_DESC|] == RINGPARAM_DESC;
    DistinctNamesCount(RINGPARAM_DESC);
  }

  /** A dict lacking only the last coalescing field makes encoding fail, yet
      the first field has already been stored into the block. */
  lemma CoalesceEncodeNotAtomic(d: Dict, b: seq<uint8>)
    requires |b| == COALESCE_SIZE
    requires forall i :: 0 <= i < 21 ==> COALESCE_NAMES[i] in d
    requires "rate_sample_interval" !in d
    ensures Encode(COALESCE_DESC, d, b).status == Fail(MissingField("rate_sample_interval"))
    ensures ReadU32(Encode(COALESCE_DESC, d, b).block, 4) == LongToU32(d["rx_coalesce_usecs"])
  {
    CoalesceLayout();
    forall i | 0 <= i < 21 ensures COALESCE_DESC[i].name in d {
      assert COALESCE_DESC[i].name == COALESCE_NAMES[i];
    }
    assert COALESCE_DESC[21].name == "rate_sample_interval";
    assert FirstUnencodable(COALESCE_DESC, d) == 21;
    EncodeStatus(COALESCE_DESC, d, b);
    EncodeValues(COALESCE_DESC, d, b);
    assert COALESCE_DESC[0] == FieldDesc("rx_coalesce_usecs", 4, 4);
  }

  // ---------------------------------------------------------------------------
  // The C loops
  // ---------------------------------------------------------------------------

  /** `__struct_desc_create_dict`: fill a dict from the block `values`. */
  method CreateDict(table: seq<FieldDesc>, values: array<uint8>) returns (dict: Dict)
    requires InBounds(table, values.Length)
    ensures dict == Decode(table, values[..])
  {
    ghost var vals := values[..];
    ghost var k := FirstUnsupported(table);
    dict := map[];
    var i := 0;
    while i < |table|
      invariant i <= k
      invariant dict == DecodeFields(table[..i], vals)
    {
      var d := table[i];
      if d.size != U32_SIZE {
        // objval stays NULL: goto free_dict, which goes to out.
        assert i == k;
        break;
      }
      assert table[..i + 1][..i] == table[..i];
      assert table[..i + 1][i] == d;
      dict := dict[d.name := ReadU32(values[..], d.offset)];
      i := i + 1;
    }
    assert table[..i] == table[..k];
  }

  /** `*(uint32_t *)(to + off) = v`. */
  method StoreU32(to: array<uint8>, off: nat, v: uint32)
    requires off + U32_SIZE <= to.Length
    modifies to
    ensures to[..] == WriteU32(old(to[..]), off, v)
  {
    var bs := U32ToBytes(v);
    to[off], to[off + 1], to[off + 2], to[off + 3] := bs[0], bs[1], bs[2], bs[3];
  }

  /** `__struct_desc_from_dict`: store the dict's values into the caller's
      block `to`, in place, without clearing it first. */
  method FromDict(table: seq<FieldDesc>, to: array<uint8>, dict: Dict) returns (status: Outcome)
    requires InBounds(table, to.Length)
    modifies to
    ensures Encoded(status, to[..]) == Encode(table, dict, old(to[..]))
  {
    var i := 0;
    while i < |table|
      invariant i <= |table|
      invariant Encode(table, dict, old(to[..])) == Encode(table[i..], dict, to[..])
    {
      var d := table[i];
      assert table[i..][0] == d && table[i..][1..] == table[i + 1..];
      if d.size == U32_SIZE {
        if d.name !in dict {
          return Fail(MissingField(d.name));
        }
        StoreU32(to, d.offset, LongToU32(dict[d.name]));
      } else {
        return Fail(InvalidTypeSize(d.size, d.name));
      }
      i := i + 1;
    }
    return Pass;
  }
}

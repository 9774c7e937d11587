/** The device enumeration front door: the `/proc/net/dev` reader
    (`get_devices`), the up-interface list (`get_active_devices`) and the
    device-selector normalisation of `get_interfaces_info`. File and address
    list reads are given as inputs. */
module Enumeration {
  import opened Errors

  // ---------------------------------------------------------------------------
  // get_devices
  // ---------------------------------------------------------------------------

  /** `/proc/net/dev` as `get_devices` reads it: either `fopen` fails, or the
      file yields these lines (each as `fgets` returns it, newline included)
      and `errno` holds `eofErrno` when a read finally comes back empty. */
  datatype ProcNetDev = CannotOpen(errno: int) | Lines(lines: seq<string>, eofErrno: int)

  /** The text before the first ':' of the line, where `*end = 0` is written;
      a NUL ends the C string first, and a line with neither keeps all of it. */
  function CutAtColon(line: string): (s: string)
    ensures s <= line
    ensures ':' !in s && '\0' !in s
    ensures |s| < |line| ==> line[|s|] == ':' || line[|s|] == '\0'
  {
    if line == [] || line[0] == ':' || line[0] == '\0' then []
    else [line[0]] + CutAtColon(line[1..])
  }

  /** How far `while (*name == ' ') name++` advances: only spaces are
      skipped, not tabs. */
  function LeadingSpaces(s: string): (k: nat)
    ensures k <= |s|
    ensures forall i :: 0 <= i < k ==> s[i] == ' '
    ensures k < |s| ==> s[k] != ' '
  {
    if s != [] && s[0] == ' ' then 1 + LeadingSpaces(s[1..]) else 0
  }

  /** The device name `get_devices` takes from one line. */
  function DeviceName(line: string): (name: string)
    ensures ':' !in name && '\0' !in name
    ensures name == [] || name[0] != ' '
  {
    var cut := CutAtColon(line);
    var k := LeadingSpaces(cut);
    assert forall c :: c in cut[k..] ==> c in cut;
    cut[k..]
  }

  /** The list `get_devices` returns: the two header lines are skipped, and
      failing to read the second is an OSError; every later line gives one
      name, in file order. */
  function Devices(f: ProcNetDev): (r: Result<seq<string>>)
    ensures r.Failure? <==> f.CannotOpen? || |f.lines| < 2
    ensures r.Failure? ==> r.error.OSError?
    ensures r.Success? ==> |r.value| == |f.lines| - 2
  {
    match f
    case CannotOpen(e) => Failure(OSError(e))
    case Lines(lines, e) =>
      if |lines| < 2 then Failure(OSError(e))
      else Success(DeviceNames(lines[2..]))
  }

  /** The name of every line, in order. */
  function DeviceNames(lines: seq<string>): (names: seq<string>)
    ensures |names| == |lines|
  {
    if lines == [] then []
    else DeviceNames(lines[..|lines| - 1]) + [DeviceName(lines[|lines| - 1])]
  }

  /** Line `i` of the registry body gives name `i` of the list. */
  lemma {:induction false} DeviceNamesAt(lines: seq<string>, i: nat)
    requires i < |lines|
    ensures DeviceNames(lines)[i] == DeviceName(lines[i])
    decreases |lines|
  {
    if i < |lines| - 1 {
      DeviceNamesAt(lines[..|lines| - 1], i);
    }
  }

  /** A registry line as the kernel writes it: the name right-aligned with
      spaces, a colon, then the counters. */
  function RegistryLine(indent: nat, name: string, counters: string): string {
    seq(indent, _ => ' ') + name + ":" + counters
  }

  /** The colon cut stops at the first colon of a colon-free prefix. */
  lemma {:induction false} CutAtColonPrefix(x: string, rest: string)
    requires ':' !in x && '\0' !in x
    ensures CutAtColon(x + ":" + rest) == x
    decreases |x|
  {
    if x != [] {
      assert (x + ":" + rest)[1..] == x[1..] + ":" + rest;
      CutAtColonPrefix(x[1..], rest);
    }
  }


  /** Parsing gives back the name a registry line was written from. */
  lemma DeviceNameOfRegistryLine(indent: nat, name: string, counters: string)
    requires ':' !in name && '\0' !in name
    requires name == [] || name[0] != ' '
    ensures DeviceName(RegistryLine(indent, name, counters)) == name
  {
    var pad := seq(indent, _ => ' ');
    assert RegistryLine(indent, name, counters) == (pad + name) + ":" + counters;
    assert forall i :: 0 <= i < |pad + name| ==> (pad + name)[i] != ':' && (pad + name)[i] != '\0';
    CutAtColonPrefix(pad + name, counters);
    assert forall i :: 0 <= i < indent ==> (pad + name)[i] == ' ';
    assert |name| > 0 ==> (pad + name)[indent] == name[0];
    assert LeadingSpaces(pad + name) == indent;
    assert (pad + name)[indent..] == name;
  }

  /** One line of the `get_devices` loop: `end` walks to the colon, `name`
      walks past the leading spaces; the name is the text between them. */
  method LineName(line: string) returns (name: string)
    ensures name == DeviceName(line)
  {
    var end := 0;
    while end < |line| && line[end] != '\0' && line[end] != ':'
      invariant end <= |line|
      invariant forall i :: 0 <= i < end ==> line[i] != ':' && line[i] != '\0'
    {
      end := end + 1;
    }
    ghost var cut := CutAtColon(line);
    assert cut == line[..end];
    var start := 0;
    while start < end && line[start] == ' '
      invariant start <= end
      invariant forall i :: 0 <= i < start ==> line[i] == ' '
    {
      start := start + 1;
    }
    assert LeadingSpaces(cut) == start;
    name := line[start..end];
  }

  /** `get_devices`. */
  method GetDevices(f: ProcNetDev) returns (r: Result<seq<string>>)
    ensures r == Devices(f)
  {
    match f {
      case CannotOpen(e) =>
        return Failure(OSError(e));
      case Lines(lines, e) =>
        if |lines| < 2 {
          return Failure(OSError(e));
        }
        var list: seq<string> := [];
        var i := 2;
        while i < |lines|
          invariant 2 <= i <= |lines|
          invariant list == DeviceNames(lines[2..i])
        {
          var name := LineName(lines[i]);
          assert lines[2..i + 1][..i - 2] == lines[2..i];
          list := list + [name];
          i := i + 1;
        }
        assert lines[2..i] == lines[2..];
        return Success(list);
    }
  }

  // ---------------------------------------------------------------------------
  // get_active_devices
  // ---------------------------------------------------------------------------

  /** One `struct ifaddrs` entry: the interface name and its flags. */
  datatype IfAddr = IfAddr(name: string, flags: bv32)

  /** The outcome of `getifaddrs`. */
  datatype IfAddrs = IfAddrsFailed(errno: int) | IfAddrList(entries: seq<IfAddr>)

  const IFF_UP: bv32 := 0x1

  predicate IsUp(a: IfAddr) {
    a.flags & IFF_UP != 0
  }

  /** The list `get_active_devices` builds from the address entries: a name is
      appended when it is not already in the list and its entry is up. */
  function ActiveNames(entries: seq<IfAddr>): (names: seq<string>)
    ensures |names| <= |entries|
    decreases |entries|
  {
    if entries == [] then []
    else
      var before := ActiveNames(entries[..|entries| - 1]);
      var a := entries[|entries| - 1];
      if a.name !in before && IsUp(a) then before + [a.name] else before
  }

  predicate NoDuplicates(s: seq<string>) {
    forall i, j :: 0 <= i < j < |s| ==> s[i] != s[j]
  }

  /** Some entry for `name` is up. */
  predicate HasUpEntry(entries: seq<IfAddr>, name: string) {
    exists i :: 0 <= i < |entries| && entries[i].name == name && IsUp(entries[i])
  }

  /** The index of the first up entry named `name`, or `|entries|`. */
  function FirstUp(entries: seq<IfAddr>, name: string): (k: nat)
    ensures k <= |entries|
    ensures forall i :: 0 <= i < k ==> !(entries[i].name == name && IsUp(entries[i]))
    ensures k < |entries| ==> entries[k].name == name && IsUp(entries[k])
  {
    if entries == [] then 0
    else if entries[0].name == name && IsUp(entries[0]) then 0
    else 1 + FirstUp(entries[1..], name)
  }

  /** An up entry for `n` is in the last entry or in the ones before it. */
  lemma HasUpEntrySnoc(entries: seq<IfAddr>, n: string)
    requires entries != []
    ensures var a := entries[|entries| - 1];
      HasUpEntry(entries, n) <==> HasUpEntry(entries[..|entries| - 1], n) || (a.name == n && IsUp(a))
  {
    var front := entries[..|entries| - 1];
    if HasUpEntry(entries, n) {
      var i :| 0 <= i < |entries| && entries[i].name == n && IsUp(entries[i]);
      if i < |front| { assert front[i] == entries[i]; }
    }
    if HasUpEntry(front, n) {
      var i :| 0 <= i < |front| && front[i].name == n && IsUp(front[i]);
      assert entries[i] == front[i];
    }
  }

  /** Appending entries does not move a name's first up entry. */
  lemma FirstUpSnoc(entries: seq<IfAddr>, n: string)
    requires entries != [] && HasUpEntry(entries[..|entries| - 1], n)
    ensures FirstUp(entries, n) == FirstUp(entries[..|entries| - 1], n) < |entries| - 1
  {
    var front := entries[..|entries| - 1];
    var i :| 0 <= i < |front| && front[i].name == n && IsUp(front[i]);
    var k := FirstUp(front, n);
    assert k <= i;
    assert entries[k] == front[k];
    var k' := FirstUp(entries, n);
    assert k' <= k;
    assert front[k'] == entries[k'];
  }

  /** A name whose only up entry is the last one has it as its first. */
  lemma FirstUpLast(entries: seq<IfAddr>)
    requires entries != []
    requires var a := entries[|entries| - 1];
      IsUp(a) && !HasUpEntry(entries[..|entries| - 1], a.name)
    ensures FirstUp(entries, entries[|entries| - 1].name) == |entries| - 1
  {
    var front := entries[..|entries| - 1];
    assert forall i :: 0 <= i < |front| ==> front[i] == entries[i];
  }

  /** The active list holds exactly the names that have an up entry. */
  lemma {:induction false} ActiveNamesMembers(entries: seq<IfAddr>)
    ensures forall n :: n in ActiveNames(entries) <==> HasUpEntry(entries, n)
    decreases |entries|
  {
    if entries != [] {
      ActiveNamesMembers(entries[..|entries| - 1]);
      forall n {
        HasUpEntrySnoc(entries, n);
      }
    }
  }

  /** The active list holds no name twice. */
  lemma {:induction false} ActiveNamesDistinct(entries: seq<IfAddr>)
    ensures NoDuplicates(ActiveNames(entries))
    decreases |entries|
  {
    if entries != [] {
      ActiveNamesDistinct(entries[..|entries| - 1]);
    }
  }

  /** The active list orders names by their first up entry. */
  lemma {:induction false} ActiveNamesOrdered(entries: seq<IfAddr>)
    ensures forall i, j :: 0 <= i < j < |ActiveNames(entries)| ==>
      FirstUp(entries, ActiveNames(entries)[i]) < FirstUp(entries, ActiveNames(entries)[j])
    decreases |entries|
  {
    if entries != [] {
      var front := entries[..|entries| - 1];
      var a := entries[|entries| - 1];
      var before := ActiveNames(front);
      ActiveNamesOrdered(front);
      ActiveNamesMembers(front);
      if a.name !in before && IsUp(a) {
        FirstUpLast(entries);
        var r := before + [a.name];
        forall i, j | 0 <= i < j < |r| ensures FirstUp(entries, r[i]) < FirstUp(entries, r[j]) {
          assert r[i] == before[i];
          FirstUpSnoc(entries, before[i]);
          if j < |before| {
            assert r[j] == before[j];
            FirstUpSnoc(entries, before[j]);
          }
        }
      } else {
        forall i, j | 0 <= i < j < |before| ensures FirstUp(entries, before[i]) < FirstUp(entries, before[j]) {
          FirstUpSnoc(entries, before[i]);
          FirstUpSnoc(entries, before[j]);
          assert FirstUp(front, before[i]) < FirstUp(front, before[j]);
        }
      }
    }
  }

  /** `get_active_devices`: walk the address list, appending a name when the
      list does not yet contain it and the entry has `IFF_UP`. */
  method GetActiveDevices(addrs: IfAddrs) returns (r: Result<seq<string>>)
    ensures addrs.IfAddrsFailed? ==> r == Failure(OSError(addrs.errno))
    ensures addrs.IfAddrList? ==> r == Success(ActiveNames(addrs.entries))
  {
    if addrs.IfAddrsFailed? {
      return Failure(OSError(addrs.errno));
    }
    var entries := addrs.entries;
    var list: seq<string> := [];
    for i := 0 to |entries|
      invariant list == ActiveNames(entries[..i])
    {
      assert entries[..i + 1][..i] == entries[..i];
      var a := entries[i];
      if a.name !in list && a.flags & IFF_UP != 0 {
        list := list + [a.name];
      }
    }
    assert entries[..|entries|] == entries;
    return Success(list);
  }

  // ---------------------------------------------------------------------------
  // get_interfaces_info: the device selector
  // ---------------------------------------------------------------------------

  /** The Python values a selector can be. A `str` is carried as the text
      `PyUnicode_AsUTF8` hands over. */
  datatype PyObject =
    | PyBytes(value: string)
    | PyStr(value: string)
    | Tuple(items: seq<PyObject>)
    | List(items: seq<PyObject>)
    | Other

  /** The `bytes` elements of a tuple or list, in order; every other element
      (a `str` included) is skipped. */
  function BytesItems(items: seq<PyObject>): (names: seq<string>)
    ensures |names| <= |items|
  {
    if items == [] then []
    else (if items[0].PyBytes? then [items[0].value] else []) + BytesItems(items[1..])
  }

  /** Taking the bytes elements distributes over concatenation, so the
      selected names keep the collection's order. */
  lemma {:induction false} BytesItemsAppend(xs: seq<PyObject>, ys: seq<PyObject>)
    ensures BytesItems(xs + ys) == BytesItems(xs) + BytesItems(ys)
    decreases |xs|
  {
    if xs != [] {
      assert (xs + ys)[0] == xs[0];
      assert (xs + ys)[1..] == xs[1..] + ys;
      BytesItemsAppend(xs[1..], ys);
      var head := if xs[0].PyBytes? then [xs[0].value] else [];
      calc {
        BytesItems(xs + ys);
        head + BytesItems(xs[1..] + ys);
        head + (BytesItems(xs[1..]) + BytesItems(ys));
        (head + BytesItems(xs[1..])) + BytesItems(ys);
      }
    } else {
      assert xs + ys == ys;
    }
  }

  /** A name is selected exactly when the collection holds it as `bytes`, and
      nothing is dropped when every element is `bytes`. */
  lemma {:induction false} BytesItemsMembers(items: seq<PyObject>)
    ensures forall v :: v in BytesItems(items) <==> PyBytes(v) in items
    ensures (forall i :: 0 <= i < |items| ==> items[i].PyBytes?) ==> |BytesItems(items)| == |items|
    decreases |items|
  {
    if items != [] {
      BytesItemsMembers(items[1..]);
      assert items == [items[0]] + items[1..];
    }
  }

  /** The device names `get_interfaces_info` resolves from its arguments: no
      argument selects none; a `bytes` or `str` selects that one name; a tuple
      or list selects its `bytes` elements; anything else, or more than one
      argument, is a LookupError. */
  function SelectorDevices(args: seq<PyObject>): (r: Result<seq<string>>)
    ensures r.Failure? <==> |args| > 1 || (|args| == 1 && args[0].Other?)
    ensures r.Failure? ==> r.error == LookupError
  {
    if |args| == 0 then Success([])
    else if |args| > 1 then Failure(LookupError)
    else match args[0]
      case PyBytes(v) => Success([v])
      case PyStr(v) => Success([v])
      case Tuple(items) => Success(BytesItems(items))
      case List(items) => Success(BytesItems(items))
      case Other => Failure(LookupError)
  }

  /** The two collection branches: `fetch_devs` is filled through the
      separate counter `j`, which advances only on a `bytes` element. */
  method CollectBytes(items: seq<PyObject>) returns (fetchDevs: seq<string>)
    ensures fetchDevs == BytesItems(items)
  {
    var devs := new string[|items| + 1];
    var j := 0;
    for i := 0 to |items|
      invariant j <= i
      invariant devs[..j] == BytesItems(items[..i])
    {
      var elmt := items[i];
      assert items[..i + 1] == items[..i] + [elmt];
      BytesItemsAppend(items[..i], [elmt]);
      if elmt.PyBytes? {
        devs[j] := elmt.value;
        j := j + 1;
      }
    }
    assert items[..|items|] == items;
    fetchDevs := devs[..j];
  }

  /** The selector-parsing half of `get_interfaces_info`. */
  method NormaliseSelector(args: seq<PyObject>) returns (r: Result<seq<string>>)
    ensures r == SelectorDevices(args)
  {
    if |args| > 1 {
      // PyArg_ParseTuple("|O") rejects a second argument.
      return Failure(LookupError);
    }
    if |args| == 0 {
      return Success([]);
    }
    var inargs := args[0];
    match inargs {
      case PyBytes(v) => r := Success([v]);
      case PyStr(v) => r := Success([v]);
      case Tuple(items) =>
        var devs := CollectBytes(items);
        r := Success(devs);
      case List(items) =>
        var devs := CollectBytes(items);
        r := Success(devs);
      case Other => r := Failure(LookupError);
    }
  }

  /** The part of a `PyEtherInfo` object `get_interfaces_info` sets: the
      device name and the not-yet-known interface index. */
  datatype EtherInfo = EtherInfo(device: string, index: int)

  /** `PyBytes_FromString`: the text before the first NUL. Device names are
      text in this module and bytes in `Dispatch`, whose `CStrLen` is the same
      cut on `seq<uint8>`: for a name whose characters are all below 256,
      `|CString(s)|` is `CStrLen` of its bytes. */
  function CString(s: string): (r: string)
    ensures r <= s && '\0' !in r
    ensures |r| < |s| ==> s[|r|] == '\0'
  {
    if s == [] || s[0] == '\0' then [] else [s[0]] + CString(s[1..])
  }

  /** `get_interfaces_info`: one object per selected name, in order. */
  method GetInterfacesInfo(args: seq<PyObject>) returns (r: Result<seq<EtherInfo>>)
    ensures SelectorDevices(args).Failure? ==> r == Failure(SelectorDevices(args).error)
    ensures SelectorDevices(args).Success? ==>
      var names := SelectorDevices(args).value;
      && r.Success? && |r.value| == |names|
      && forall i :: 0 <= i < |names| ==> r.value[i] == EtherInfo(CString(names[i]), -1)
  {
    var sel := NormaliseSelector(args);
    if sel.Failure? {
      return Failure(sel.error);
    }
    var fetchDevs := sel.value;
    var devlist: seq<EtherInfo> := [];
    for i := 0 to |fetchDevs|
      invariant |devlist| == i
      invariant forall j :: 0 <= j < i ==> devlist[j] == EtherInfo(CString(fetchDevs[j]), -1)
    {
      devlist := devlist + [EtherInfo(CString(fetchDevs[i]), -1)];
    }
    return Success(devlist);
  }
}

/** The command dispatcher: `send_command` prepares a `struct ifreq` naming the
    device and pointing at the caller's value buffer, stamps the command code
    into the buffer's first word and issues one `SIOCETHTOOL` ioctl. The kernel
    is an oracle: the socket either opens or fails with an errno, and the ioctl
    either answers with the buffer's new contents or fails with an errno. */
module Dispatch {
  import opened Bytes
  import opened Errors

  /** `IFNAMSIZ`: the size of `ifr_name`, including its terminating NUL. */
  const IFNAMSIZ: nat := 16

  /** `struct ethtool_value { __u32 cmd; __u32 data; }`. */
  const ETHTOOL_VALUE_SIZE: nat := 8
  const VALUE_DATA_OFFSET: nat := 4

  /** `strlen`: the number of bytes before the first NUL (or all of them). */
  function CStrLen(s: seq<uint8>): (n: nat)
    ensures n <= |s|
    ensures forall i :: 0 <= i < n ==> s[i] != 0
    ensures n < |s| ==> s[n] == 0
  {
    if s == [] || s[0] == 0 then 0 else 1 + CStrLen(s[1..])
  }

  /** `strncpy(dst, src, n)`: the bytes of `src` up to its NUL, at most `n`
      of them, then NUL padding up to `n` bytes. */
  function StrNCpy(src: seq<uint8>, n: nat): (dst: seq<uint8>)
    ensures |dst| == n
    ensures forall i :: 0 <= i < n ==> dst[i] == if i < CStrLen(src) then src[i] else 0
    decreases n
  {
    if n == 0 then []
    else if src == [] || src[0] == 0 then seq(n, _ => 0)
    else [src[0]] + StrNCpy(src[1..], n - 1)
  }

  function Min(a: nat, b: nat): nat {
    if a < b then a else b
  }

  /** `ifr_name` after `memset(&ifr, 0, ...)`, `strncpy(ifr.ifr_name, devname,
      IFNAMSIZ)` and `ifr.ifr_name[IFNAMSIZ - 1] = 0`: the first
      min(strlen, IFNAMSIZ - 1) bytes of the name, then NUL bytes. */
  function NameField(devname: seq<uint8>): (f: seq<uint8>)
    ensures |f| == IFNAMSIZ
    ensures forall i :: 0 <= i < IFNAMSIZ ==>
      f[i] == if i < Min(CStrLen(devname), IFNAMSIZ - 1) then devname[i] else 0
  {
    StrNCpy(devname, IFNAMSIZ)[IFNAMSIZ - 1 := 0]
  }

  /** The name the kernel reads from `ifr_name` is the device name cut at its
      first NUL and then at IFNAMSIZ - 1 bytes: a short name arrives whole, a
      longer one is silently truncated. */
  lemma NameFieldReadsBack(devname: seq<uint8>)
    ensures var f := NameField(devname);
      f[..CStrLen(f)] == devname[..Min(CStrLen(devname), IFNAMSIZ - 1)]
    ensures CStrLen(devname) < IFNAMSIZ ==> NameField(devname)[..CStrLen(NameField(devname))] == devname[..CStrLen(devname)]
  {
    var f := NameField(devname);
    var m := Min(CStrLen(devname), IFNAMSIZ - 1);
    assert f[m] == 0;
    assert CStrLen(f) == m;
  }

  /** The `struct ifreq` handed to the kernel: the device name and the bytes
      `ifr_data` points at. */
  datatype Request = Request(name: seq<uint8>, data: seq<uint8>)

  /** The ioctl's answer: the value buffer's contents afterwards, or an errno. */
  datatype Reply = Done(data: nat -> uint8) | Errno(errno: int)

  /** `socket(AF_INET, SOCK_DGRAM, 0)`: it opens, or fails with an errno. */
  datatype Socket = Opened | Refused(errno: int)

  /** What the operating system does with one control request. */
  datatype Kernel = Kernel(socket: Socket, ioctl: Request -> Reply)

  /** The status of one `send_command` and the value buffer afterwards. */
  datatype Exchange = Exchange(status: Outcome, block: seq<uint8>)

  /** The request `send_command` issues for `cmd` on `devname` with the value
      buffer `b`: the command code is stamped into the buffer's first word and
      nothing else in the buffer changes. */
  function PrepareRequest(cmd: uint32, devname: seq<uint8>, b: seq<uint8>): (r: Request)
    requires |b| >= U32_SIZE
    ensures r.name == NameField(devname)
    ensures |r.data| == |b| && ReadU32(r.data, 0) == cmd
    ensures forall p :: U32_SIZE <= p < |b| ==> r.data[p] == b[p]
  {
    WriteThenRead(b, 0, cmd);
    Request(NameField(devname), WriteU32(b, 0, cmd))
  }

  /** One control-channel transaction: a socket failure is an OSError, an
      ioctl failure an IOError carrying the errno, and only a successful ioctl
      changes the buffer. */
  function Transact(k: Kernel, req: Request): (x: Exchange)
    ensures x.status == Pass <==> k.socket.Opened? && k.ioctl(req).Done?
    ensures k.socket.Refused? ==> x.status == Fail(OSError(k.socket.errno))
    ensures k.socket.Opened? && k.ioctl(req).Errno? ==> x.status == Fail(IOError(k.ioctl(req).errno))
    ensures x.status.Fail? ==> x.block == req.data
    ensures x.status == Pass ==> forall i :: 0 <= i < |x.block| ==> x.block[i] == k.ioctl(req).data(i)
    ensures |x.block| == |req.data|
  {
    match k.socket
    case Refused(e) => Exchange(Fail(OSError(e)), req.data)
    case Opened =>
      match k.ioctl(req)
      case Errno(e) => Exchange(Fail(IOError(e)), req.data)
      case Done(f) => Exchange(Pass, seq(|req.data|, (i: nat) => f(i)))
  }

  /** `send_command`: its return value is 0 exactly when `status` is `Pass`. */
  method SendCommand(cmd: uint32, devname: seq<uint8>, value: array<uint8>, k: Kernel)
    returns (status: Outcome)
    requires value.Length >= U32_SIZE
    modifies value
    ensures Exchange(status, value[..]) == Transact(k, PrepareRequest(cmd, devname, old(value[..])))
  {
    var name := NameField(devname);
    var bs := U32ToBytes(cmd);
    value[0], value[1], value[2], value[3] := bs[0], bs[1], bs[2], bs[3];
    ghost var sent := value[..];
    assert sent == PrepareRequest(cmd, devname, old(value[..])).data;
    match k.socket {
      case Refused(e) =>
        return Fail(OSError(e));
      case Opened =>
    }
    var reply := k.ioctl(Request(name, value[..]));
    match reply {
      case Errno(e) =>
        status := Fail(IOError(e));
      case Done(f) =>
        forall i | 0 <= i < value.Length {
          value[i] := f(i);
        }
        status := Pass;
    }
    // close(fd)
  }

  /** `get_dev_value`: `send_command` on the caller's buffer. */
  method GetDevValue(cmd: uint32, devname: seq<uint8>, value: array<uint8>, k: Kernel)
    returns (status: Outcome)
    requires value.Length >= U32_SIZE
    modifies value
    ensures Exchange(status, value[..]) == Transact(k, PrepareRequest(cmd, devname, old(value[..])))
  {
    status := SendCommand(cmd, devname, value, k);
  }

  /** `get_dev_int_value`: `eval` is the `struct ethtool_value` on the
      caller's stack (its contents arbitrary) and `prior` the value `*value`
      held before. The data word is copied out, read as a C `int`, only when
      the command succeeded; otherwise `*value` keeps `prior`. */
  method GetDevIntValue(cmd: uint32, devname: seq<uint8>, k: Kernel, eval: array<uint8>, prior: int32)
    returns (status: Outcome, value: int32)
    requires eval.Length == ETHTOOL_VALUE_SIZE
    modifies eval
    ensures var x := Transact(k, PrepareRequest(cmd, devname, old(eval[..])));
      && status == x.status && eval[..] == x.block
      && value == if status == Pass then U32ToInt32(ReadU32(x.block, VALUE_DATA_OFFSET)) else prior
  {
    status := GetDevValue(cmd, devname, eval, k);
    value := prior;
    if status == Pass {
      value := U32ToInt32(ReadU32(eval[..], VALUE_DATA_OFFSET));
    }
  }

  /** `dev_set_int_value`: store `data` in the data word of the caller's
      `struct ethtool_value`, then `send_command`. */
  method DevSetIntValue(cmd: uint32, devname: seq<uint8>, data: int32, k: Kernel, eval: array<uint8>)
    returns (status: Outcome)
    requires eval.Length == ETHTOOL_VALUE_SIZE
    modifies eval
    ensures Exchange(status, eval[..]) ==
      Transact(k, PrepareRequest(cmd, devname, WriteU32(old(eval[..]), VALUE_DATA_OFFSET, LongToU32(data))))
  {
    var bs := U32ToBytes(LongToU32(data));
    eval[4], eval[5], eval[6], eval[7] := bs[0], bs[1], bs[2], bs[3];
    assert eval[..] == WriteU32(old(eval[..]), VALUE_DATA_OFFSET, LongToU32(data));
    status := SendCommand(cmd, devname, eval, k);
  }

  /** The request `dev_set_int_value` issues carries `cmd` in its first word
      and, in its data word, `data` exactly as the caller gave it. */
  lemma SetIntRequest(cmd: uint32, devname: seq<uint8>, data: int32, b: seq<uint8>)
    requires |b| == ETHTOOL_VALUE_SIZE
    ensures var req := PrepareRequest(cmd, devname, WriteU32(b, VALUE_DATA_OFFSET, LongToU32(data)));
      ReadU32(req.data, 0) == cmd && U32ToInt32(ReadU32(req.data, VALUE_DATA_OFFSET)) == data
  {
    var b' := WriteU32(b, VALUE_DATA_OFFSET, LongToU32(data));
    WriteThenRead(b, VALUE_DATA_OFFSET, LongToU32(data));
    ReadAfterDisjointWrite(b', 0, cmd, VALUE_DATA_OFFSET);
    Int32RoundTrip(data);
  }
}

/** The CONNECT record: written by the kernel probe in C layout, read by the agent in Go layout,
    printed, taken apart again, and normalised.  The host is little-endian. */
module Connect {
  import opened Text
  import opened Lines
  import opened Normalizer
  import opened Baseline

  type Byte = x: int | 0 <= x < 0x100
  type Uint16 = x: int | 0 <= x < 0x1_0000

  // ---- Byte order ----------------------------------------------------------------------

  function Low16(v: Uint16): Byte { v % 0x100 }
  function High16(v: Uint16): Byte { v / 0x100 }

  function Get16(low: Byte, high: Byte): Uint16 { low + 0x100 * high }

  /** `__builtin_bswap16`. */
  function Swap16(v: Uint16): Uint16 { Get16(High16(v), Low16(v)) }

  function Get32(b0: Byte, b1: Byte, b2: Byte, b3: Byte): Uint32 {
    b0 + 0x100 * (b1 + 0x100 * (b2 + 0x100 * b3))
  }

  /** The little-endian form. */
  function Bytes32(v: Uint32): (b: seq<Byte>)
    ensures |b| == 4
  {
    [v % 0x100, v / 0x100 % 0x100, v / 0x1_0000 % 0x100, v / 0x100_0000]
  }

  lemma BytesOfGet32(b0: Byte, b1: Byte, b2: Byte, b3: Byte)
    ensures Bytes32(Get32(b0, b1, b2, b3)) == [b0, b1, b2, b3]
  {
    var v := Get32(b0, b1, b2, b3);
    var v1, v2 := b1 + 0x100 * (b2 + 0x100 * b3), b2 + 0x100 * b3;
    assert v == 0x100 * v1 + b0 && v / 0x100 == v1;
    assert v == 0x1_0000 * v2 + (0x100 * b1 + b0) && v / 0x1_0000 == v2;
    assert v == 0x100_0000 * b3 + (0x1_0000 * b2 + 0x100 * b1 + b0);
  }

  lemma Get32OfBytes(v: Uint32)
    ensures var b := Bytes32(v); Get32(b[0], b[1], b[2], b[3]) == v
  {
    assert v / 0x1_0000 == v / 0x100 / 0x100;
    assert v / 0x100_0000 == v / 0x1_0000 / 0x100;
  }

  function Bytes16(v: Uint16): (b: seq<Byte>)
    ensures |b| == 2
  {
    [Low16(v), High16(v)]
  }

  // ---- The two layouts -----------------------------------------------------------------

  /** The place C gives a member behind `end`: the next multiple of its alignment. */
  predicate Follows(offset: nat, end: nat, alignment: nat)
    requires alignment > 0
  {
    end <= offset < end + alignment && offset % alignment == 0
  }

  /** `struct connect_event`. */
  const C_PID: nat := 0
  const C_UID: nat := 4
  const C_COMM: nat := 8
  const C_IS_IPV6: nat := 24
  const C_IPV6_ADDR: nat := 25
  const C_DST_ADDR: nat := 44
  const C_DST_PORT: nat := 48
  const C_SIZE: nat := 52

  /** `connectEvent` under binary.Read: fields packed, three bytes of padding written out. */
  const GO_PID: nat := 0
  const GO_UID: nat := GO_PID + 4
  const GO_COMM: nat := GO_UID + 4
  const GO_IS_IPV6: nat := GO_COMM + 16
  const GO_IPV6_ADDR: nat := GO_IS_IPV6 + 1
  const GO_PADDING: nat := GO_IPV6_ADDR + 16
  const GO_DST_ADDR: nat := GO_PADDING + 3
  const GO_DST_PORT: nat := GO_DST_ADDR + 4
  const GO_SIZE: nat := GO_DST_PORT + 2

  /** The manual padding is right: the C offsets are those that the sizes and alignments of the
      members dictate, every field has the same offset in both layouts, and the C record is long
      enough for the Go one. */
  lemma LayoutsAgree()
    ensures Follows(C_UID, C_PID + 4, 4) && Follows(C_COMM, C_UID + 4, 1) && Follows(C_IS_IPV6, C_COMM + 16, 1)
    ensures Follows(C_IPV6_ADDR, C_IS_IPV6 + 1, 1) && Follows(C_DST_ADDR, C_IPV6_ADDR + 16, 4)
    ensures Follows(C_DST_PORT, C_DST_ADDR + 4, 2) && Follows(C_SIZE, C_DST_PORT + 2, 4)
    ensures C_PID == GO_PID && C_UID == GO_UID && C_COMM == GO_COMM && C_IS_IPV6 == GO_IS_IPV6
    ensures C_IPV6_ADDR == GO_IPV6_ADDR && C_DST_ADDR == GO_DST_ADDR && C_DST_PORT == GO_DST_PORT
    ensures GO_SIZE <= C_SIZE
  {
  }

  // ---- The writer ----------------------------------------------------------------------

  const AF_INET := 2
  const AF_INET6 := 10

  /** `bpf_probe_read_user` into zeroed memory: the bytes read, or zeros when the read fails. */
  function Fetched(read: Option<seq<Byte>>, size: nat): (bytes: seq<Byte>)
    requires read.Some? ==> |read.value| == size
    ensures |bytes| == size
  {
    if read.Some? then read.value else seq(size, _ => 0)
  }

  /** The address family, from the first two bytes of user memory. */
  function FamilyOf(read: Option<seq<Byte>>): Uint16
    requires read.Some? ==> |read.value| == 2
  {
    Get16(Fetched(read, 2)[0], Fetched(read, 2)[1])
  }

  /** `sizeof` the socket address of a family: sockaddr_in or sockaddr_in6. */
  function AddrSize(family: Uint16): nat {
    if family == AF_INET then 16 else 28
  }

  predicate Traced(family: Uint16) {
    family == AF_INET || family == AF_INET6
  }

  /** The port, in network byte order in user memory. */
  function PortOf(addr: seq<Byte>): Uint16
    requires |addr| >= 16
  {
    Get16(addr[3], addr[2])
  }

  /** The record holds the bytes from the given offset on. */
  ghost predicate Holds(rec: seq<Byte>, at: nat, bytes: seq<Byte>) {
    at + |bytes| <= |rec| && forall i :: at <= i < at + |bytes| ==> rec[i] == bytes[i - at]
  }

  /** The fields common to both families. */
  ghost predicate HeaderWritten(rec: seq<Byte>, pid: Uint32, uid: Uint32, comm: seq<Byte>) {
    && |comm| == 16
    && Holds(rec, C_PID, Bytes32(pid))
    && Holds(rec, C_UID, Bytes32(uid))
    && Holds(rec, C_COMM, comm)
  }

  /** The destination: the bytes of the address as they stood in user memory, and the port in
      host byte order. */
  ghost predicate AddressWritten(rec: seq<Byte>, family: Uint16, addr: seq<Byte>)
    requires |addr| == AddrSize(family)
  {
    && Holds(rec, C_IS_IPV6, [if family == AF_INET then 0 else 1])
    && Holds(rec, C_IPV6_ADDR, if family == AF_INET then seq(16, _ => 0) else addr[8..24])
    && Holds(rec, C_DST_ADDR, if family == AF_INET then addr[4..8] else seq(4, _ => 0))
    && Holds(rec, C_DST_PORT, Bytes16(PortOf(addr)))
  }

  /** What the probe leaves in the ring buffer for one connect() call. */
  ghost predicate Written(rec: seq<Byte>, pid: Uint32, uid: Uint32, comm: seq<Byte>, family: Uint16, addr: seq<Byte>)
    requires |addr| == AddrSize(family)
  {
    |rec| == C_SIZE && HeaderWritten(rec, pid, uid, comm) && AddressWritten(rec, family, addr)
  }

  method PutBytes(a: array<Byte>, at: nat, bytes: seq<Byte>)
    requires at + |bytes| <= a.Length
    modifies a
    ensures Holds(a[..], at, bytes)
    ensures forall i :: 0 <= i < a.Length && !(at <= i < at + |bytes|) ==> a[i] == old(a[i])
  {
    for n := 0 to |bytes|
      invariant forall i :: at <= i < at + n ==> a[i] == bytes[i - at]
      invariant forall i :: 0 <= i < a.Length && !(at <= i < at + n) ==> a[i] == old(a[i])
    {
      a[at + n] := bytes[n];
    }
  }

  /** `handle_connect`: a zeroed record filled field by field, for IPv4 and IPv6 only.  User memory
      is read twice, first the family and then the whole address of that family; either read may
      fail, and the memory may change in between. */
  method HandleConnect(pid: Uint32, uid: Uint32, comm: seq<Byte>, first: Option<seq<Byte>>, second: Option<seq<Byte>>, reserved: bool)
    returns (record: Option<seq<Byte>>)
    requires |comm| == 16 && (first.Some? ==> |first.value| == 2)
    requires second.Some? ==> |second.value| == AddrSize(FamilyOf(first))
    ensures record.Some? <==> reserved && first.Some? && first.value[0] in {2, 10} && first.value[1] == 0
    ensures record.Some? <==> reserved && Traced(FamilyOf(first))
    ensures var family := FamilyOf(first);
            record.Some? ==> Written(record.value, pid, uid, comm, family, Fetched(second, AddrSize(family)))
  {
    var family := if first.Some? then Get16(first.value[0], first.value[1]) else 0;
    if family != AF_INET && family != AF_INET6 {
      return None;
    }
    if !reserved {
      return None;
    }
    var e := new Byte[C_SIZE](_ => 0);
    FillHeader(e, pid, uid, comm);
    FillAddress(e, family, second);
    record := Some(e[..]);
  }

  /** Byte orders, written out: words are kept with the low byte first, the port in user memory has
      the high byte first, and the two families are 2 and 10. */
  lemma ByteOrders(v: Uint32, addr: seq<Byte>)
    requires |addr| >= 16
    ensures var b := Bytes32(v);
            v == b[0] as int + 0x100 * b[1] as int + 0x1_0000 * b[2] as int + 0x100_0000 * b[3] as int
    ensures PortOf(addr) as int == 0x100 * addr[2] as int + addr[3] as int
    ensures FamilyOf(Some(addr[..2])) == 2 <==> addr[0] == 2 && addr[1] == 0
    ensures FamilyOf(Some(addr[..2])) == 10 <==> addr[0] == 10 && addr[1] == 0
  {
    Get32OfBytes(v);
  }

  method FillHeader(e: array<Byte>, pid: Uint32, uid: Uint32, comm: seq<Byte>)
    requires e.Length == C_SIZE && |comm| == 16
    modifies e
    ensures HeaderWritten(e[..], pid, uid, comm)
    ensures forall i :: C_IS_IPV6 <= i < e.Length ==> e[i] == old(e[i])
  {
    PutBytes(e, C_PID, Bytes32(pid));
    PutBytes(e, C_UID, Bytes32(uid));
    PutBytes(e, C_COMM, comm);
  }

  method FillAddress(e: array<Byte>, family: Uint16, read: Option<seq<Byte>>)
    requires e.Length == C_SIZE && Traced(family)
    requires read.Some? ==> |read.value| == AddrSize(family)
    requires forall i :: C_IS_IPV6 <= i < e.Length ==> e[i] == 0
    modifies e
    ensures AddressWritten(e[..], family, Fetched(read, AddrSize(family)))
    ensures forall i :: 0 <= i < C_IS_IPV6 ==> e[i] == old(e[i])
  {
    var addr := seq(AddrSize(family), _ => 0);
    if read.Some? {
      addr := read.value;
    }
    if family == AF_INET {
      PutBytes(e, C_IS_IPV6, [0]);
      var bytes := AddressBytes(addr);
      PutBytes(e, C_DST_ADDR, bytes);
    } else {
      PutBytes(e, C_IS_IPV6, [1]);
      PutBytes(e, C_IPV6_ADDR, addr[8..24]);
    }
    var port := PortBytes(addr);
    PutBytes(e, C_DST_PORT, port);
  }

  /** `dst_addr`: loaded as one word and stored as one word, the bytes keep their order. */
  method AddressBytes(addr: seq<Byte>) returns (b: seq<Byte>)
    requires |addr| >= 16
    ensures b == addr[4..8]
  {
    var word := Get32(addr[4], addr[5], addr[6], addr[7]);
    BytesOfGet32(addr[4], addr[5], addr[6], addr[7]);
    b := Bytes32(word);
  }

  /** `dst_port`: swapped from network to host byte order. */
  method PortBytes(addr: seq<Byte>) returns (b: seq<Byte>)
    requires |addr| >= 16
    ensures b == Bytes16(PortOf(addr))
  {
    var port := Swap16(Get16(addr[2], addr[3]));
    SwapsBytes(addr[2], addr[3]);
    b := Bytes16(port);
  }

  lemma SwapsBytes(low: Byte, high: Byte)
    ensures Swap16(Get16(low, high)) == Get16(high, low)
  {
  }

  // ---- The reader ----------------------------------------------------------------------

  datatype ConnectEvent = ConnectEvent(
    pid: Uint32, uid: Uint32, comm: seq<Byte>, isIPv6: Byte, ipv6Addr: seq<Byte>, dstAddr: Uint32, dstPort: Uint16)

  function Read32(raw: seq<Byte>, at: nat): Uint32
    requires at + 4 <= |raw|
  {
    Get32(raw[at], raw[at + 1], raw[at + 2], raw[at + 3])
  }

  /** binary.Read in little-endian order; a record that is too short is skipped. */
  function ReadConnect(raw: seq<Byte>): Option<ConnectEvent> {
    if |raw| < GO_SIZE then None
    else
      Some(ConnectEvent(
        Read32(raw, GO_PID), Read32(raw, GO_UID), raw[GO_COMM..GO_COMM + 16], raw[GO_IS_IPV6],
        raw[GO_IPV6_ADDR..GO_IPV6_ADDR + 16], Read32(raw, GO_DST_ADDR),
        Get16(raw[GO_DST_PORT], raw[GO_DST_PORT + 1])))
  }

  /** `cstr`: the bytes before the first zero byte. */
  function Cstr(b: seq<Byte>): (s: string)
    ensures |s| <= |b|
  {
    if b == [] || b[0] == 0 then "" else [b[0] as char] + Cstr(b[1..])
  }

  /** The text holds the bytes up to the first zero byte, or all of them when there is none; a name
      that ends in a zero byte has at most 15. */
  lemma {:induction false} CstrExactly(b: seq<Byte>)
    ensures var s := Cstr(b);
            && (forall i :: 0 <= i < |s| ==> b[i] != 0 && s[i] as int == b[i])
            && (|s| < |b| ==> b[|s|] == 0)
    ensures |b| == 16 && b[15] == 0 ==> |Cstr(b)| <= MAX_COMM
  {
    if b == [] {
    } else if b[0] == 0 {
    } else {
      CstrExactly(b[1..]);
      var s, t := Cstr(b), Cstr(b[1..]);
      forall i | 0 <= i < |s| ensures b[i] != 0 && s[i] as int == b[i] {
        if i > 0 {
          assert s[i] == t[i - 1] && b[i] == b[1..][i - 1];
        }
      }
    }
  }

  function DottedQuad(a: Byte, b: Byte, c: Byte, d: Byte): string {
    NatText(a) + "." + (NatText(b) + "." + (NatText(c) + "." + NatText(d)))
  }

  /** The destination address in words.  `ipv6Text` is net.IP's rendering of a 16-byte address,
      which for an IPv4-mapped one is a dotted quad. */
  function AddressText(ev: ConnectEvent, ipv6Text: seq<Byte> -> string): string {
    if ev.isIPv6 == 1 then ipv6Text(ev.ipv6Addr)
    else
      var b := Bytes32(ev.dstAddr);
      DottedQuad(b[0], b[1], b[2], b[3])
  }

  /** The detail string: IPv6 addresses are put in brackets. */
  function Detail(ev: ConnectEvent, ipv6Text: seq<Byte> -> string): string {
    var ip := AddressText(ev, ipv6Text);
    (if ev.isIPv6 == 1 then "[" + ip + "]" else ip) + ":" + NatText(ev.dstPort)
  }

  // ---- Round trip ----------------------------------------------------------------------

  /** Reading what the probe wrote returns what the probe was given. */
  lemma RecordRoundTrip(rec: seq<Byte>, pid: Uint32, uid: Uint32, comm: seq<Byte>, family: Uint16, addr: seq<Byte>)
    requires |addr| == AddrSize(family) && Written(rec, pid, uid, comm, family, addr)
    ensures ReadConnect(rec).Some?
    ensures var ev := ReadConnect(rec).value;
            && ev.pid == pid && ev.uid == uid && ev.comm == comm
            && ev.dstPort as int == 0x100 * addr[2] as int + addr[3] as int
            && (family == AF_INET ==>
                  ev.isIPv6 == 0 && ev.dstAddr == Get32(addr[4], addr[5], addr[6], addr[7]))
            && (family != AF_INET ==> ev.isIPv6 == 1 && ev.ipv6Addr == addr[8..24])
  {
    LayoutsAgree();
    HeaderReadsBack(rec, pid, uid, comm);
    if family == AF_INET {
      IPv4ReadsBack(rec, addr);
    } else {
      IPv6ReadsBack(rec, family, addr);
    }
  }

  lemma HeaderReadsBack(rec: seq<Byte>, pid: Uint32, uid: Uint32, comm: seq<Byte>)
    requires |rec| == C_SIZE && HeaderWritten(rec, pid, uid, comm)
    ensures Read32(rec, GO_PID) == pid && Read32(rec, GO_UID) == uid && rec[GO_COMM..GO_COMM + 16] == comm
  {
    ReadsBack32(rec, GO_PID, pid);
    ReadsBack32(rec, GO_UID, uid);
    SliceReadsBack(rec, GO_COMM, comm);
  }

  lemma IPv4ReadsBack(rec: seq<Byte>, addr: seq<Byte>)
    requires |rec| == C_SIZE && |addr| == AddrSize(AF_INET) && AddressWritten(rec, AF_INET, addr)
    ensures rec[GO_IS_IPV6] == 0
    ensures Read32(rec, GO_DST_ADDR) == Get32(addr[4], addr[5], addr[6], addr[7])
    ensures Get16(rec[GO_DST_PORT], rec[GO_DST_PORT + 1]) == PortOf(addr)
  {
    Read32Holds(rec, GO_DST_ADDR, addr[4..8]);
    ReadsBack16(rec, GO_DST_PORT, PortOf(addr));
  }

  lemma IPv6ReadsBack(rec: seq<Byte>, family: Uint16, addr: seq<Byte>)
    requires |rec| == C_SIZE && family != AF_INET && |addr| == AddrSize(family) && AddressWritten(rec, family, addr)
    ensures rec[GO_IS_IPV6] == 1
    ensures rec[GO_IPV6_ADDR..GO_IPV6_ADDR + 16] == addr[8..24]
    ensures Get16(rec[GO_DST_PORT], rec[GO_DST_PORT + 1]) == PortOf(addr)
  {
    SliceReadsBack(rec, GO_IPV6_ADDR, addr[8..24]);
    ReadsBack16(rec, GO_DST_PORT, PortOf(addr));
  }

  lemma ReadsBack16(rec: seq<Byte>, at: nat, v: Uint16)
    requires Holds(rec, at, Bytes16(v))
    ensures Get16(rec[at], rec[at + 1]) == v
  {
  }

  lemma SliceReadsBack(rec: seq<Byte>, at: nat, bytes: seq<Byte>)
    requires Holds(rec, at, bytes)
    ensures rec[at..at + |bytes|] == bytes
  {
  }

  lemma ReadsBack32(rec: seq<Byte>, at: nat, v: Uint32)
    requires Holds(rec, at, Bytes32(v))
    ensures Read32(rec, at) == v
  {
    Read32Holds(rec, at, Bytes32(v));
    Get32OfBytes(v);
  }

  lemma Read32Holds(rec: seq<Byte>, at: nat, b: seq<Byte>)
    requires Holds(rec, at, b) && |b| == 4
    ensures Read32(rec, at) == Get32(b[0], b[1], b[2], b[3])
  {
  }

  lemma FirstPieceOf(a: string, rest: string)
    requires FreeOf(a, ':')
    ensures FirstPiece(a + ":" + rest) == a
  {
    var s := a + ":" + rest;
    assert s[|a|] == ':';
    assert forall i :: 0 <= i < |a| ==> s[i] == a[i];
    assert IndexOf(s, ':') == |a|;
  }

  /** The CONNECT path for IPv4: the printed detail is the address and port that the probe read, the
      port with its high byte first, and its part before the first colon is exactly the dotted
      quad. */
  lemma IPv4DetailRoundTrip(rec: seq<Byte>, pid: Uint32, uid: Uint32, comm: seq<Byte>, addr: seq<Byte>, ipv6Text: seq<Byte> -> string)
    requires |addr| == AddrSize(AF_INET) && Written(rec, pid, uid, comm, AF_INET, addr)
    ensures ReadConnect(rec).Some?
    ensures var ev := ReadConnect(rec).value;
            var quad := QuadAt(addr, 4);
            && quad == NatText(addr[4]) + "." + (NatText(addr[5]) + "." + (NatText(addr[6]) + "." + NatText(addr[7])))
            && AddressText(ev, ipv6Text) == quad && FirstPiece(Detail(ev, ipv6Text)) == quad
            && Detail(ev, ipv6Text) == quad + ":" + NatText(0x100 * addr[2] as int + addr[3] as int)
  {
    RecordRoundTrip(rec, pid, uid, comm, AF_INET, addr);
    BytesOfGet32(addr[4], addr[5], addr[6], addr[7]);
    FirstPieceIsAddressExactly(ReadConnect(rec).value, ipv6Text);
  }

  /** That quad is the address in the `user` sockaddr of the call if and only if the four bytes were
      recorded as they are there. */
  lemma IPv4DetailIsCallExactly(rec: seq<Byte>, pid: Uint32, uid: Uint32, comm: seq<Byte>, addr: seq<Byte>,
                                user: seq<Byte>, ipv6Text: seq<Byte> -> string)
    requires |user| == AddrSize(AF_INET) && |addr| == AddrSize(AF_INET) && Written(rec, pid, uid, comm, AF_INET, addr)
    ensures ReadConnect(rec).Some?
    ensures FirstPiece(Detail(ReadConnect(rec).value, ipv6Text)) == QuadAt(user, 4) <==> addr[4..8] == user[4..8]
  {
    IPv4DetailRoundTrip(rec, pid, uid, comm, addr, ipv6Text);
    QuadsEqualExactly(addr, user, 4);
  }

  /** After a failed second read the record of an IPv4 call prints 0.0.0.0:0. */
  lemma FailedReadPrintsZero(rec: seq<Byte>, pid: Uint32, uid: Uint32, comm: seq<Byte>, ipv6Text: seq<Byte> -> string)
    requires Written(rec, pid, uid, comm, AF_INET, Fetched(None, AddrSize(AF_INET)))
    ensures ReadConnect(rec).Some? && Detail(ReadConnect(rec).value, ipv6Text) == "0.0.0.0:0"
  {
    var addr := Fetched(None, AddrSize(AF_INET));
    IPv4DetailRoundTrip(rec, pid, uid, comm, addr, ipv6Text);
    ZeroDetail(addr);
  }

  lemma ZeroDetail(addr: seq<Byte>)
    requires |addr| == 16 && forall i :: 0 <= i < 16 ==> addr[i] == 0
    ensures QuadAt(addr, 4) + ":" + NatText(0x100 * addr[2] as int + addr[3] as int) == "0.0.0.0:0"
  {
    assert NatText(0) == "0";
    assert DottedQuad(0, 0, 0, 0) == "0.0.0.0";
  }

  /** The CONNECT path for IPv6: the detail is the sixteen bytes that the probe read, printed in
      brackets, and the port. */
  lemma IPv6DetailRoundTrip(rec: seq<Byte>, pid: Uint32, uid: Uint32, comm: seq<Byte>, addr: seq<Byte>, ipv6Text: seq<Byte> -> string)
    requires |addr| == AddrSize(AF_INET6) && Written(rec, pid, uid, comm, AF_INET6, addr)
    ensures ReadConnect(rec).Some?
    ensures Detail(ReadConnect(rec).value, ipv6Text) ==
              "[" + ipv6Text(addr[8..24]) + "]" + ":" + NatText(0x100 * addr[2] as int + addr[3] as int)
  {
    RecordRoundTrip(rec, pid, uid, comm, AF_INET6, addr);
  }

  /** The dotted quad of four bytes. */
  function QuadAt(addr: seq<Byte>, at: nat): string
    requires at + 4 <= |addr|
  {
    DottedQuad(addr[at], addr[at + 1], addr[at + 2], addr[at + 3])
  }

  /** A numeral, a dot and the rest determine the number and the rest. */
  lemma DottedInjective(a: nat, r: string, b: nat, s: string)
    requires NatText(a) + "." + r == NatText(b) + "." + s
    ensures a == b && r == s
  {
    NumeralHasNoDot(NatText(a));
    NumeralHasNoDot(NatText(b));
    CutFirst('.', NatText(a), r, NatText(b), s);
    NatRoundTrip(a);
    NatRoundTrip(b);
  }

  lemma NumeralHasNoDot(s: string)
    requires Numeral(s)
    ensures '.' !in s
  {
    forall i | 0 <= i < |s| ensures s[i] != '.' {
      assert IsDigit(s[i]);
    }
  }

  /** Dotted quads are equal exactly when the bytes are. */
  lemma QuadsEqualExactly(x: seq<Byte>, y: seq<Byte>, at: nat)
    requires at + 4 <= |x| && at + 4 <= |y|
    ensures QuadAt(x, at) == QuadAt(y, at) <==> x[at..at + 4] == y[at..at + 4]
  {
    var a, b, c, d := x[at], x[at + 1], x[at + 2], x[at + 3];
    var a', b', c', d' := y[at], y[at + 1], y[at + 2], y[at + 3];
    assert x[at..at + 4] == [a, b, c, d] && y[at..at + 4] == [a', b', c', d'];
    if QuadAt(x, at) == QuadAt(y, at) {
      DottedInjective(a, NatText(b) + "." + (NatText(c) + "." + NatText(d)), a', NatText(b') + "." + (NatText(c') + "." + NatText(d')));
      DottedInjective(b, NatText(c) + "." + NatText(d), b', NatText(c') + "." + NatText(d'));
      DottedInjective(c, NatText(d), c', NatText(d'));
      NatRoundTrip(d);
      NatRoundTrip(d');
    }
  }

  lemma QuadHasNoColon(a: Byte, b: Byte, c: Byte, d: Byte)
    ensures FreeOf(DottedQuad(a, b, c, d), ':')
  {
    var quad := DottedQuad(a, b, c, d);
    NumeralPlain(NatText(a));
    NumeralPlain(NatText(b));
    NumeralPlain(NatText(c));
    NumeralPlain(NatText(d));
    PlainJoin(NatText(c), NatText(d));
    PlainJoin(NatText(b), NatText(c) + "." + NatText(d));
    PlainJoin(NatText(a), NatText(b) + "." + (NatText(c) + "." + NatText(d)));
  }

  lemma NumeralPlain(s: string)
    requires Numeral(s)
    ensures FreeOf(s, ':')
  {
    forall i | 0 <= i < |s| ensures s[i] != ':' {
      assert IsDigit(s[i]);
    }
  }

  lemma PlainJoin(a: string, b: string)
    requires FreeOf(a, ':') && FreeOf(b, ':')
    ensures FreeOf(a + "." + b, ':')
  {
  }

  /** For IPv6 the first piece is an opening bracket and the first group, or, when the text holds no
      colon, the whole text in its brackets. */
  lemma IPv6FirstPiece(ev: ConnectEvent, ipv6Text: seq<Byte> -> string)
    requires ev.isIPv6 == 1
    ensures var ip := ipv6Text(ev.ipv6Addr);
            FirstPiece(Detail(ev, ipv6Text)) == if FreeOf(ip, ':') then "[" + ip + "]" else "[" + FirstPiece(ip)
  {
    var ip, port := ipv6Text(ev.ipv6Addr), NatText(ev.dstPort);
    if FreeOf(ip, ':') {
      FirstPieceOf("[" + ip + "]", port);
    } else {
      var k := IndexOf(ip, ':');
      var tail := ip[k + 1..] + "]" + ":" + port;
      assert ip == ip[..k] + ":" + ip[k + 1..];
      assert Detail(ev, ipv6Text) == ("[" + ip[..k]) + ":" + tail;
      FirstPieceOf("[" + ip[..k], tail);
    }
  }

  /** The text handed to the firewall is the destination address if and only if the connection is
      IPv4, however the IPv6 address is rendered. */
  lemma FirstPieceIsAddressExactly(ev: ConnectEvent, ipv6Text: seq<Byte> -> string)
    ensures FirstPiece(Detail(ev, ipv6Text)) == AddressText(ev, ipv6Text) <==> ev.isIPv6 != 1
  {
    if ev.isIPv6 == 1 {
      IPv6FirstPiece(ev, ipv6Text);
      var ip := ipv6Text(ev.ipv6Addr);
      var piece := FirstPiece(Detail(ev, ipv6Text));
      assert FreeOf(piece, ':');
      if FreeOf(ip, ':') {
        assert |piece| > |ip|;
      }
    } else {
      var b := Bytes32(ev.dstAddr);
      QuadHasNoColon(b[0], b[1], b[2], b[3]);
      FirstPieceOf(DottedQuad(b[0], b[1], b[2], b[3]), NatText(ev.dstPort));
    }
  }

  // ---- From the call to the firewall ---------------------------------------------------

  /** The family in a sockaddr. */
  function FamilyIn(addr: seq<Byte>): Uint16
    requires |addr| >= 2
  {
    Get16(addr[0], addr[1])
  }

  /** A whole sockaddr of its own family. */
  predicate IsSockaddr(user: seq<Byte>) {
    |user| >= 16 && |user| == AddrSize(FamilyIn(user))
  }

  /** The address a sockaddr names. */
  function DestinationText(user: seq<Byte>, ipv6Text: seq<Byte> -> string): string
    requires IsSockaddr(user)
  {
    if FamilyIn(user) == AF_INET then QuadAt(user, 4) else ipv6Text(user[8..24])
  }

  /** net.IP prints hexadecimal digits, colons and dots: never a bracket in front. */
  ghost predicate Unbracketed(ipv6Text: seq<Byte> -> string) {
    forall b :: ipv6Text(b) == "" || ipv6Text(b)[0] != '['
  }

  /** The probe took the call for IPv4, and the four bytes it recorded print as the address in `user`. */
  ghost predicate ReadRight(family: Uint16, addr: seq<Byte>, user: seq<Byte>, ipv6Text: seq<Byte> -> string)
    requires |addr| == AddrSize(family) && IsSockaddr(user)
  {
    && family == AF_INET
    && (if FamilyIn(user) == AF_INET then addr[4..8] == user[4..8] else QuadAt(addr, 4) == ipv6Text(user[8..24]))
  }

  /** The first piece of a detail that prints the recorded bytes, against the address in the call's
      sockaddr. */
  lemma PieceIsDestinationExactly(piece: string, family: Uint16, addr: seq<Byte>, user: seq<Byte>, ipv6Text: seq<Byte> -> string)
    requires |addr| == AddrSize(family) && IsSockaddr(user) && Unbracketed(ipv6Text)
    requires if family == AF_INET then piece == QuadAt(addr, 4) else piece != "" && piece[0] == '['
    ensures piece == DestinationText(user, ipv6Text) <==> ReadRight(family, addr, user, ipv6Text)
  {
    if family == AF_INET {
      QuadsEqualExactly(addr, user, 4);
    } else {
      DestinationHasNoBracket(user, ipv6Text);
    }
  }

  /** The first piece of a printed record: the dotted quad of the recorded bytes, or a bracket and
      more. */
  lemma PrintedPiece(rec: seq<Byte>, pid: Uint32, uid: Uint32, comm: seq<Byte>, family: Uint16, addr: seq<Byte>, ipv6Text: seq<Byte> -> string)
    requires |addr| == AddrSize(family) && Written(rec, pid, uid, comm, family, addr)
    ensures ReadConnect(rec).Some?
    ensures var piece := FirstPiece(Detail(ReadConnect(rec).value, ipv6Text));
            if family == AF_INET then piece == QuadAt(addr, 4) else piece != "" && piece[0] == '['
  {
    RecordRoundTrip(rec, pid, uid, comm, family, addr);
    if family == AF_INET {
      IPv4DetailRoundTrip(rec, pid, uid, comm, addr, ipv6Text);
    } else {
      IPv6FirstPiece(ReadConnect(rec).value, ipv6Text);
    }
  }

  lemma DestinationHasNoBracket(user: seq<Byte>, ipv6Text: seq<Byte> -> string)
    requires IsSockaddr(user) && Unbracketed(ipv6Text)
    ensures var text := DestinationText(user, ipv6Text);
            text != "" ==> text[0] != '['
  {
    var text := DestinationText(user, ipv6Text);
    if FamilyIn(user) == AF_INET {
      assert IsDigit(NatText(user[4])[0]);
      assert text[0] == NatText(user[4])[0];
    }
  }

  // ---- The baseline's view of IPv4 connections -----------------------------------------

  const IPV4_SHAPE := NUM + "." + (NUM + "." + (NUM + "." + NUM)) + ":" + NUM

  lemma NormalizeLeaf(n: nat, c: char, rest: string)
    requires !IsWord(c)
    ensures Normalize(NatText(n) + [c] + rest) == NUM + [c] + Normalize(rest)
  {
    NormalizeSeparates(NatText(n), c, rest);
    NumeralNormalizes(NatText(n));
  }

  /** Every IPv4 detail, whatever its address and port, normalises to one and the same text. */
  lemma IPv4DetailsCollapse(a: Byte, b: Byte, c: Byte, d: Byte, port: Uint16)
    ensures Normalize(DottedQuad(a, b, c, d) + ":" + NatText(port)) == IPV4_SHAPE
  {
    NormalizeSeparates(DottedQuad(a, b, c, d), ':', NatText(port));
    NumeralNormalizes(NatText(port));
    NormalizeLeaf(a, '.', NatText(b) + "." + (NatText(c) + "." + NatText(d)));
    NormalizeLeaf(b, '.', NatText(c) + "." + NatText(d));
    NormalizeLeaf(c, '.', NatText(d));
    NumeralNormalizes(NatText(d));
  }

  /** So the baseline cannot tell one IPv4 destination of a process from another. */
  lemma IPv4DestinationsShareKey(comm: string, ev1: ConnectEvent, ev2: ConnectEvent, ipv6Text: seq<Byte> -> string)
    requires ev1.isIPv6 != 1 && ev2.isIPv6 != 1
    ensures MakeKey("CONNECT", comm, Detail(ev1, ipv6Text)) == MakeKey("CONNECT", comm, Detail(ev2, ipv6Text))
  {
    var b, d := Bytes32(ev1.dstAddr), Bytes32(ev2.dstAddr);
    IPv4DetailsCollapse(b[0], b[1], b[2], b[3], ev1.dstPort);
    IPv4DetailsCollapse(d[0], d[1], d[2], d[3], ev2.dstPort);
  }
}

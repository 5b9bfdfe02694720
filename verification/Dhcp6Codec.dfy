/**
 The option codec of the DHCPv6 client in NetworkPkg/Dhcp6Dxe/Dhcp6Utility.c: writing an identity
 association (IA) with its addresses, seeking it in an option list and reading the addresses back.
 Sections 22.1, 22.4 and 22.6 of RFC 3315.
 */
module Dhcp6Codec {
  import opened Bytes
  import opened Wrappers

  const DHCP6_OPT_IANA: nat := 3
  const DHCP6_OPT_IA_ADDR: nat := 5
  const INFINITE: nat := 0xFFFF_FFFF
  const ADDR_OPTION_LEN: nat := 28          // code, length, address, two lifetimes

  type Ipv6 = s: seq<byte> | |s| == 16 witness seq(16, _ => 0)

  /** EFI_DHCP6_IA_ADDRESS and the codec's part of EFI_DHCP6_IA. */
  datatype IaAddress = IaAddress(ip: Ipv6, preferred: UINT32, valid: UINT32)
  datatype Ia = Ia(code: UINT16, iaId: UINT32, addresses: seq<IaAddress>)

  // ----- network byte order

  function U16(n: UINT16): (r: seq<byte>)
    ensures |r| == 2
  {
    [n / 256, n % 256]
  }

  function U32(n: UINT32): (r: seq<byte>)
    ensures |r| == 4
  {
    [n / 0x100_0000, n / 0x1_0000 % 256, n / 0x100 % 256, n % 256]
  }

  function U16At(b: seq<byte>, i: nat): (r: UINT16)
    requires i + 2 <= |b|
  {
    var hi: nat, lo: nat := b[i], b[i + 1];
    hi * 256 + lo
  }

  function U32At(b: seq<byte>, i: nat): (r: UINT32)
    requires i + 4 <= |b|
  {
    var b3: nat, b2: nat, b1: nat, b0: nat := b[i], b[i + 1], b[i + 2], b[i + 3];
    b3 * 0x100_0000 + b2 * 0x1_0000 + b1 * 256 + b0
  }

  lemma {:induction false} TwoDigits(x: byte, y: byte)
    ensures BigEndian([x, y]) == 256 * (x as int) + (y as int)
  {
    assert [x, y][..1] == [x] && [x][..0] == [];
    assert BigEndian([x]) == (x as int);
  }

  lemma {:induction false} FourDigits(w: byte, x: byte, y: byte, z: byte)
    ensures BigEndian([w, x, y, z]) == 0x100_0000 * (w as int) + 0x1_0000 * (x as int) + 256 * (y as int) + (z as int)
  {
    assert [w, x, y, z][..3] == [w, x, y] && [w, x, y][..2] == [w, x];
    TwoDigits(w, x);
  }

  /** Both sides of the wire read and write the most significant byte first. */
  lemma {:induction false} NetworkOrder(n: UINT16, m: UINT32, b: seq<byte>, i: nat)
    ensures BigEndian(U16(n)) == n && BigEndian(U32(m)) == m
    ensures i + 2 <= |b| ==> U16At(b, i) == BigEndian(b[i..i + 2])
    ensures i + 4 <= |b| ==> U32At(b, i) == BigEndian(b[i..i + 4])
  {
    TwoDigits(U16(n)[0], U16(n)[1]);
    FourDigits(U32(m)[0], U32(m)[1], U32(m)[2], U32(m)[3]);
    SplitU32(m);
    if i + 2 <= |b| {
      assert b[i..i + 2] == [b[i], b[i + 1]];
      TwoDigits(b[i], b[i + 1]);
    }
    if i + 4 <= |b| {
      assert b[i..i + 4] == [b[i], b[i + 1], b[i + 2], b[i + 3]];
      FourDigits(b[i], b[i + 1], b[i + 2], b[i + 3]);
    }
  }

  /** `data` stands at position `i`. */
  predicate Has(b: seq<byte>, i: nat, data: seq<byte>) {
    i + |data| <= |b| && b[i..i + |data|] == data
  }

  lemma {:induction false} HasBoth(b: seq<byte>, i: nat, x: seq<byte>, y: seq<byte>)
    requires Has(b, i, x + y)
    ensures Has(b, i, x) && Has(b, i + |x|, y)
  {
    var s := b[i..i + |x + y|];
    assert b[i..i + |x|] == s[..|x|] && b[i + |x|..i + |x| + |y|] == s[|x|..];
  }

  lemma {:induction false} ReadU16(b: seq<byte>, i: nat, n: UINT16)
    requires Has(b, i, U16(n))
    ensures i + 2 <= |b| && U16At(b, i) == n
  {
    assert b[i] == b[i..i + 2][0] && b[i + 1] == b[i..i + 2][1];
  }

  lemma {:induction false} ReadU32(b: seq<byte>, i: nat, n: UINT32)
    requires Has(b, i, U32(n))
    ensures i + 4 <= |b| && U32At(b, i) == n
  {
    var s := b[i..i + 4];
    assert b[i] == s[0] && b[i + 1] == s[1] && b[i + 2] == s[2] && b[i + 3] == s[3];
    SplitU32(n);
  }

  lemma {:induction false} SplitU32(n: UINT32)
    ensures n == n / 0x100_0000 * 0x100_0000 + n / 0x1_0000 % 256 * 0x1_0000 + n / 0x100 % 256 * 256 + n % 256
  {
    var a, c := n / 0x100, n / 0x1_0000;
    assert n == a * 256 + n % 256;
    assert c == a / 256 && a == c * 256 + a % 256;
    assert n / 0x100_0000 == c / 256 && c == c / 256 * 256 + c % 256;
  }

  // ----- what is written

  /** Code, length and address of an IA Address option; the length is that of the lifetimes and the address. */
  function AddrHead(a: IaAddress): (r: seq<byte>)
    ensures |r| == 20
  {
    U16(DHCP6_OPT_IA_ADDR) + U16(24) + a.ip
  }

  /** One IA Address option over the bytes `under`: a Confirm leaves the lifetimes as they are. */
  function AddrBytes(a: IaAddress, confirm: bool, under: seq<byte>): (r: seq<byte>)
    requires |under| == ADDR_OPTION_LEN
    ensures |r| == ADDR_OPTION_LEN
  {
    AddrHead(a) + if confirm then under[20..] else U32(a.preferred) + U32(a.valid)
  }

  function AddrsBytes(addrs: seq<IaAddress>, confirm: bool, under: seq<byte>): (r: seq<byte>)
    requires |under| == ADDR_OPTION_LEN * |addrs|
    ensures |r| == |under|
    decreases |addrs|
  {
    if addrs == [] then []
    else
      var n := |addrs| - 1;
      AddrsBytes(addrs[..n], confirm, under[..ADDR_OPTION_LEN * n]) + AddrBytes(addrs[n], confirm, under[ADDR_OPTION_LEN * n..])
  }

  /** The fixed part after the length field. */
  function IaHead(ia: Ia, t1: UINT32, t2: UINT32): (r: seq<byte>)
    ensures |r| == IaHeadLen(ia)
  {
    U32(ia.iaId) + if ia.code == DHCP6_OPT_IANA then U32(if t1 != 0 then t1 else INFINITE) + U32(if t2 != 0 then t2 else INFINITE) else []
  }

  function IaHeadLen(ia: Ia): nat {
    if ia.code == DHCP6_OPT_IANA then 12 else 4
  }

  function IaLen(ia: Ia): nat {
    4 + IaHeadLen(ia) + ADDR_OPTION_LEN * |ia.addresses|
  }

  /** A whole IA option; the length field is a UINT16. */
  function IaBytes(ia: Ia, t1: UINT32, t2: UINT32, confirm: bool, under: seq<byte>): (r: seq<byte>)
    requires |under| == ADDR_OPTION_LEN * |ia.addresses|
    ensures |r| == IaLen(ia)
  {
    U16(ia.code) + U16((IaLen(ia) - 4) % UINT16_LIMIT) + IaHead(ia, t1, t2) + AddrsBytes(ia.addresses, confirm, under)
  }

  /** An IA Address option, octet by octet. */
  lemma {:induction false} AddrOnWire(a: IaAddress, confirm: bool, under: seq<byte>)
    requires |under| == 28
    ensures var r := AddrBytes(a, confirm, under);
            && r[..4] == [0, 5, 0, 24] && r[4..20] == a.ip
            && if confirm then r[20..] == under[20..] else BigEndian(r[20..24]) == a.preferred && BigEndian(r[24..]) == a.valid
  {
    hide U32, BigEndian;
    var r := AddrBytes(a, confirm, under);
    assert r[..4] == U16(5) + U16(24) && r[4..20] == a.ip;
    if !confirm {
      assert r[20..24] == U32(a.preferred) && r[24..] == U32(a.valid);
      NetworkOrder(0, a.preferred, [], 0);
      NetworkOrder(0, a.valid, [], 0);
    }
  }

  /** An IA option, field by field: the length counts what follows it, T1 and T2 come with IA_NA only. */
  lemma {:induction false} IaOnWire(ia: Ia, t1: UINT32, t2: UINT32, confirm: bool, under: seq<byte>)
    requires |under| == 28 * |ia.addresses|
    ensures var r, head := IaBytes(ia, t1, t2, confirm, under), if ia.code == 3 then 16 else 8;
            && |r| == head + 28 * |ia.addresses|
            && BigEndian(r[..2]) == ia.code && BigEndian(r[2..4]) == (|r| - 4) % 0x1_0000 && BigEndian(r[4..8]) == ia.iaId
            && (ia.code == 3 ==>
                  && BigEndian(r[8..12]) == (if t1 > 0 then t1 else 0xFFFF_FFFF)
                  && BigEndian(r[12..16]) == (if t2 > 0 then t2 else 0xFFFF_FFFF))
            && forall k: nat :: k < |ia.addresses| ==>
                  r[head + 28 * k..head + 28 * k + 28] == AddrBytes(ia.addresses[k], confirm, under[28 * k..28 * k + 28])
  {
    hide U16, U32, BigEndian, AddrsBytes, AddrBytes, U16At, U32At;
    var r := IaBytes(ia, t1, t2, confirm, under);
    assert Has(r, 0, r) by { assert r[0..0 + |r|] == r; }
    IaPieces(r, 0, ia, t1, t2, confirm, under);
    NetworkOrder(0, 0, r, 0);
    NetworkOrder(0, 0, r, 2);
    NetworkOrder(0, 0, r, 4);
    if ia.code == 3 {
      NetworkOrder(0, 0, r, 8);
      NetworkOrder(0, 0, r, 12);
    }
    var head := if ia.code == 3 then 16 else 8;
    forall k: nat | k < |ia.addresses| ensures r[head + 28 * k..head + 28 * k + 28] == AddrBytes(ia.addresses[k], confirm, under[28 * k..28 * k + 28]) {
      AddrsBytesAt(r, head, ia.addresses, confirm, under, k);
    }
  }

  // ----- writing

  /** CopyMem or WriteUnaligned into the packet. */
  method Write(buf: array<byte>, pos: nat, data: seq<byte>) returns (next: nat)
    requires pos + |data| <= buf.Length
    modifies buf
    ensures buf[..] == Splice(old(buf[..]), pos, data) && next == pos + |data|
  {
    for i := 0 to |data|
      invariant forall j :: 0 <= j < buf.Length ==> buf[j] == if pos <= j < pos + i then data[j - pos] else old(buf[..])[j]
    {
      buf[pos + i] := data[i];
    }
    next := pos + |data|;
  }

  /** Dhcp6AppendOption. */
  method AppendOption(buf: array<byte>, pos: nat, code: UINT16, data: seq<byte>) returns (next: nat)
    requires 0 < |data| < UINT16_LIMIT && pos + 4 + |data| <= buf.Length
    modifies buf
    ensures buf[..] == Splice(old(buf[..]), pos, U16(code) + U16(|data|) + data) && next == pos + 4 + |data|
  {
    ghost var s := buf[..];
    next := Write(buf, pos, U16(code));
    next := Write(buf, next, U16(|data|));
    SpliceAdjacent(s, pos, U16(code), U16(|data|));
    next := Write(buf, next, data);
    SpliceAdjacent(s, pos, U16(code) + U16(|data|), data);
  }

  /** Dhcp6AppendIaAddrOption. */
  method AppendIaAddrOption(buf: array<byte>, pos: nat, a: IaAddress, confirm: bool) returns (next: nat)
    requires pos + ADDR_OPTION_LEN <= buf.Length
    modifies buf
    ensures buf[..] == Splice(old(buf[..]), pos, AddrBytes(a, confirm, old(buf[pos..pos + ADDR_OPTION_LEN])))
    ensures next == pos + ADDR_OPTION_LEN
  {
    ghost var s := buf[..];
    next := Write(buf, pos, U16(DHCP6_OPT_IA_ADDR));
    next := Write(buf, next, U16(24));
    SpliceAdjacent(s, pos, U16(DHCP6_OPT_IA_ADDR), U16(24));
    next := Write(buf, next, a.ip);
    SpliceAdjacent(s, pos, U16(DHCP6_OPT_IA_ADDR) + U16(24), a.ip);
    if !confirm {
      var lifetime := Write(buf, next, U32(a.preferred));
      SpliceAdjacent(s, pos, AddrHead(a), U32(a.preferred));
      lifetime := Write(buf, lifetime, U32(a.valid));
      SpliceAdjacent(s, pos, AddrHead(a) + U32(a.preferred), U32(a.valid));
      assert AddrHead(a) + U32(a.preferred) + U32(a.valid) == AddrHead(a) + (U32(a.preferred) + U32(a.valid));
    } else {
      SpliceKeeping(s, pos, AddrHead(a), ADDR_OPTION_LEN);
    }
    next := next + 8;
  }

  lemma {:induction false} SpliceKeeping(s: seq<byte>, pos: nat, data: seq<byte>, len: nat)
    requires |data| <= len && pos + len <= |s|
    ensures Splice(s, pos, data) == Splice(s, pos, data + s[pos..pos + len][|data|..])
  {
    assert s[pos..pos + len][|data|..] == s[pos + |data|..pos + len];
    SpliceAdjacent(s, pos, data, s[pos + |data|..pos + len]);
    SpliceSame(Splice(s, pos, data), pos + |data|, s[pos + |data|..pos + len]);
  }

  lemma {:induction false} NoAddressYet(s: seq<byte>, pos: nat, addrs: seq<IaAddress>, confirm: bool)
    requires pos <= |s|
    ensures Splice(s, pos, AddrsBytes(addrs[..0], confirm, s[pos..pos])) == s
  {
    SpliceNothing(s, pos);
  }

  lemma {:induction false} NextAddress(s: seq<byte>, pos: nat, addrs: seq<IaAddress>, confirm: bool, k: nat)
    requires k < |addrs| && pos + ADDR_OPTION_LEN * |addrs| <= |s|
    ensures var at, len := pos + ADDR_OPTION_LEN * k, ADDR_OPTION_LEN * k;
            var s' := Splice(s, pos, AddrsBytes(addrs[..k], confirm, s[pos..pos + len]));
            Splice(s', at, AddrBytes(addrs[k], confirm, s'[at..at + ADDR_OPTION_LEN]))
            == Splice(s, pos, AddrsBytes(addrs[..k + 1], confirm, s[pos..pos + len + ADDR_OPTION_LEN]))
  {
    var at, len := pos + ADDR_OPTION_LEN * k, ADDR_OPTION_LEN * k;
    var done := AddrsBytes(addrs[..k], confirm, s[pos..pos + len]);
    var under := s[pos..pos + len + ADDR_OPTION_LEN];
    SpliceElsewhere(s, pos, done, at, at + ADDR_OPTION_LEN);
    assert addrs[..k + 1][..k] == addrs[..k] && under[..len] == s[pos..pos + len] && under[len..] == s[at..at + ADDR_OPTION_LEN];
    SpliceAdjacent(s, pos, done, AddrBytes(addrs[k], confirm, s[at..at + ADDR_OPTION_LEN]));
  }

  /** The loop of Dhcp6AppendIaOption over the addresses. */
  method AppendAddresses(buf: array<byte>, pos: nat, addrs: seq<IaAddress>, confirm: bool) returns (next: nat)
    requires pos + ADDR_OPTION_LEN * |addrs| <= buf.Length
    modifies buf
    ensures next == pos + ADDR_OPTION_LEN * |addrs|
    ensures buf[..] == Splice(old(buf[..]), pos, AddrsBytes(addrs, confirm, old(buf[pos..pos + ADDR_OPTION_LEN * |addrs|])))
  {
    hide AddrsBytes, Splice;
    ghost var s := buf[..];
    next := pos;
    var index := 0;
    NoAddressYet(s, pos, addrs, confirm);
    while index < |addrs|
      invariant 0 <= index <= |addrs| && next == pos + ADDR_OPTION_LEN * index
      invariant buf[..] == Splice(s, pos, AddrsBytes(addrs[..index], confirm, s[pos..next]))
    {
      NextAddress(s, pos, addrs, confirm, index);
      ghost var s' := buf[..];
      assert buf[next..next + ADDR_OPTION_LEN] == s'[next..next + ADDR_OPTION_LEN];
      next := AppendIaAddrOption(buf, next, addrs[index], confirm);
      index := index + 1;
    }
    assert addrs[..index] == addrs;
    assert old(buf[pos..pos + ADDR_OPTION_LEN * |addrs|]) == s[pos..next];
  }

  lemma {:induction false} FillGap(s: seq<byte>, pos: nat, a: seq<byte>, b: seq<byte>, c: seq<byte>)
    requires pos + |a| + |b| + |c| <= |s|
    ensures Splice(Splice(Splice(s, pos, a), pos + |a| + |b|, c), pos + |a|, b) == Splice(s, pos, a + b + c)
  {
  }

  /** The IAID and, for IA_NA, T1 and T2; a zero time is written as infinity. */
  method AppendIaHead(buf: array<byte>, pos: nat, ia: Ia, t1: UINT32, t2: UINT32) returns (next: nat)
    requires pos + IaHeadLen(ia) <= buf.Length
    modifies buf
    ensures next == pos + IaHeadLen(ia) && buf[..] == Splice(old(buf[..]), pos, IaHead(ia, t1, t2))
  {
    ghost var s := buf[..];
    next := Write(buf, pos, U32(ia.iaId));
    if ia.code == DHCP6_OPT_IANA {
      var e1: UINT32, e2: UINT32 := if t1 != 0 then t1 else INFINITE, if t2 != 0 then t2 else INFINITE;
      next := Write(buf, next, U32(e1));
      SpliceAdjacent(s, pos, U32(ia.iaId), U32(e1));
      next := Write(buf, next, U32(e2));
      SpliceAdjacent(s, pos, U32(ia.iaId) + U32(e1), U32(e2));
      assert IaHead(ia, t1, t2) == U32(ia.iaId) + U32(e1) + U32(e2);
    } else {
      assert IaHead(ia, t1, t2) == U32(ia.iaId);
    }
  }

  /** The three writes around the length field, and the length field, are one write. */
  lemma {:induction false} IaAssembled(s: seq<byte>, pos: nat, ia: Ia, t1: UINT32, t2: UINT32, confirm: bool, under: seq<byte>)
    requires pos + IaLen(ia) <= |s| && |under| == ADDR_OPTION_LEN * |ia.addresses|
    ensures var s1 := Splice(Splice(s, pos, U16(ia.code)), pos + 4, IaHead(ia, t1, t2));
            var s2 := Splice(s1, pos + 4 + IaHeadLen(ia), AddrsBytes(ia.addresses, confirm, under));
            Splice(s2, pos + 2, U16((IaLen(ia) - 4) % UINT16_LIMIT)) == Splice(s, pos, IaBytes(ia, t1, t2, confirm, under))
  {
    hide U16, U32, IaHead, AddrsBytes;
    var code, len, head, addrs := U16(ia.code), U16((IaLen(ia) - 4) % UINT16_LIMIT), IaHead(ia, t1, t2), AddrsBytes(ia.addresses, confirm, under);
    SpliceAdjacent(Splice(s, pos, code), pos + 4, head, addrs);
    FillGap(s, pos, code, len, head + addrs);
    assert IaBytes(ia, t1, t2, confirm, under) == code + len + (head + addrs);
  }

  /** Dhcp6AppendIaOption: the length field is filled in last. */
  method AppendIaOption(buf: array<byte>, pos: nat, ia: Ia, t1: UINT32, t2: UINT32, confirm: bool) returns (next: nat)
    requires pos + IaLen(ia) <= buf.Length
    modifies buf
    ensures next == pos + IaLen(ia)
    ensures buf[..] == Splice(old(buf[..]), pos, IaBytes(ia, t1, t2, confirm, old(buf[pos + 4 + IaHeadLen(ia)..pos + IaLen(ia)])))
  {
    hide U16, U32, IaHead, AddrsBytes, IaBytes;
    ghost var s, under := buf[..], buf[pos + 4 + IaHeadLen(ia)..pos + IaLen(ia)];
    next := Write(buf, pos, U16(ia.code));
    ghost var s1 := buf[..];
    var len := next;
    next := AppendIaHead(buf, next + 2, ia, t1, t2);
    SpliceElsewhere(s, pos, U16(ia.code), next, pos + IaLen(ia));
    SpliceElsewhere(s1, pos + 4, IaHead(ia, t1, t2), next, pos + IaLen(ia));
    ghost var s2 := buf[..];
    assert s2[next..pos + IaLen(ia)] == under;
    next := AppendAddresses(buf, next, ia.addresses, confirm);
    var ignored := Write(buf, len, U16((next - len - 2) % UINT16_LIMIT));
    IaAssembled(s, pos, ia, t1, t2, confirm, under);
  }

  // ----- seeking

  /** Dhcp6SeekOption and Dhcp6SeekIaOption walk the list by the length fields; the first match wins. */
  function SeekFrom(b: seq<byte>, cursor: nat, end: nat, code: UINT16, iaId: Option<UINT32>): Option<nat>
    requires end + 7 <= |b|
    decreases if cursor < end then end - cursor else 0
  {
    if cursor >= end then None
    else if U16At(b, cursor) == code && (iaId == None || U32At(b, cursor + 4) == iaId.value) then Some(cursor)
    else SeekFrom(b, cursor + U16At(b, cursor + 2) + 4, end, code, iaId)
  }

  /** Dhcp6SeekOption over memory in which the bytes up to the one just past the list can be read. */
  method SeekOption(b: seq<byte>, start: nat, len: nat, code: UINT16) returns (option: Option<nat>)
    requires start + len + 7 <= |b|
    ensures option == SeekFrom(b, start, start + len, code, None)
  {
    option := None;
    var cursor := start;
    while cursor < start + len
      invariant option == None && SeekFrom(b, start, start + len, code, None) == SeekFrom(b, cursor, start + len, code, None)
      decreases if cursor < start + len then start + len - cursor else 0
    {
      if U16At(b, cursor) == code {
        return Some(cursor);
      }
      cursor := cursor + U16At(b, cursor + 2) + 4;
    }
  }

  /** Dhcp6SeekIaOption. */
  method SeekIaOption(b: seq<byte>, start: nat, len: nat, code: UINT16, iaId: UINT32) returns (option: Option<nat>)
    requires start + len + 7 <= |b|
    ensures option == SeekFrom(b, start, start + len, code, Some(iaId))
  {
    option := None;
    var cursor := start;
    while cursor < start + len
      invariant option == None && SeekFrom(b, start, start + len, code, Some(iaId)) == SeekFrom(b, cursor, start + len, code, Some(iaId))
      decreases if cursor < start + len then start + len - cursor else 0
    {
      if U16At(b, cursor) == code && U32At(b, cursor + 4) == iaId {
        return Some(cursor);
      }
      cursor := cursor + U16At(b, cursor + 2) + 4;
    }
  }

  // ----- parsing addresses

  predicate Holds(current: seq<IaAddress>, ip: Ipv6) {
    exists k :: 0 <= k < |current| && current[k].ip == ip
  }

  /** Dhcp6AddrIsInCurrentIa. */
  method AddrIsInCurrentIa(ip: Ipv6, current: seq<IaAddress>) returns (r: bool)
    ensures r == Holds(current, ip)
  {
    for index := 0 to |current|
      invariant forall k :: 0 <= k < index ==> current[k].ip != ip
    {
      if current[index].ip == ip {
        return true;
      }
    }
    r := false;
  }

  /** Section 18.1.8 of RFC 3315: lifetimes must make sense; a zero lifetime only updates a known address. */
  predicate Keeps(current: seq<IaAddress>, a: IaAddress) {
    a.valid >= a.preferred && (Holds(current, a.ip) || a.valid != 0)
  }

  function AddrAt(b: seq<byte>, i: nat): IaAddress
    requires i + ADDR_OPTION_LEN <= |b|
  {
    IaAddress(b[i + 4..i + 20], U32At(b, i + 20), U32At(b, i + 24))
  }

  function ParseFrom(current: seq<IaAddress>, b: seq<byte>, cursor: nat, end: nat): seq<IaAddress>
    requires end + ADDR_OPTION_LEN - 1 <= |b|
    decreases if cursor < end then end - cursor else 0
  {
    if cursor >= end then []
    else (if U16At(b, cursor) == DHCP6_OPT_IA_ADDR && Keeps(current, AddrAt(b, cursor)) then [AddrAt(b, cursor)] else [])
         + ParseFrom(current, b, cursor + U16At(b, cursor + 2) + 4, end)
  }

  lemma {:induction false} ParseOne(current: seq<IaAddress>, b: seq<byte>, cursor: nat, end: nat)
    requires end + ADDR_OPTION_LEN - 1 <= |b| && cursor < end
    ensures var a, rest := AddrAt(b, cursor), ParseFrom(current, b, cursor + U16At(b, cursor + 2) + 4, end);
            ParseFrom(current, b, cursor, end)
            == if U16At(b, cursor) == DHCP6_OPT_IA_ADDR && a.valid >= a.preferred && (Holds(current, a.ip) || a.valid != 0) then [a] + rest else rest
  {
    hide Holds, U16At, AddrAt;
  }

  lemma {:induction false} ParseEnds(current: seq<IaAddress>, b: seq<byte>, cursor: nat, end: nat)
    requires end + ADDR_OPTION_LEN - 1 <= |b| && cursor >= end
    ensures ParseFrom(current, b, cursor, end) == []
  {
  }

  lemma {:induction false} NextOf(all: seq<IaAddress>, k: nat, a: IaAddress, rest: seq<IaAddress>)
    requires k <= |all| && all[k..] == [a] + rest
    ensures k < |all| && all[k] == a && all[k + 1..] == rest
  {
    assert all[k] == all[k..][0];
    assert all[k + 1..] == all[k..][1..];
  }

  /** Dhcp6ParseAddrOption: a first pass counts the addresses, a second one fills a buffer of that size. */
  method ParseAddrOption(current: seq<IaAddress>, b: seq<byte>, start: nat, len: nat, addrBuf: array?<IaAddress>) returns (addrNum: nat)
    requires start + len + ADDR_OPTION_LEN - 1 <= |b|
    requires addrBuf != null ==> addrBuf.Length == |ParseFrom(current, b, start, start + len)|
    modifies addrBuf
    ensures addrNum == |ParseFrom(current, b, start, start + len)|
    ensures addrBuf != null ==> addrBuf[..] == ParseFrom(current, b, start, start + len)
  {
    hide U16At, U32At, AddrAt, Holds, ParseFrom;
    ghost var all := ParseFrom(current, b, start, start + len);
    var cursor := start;
    addrNum := 0;
    while cursor < start + len
      invariant addrNum <= |all| && all[addrNum..] == ParseFrom(current, b, cursor, start + len)
      invariant addrBuf != null ==> forall k :: 0 <= k < addrNum ==> addrBuf[k] == all[k]
      decreases if cursor < start + len then start + len - cursor else 0
    {
      var code, a := U16At(b, cursor), AddrAt(b, cursor);
      var known := AddrIsInCurrentIa(a.ip, current);
      ParseOne(current, b, cursor, start + len);
      ghost var rest := ParseFrom(current, b, cursor + U16At(b, cursor + 2) + 4, start + len);
      if code == DHCP6_OPT_IA_ADDR && a.valid >= a.preferred && (known || a.valid != 0) {
        NextOf(all, addrNum, a, rest);
        if addrBuf != null {
          addrBuf[addrNum] := a;
        }
        addrNum := addrNum + 1;
      }
      cursor := cursor + U16At(b, cursor + 2) + 4;
    }
    ParseEnds(current, b, cursor, start + len);
    assert all[..addrNum] == all;
  }

  // ----- the round trip

  /** The addresses a parse of `addrs` reports. */
  function Kept(current: seq<IaAddress>, addrs: seq<IaAddress>): seq<IaAddress> {
    if addrs == [] then [] else (if Keeps(current, addrs[0]) then [addrs[0]] else []) + Kept(current, addrs[1..])
  }

  lemma {:induction false} KeptAll(current: seq<IaAddress>, addrs: seq<IaAddress>)
    requires forall k :: 0 <= k < |addrs| ==> Keeps(current, addrs[k])
    ensures Kept(current, addrs) == addrs
  {
    if addrs != [] { KeptAll(current, addrs[1..]); }
  }

  lemma {:induction false} AddrsBytesAt(b: seq<byte>, at: nat, addrs: seq<IaAddress>, confirm: bool, under: seq<byte>, k: nat)
    requires |under| == ADDR_OPTION_LEN * |addrs| && k < |addrs| && Has(b, at, AddrsBytes(addrs, confirm, under))
    ensures var lo := ADDR_OPTION_LEN * k; Has(b, at + lo, AddrBytes(addrs[k], confirm, under[lo..lo + ADDR_OPTION_LEN]))
    decreases |addrs|
  {
    hide AddrBytes, Has;
    var n := |addrs| - 1;
    var cut := ADDR_OPTION_LEN * n;
    HasBoth(b, at, AddrsBytes(addrs[..n], confirm, under[..cut]), AddrBytes(addrs[n], confirm, under[cut..]));
    if k < n {
      AddrsBytesAt(b, at, addrs[..n], confirm, under[..cut], k);
      var lo := ADDR_OPTION_LEN * k;
      assert under[..cut][lo..lo + ADDR_OPTION_LEN] == under[lo..lo + ADDR_OPTION_LEN];
    } else {
      assert under[cut..] == under[cut..cut + ADDR_OPTION_LEN];
    }
  }

  lemma {:induction false} LifetimesReadBack(b: seq<byte>, i: nat, under: seq<byte>)
    requires |under| == ADDR_OPTION_LEN && Has(b, i + 20, under[20..]) && i + ADDR_OPTION_LEN <= |b|
    ensures U32At(b, i + 20) == U32At(under, 20) && U32At(b, i + 24) == U32At(under, 24)
  {
    var s, r := b[i + 20..i + 28], under[20..];
    assert forall j :: 0 <= j < 8 ==> b[i + 20 + j] == s[j] == r[j] == under[20 + j];
  }

  /** An IA Address option reads back as written; after a Confirm the lifetimes are what was there before. */
  lemma {:induction false} AddrReadsBack(b: seq<byte>, i: nat, a: IaAddress, confirm: bool, under: seq<byte>)
    requires |under| == ADDR_OPTION_LEN && Has(b, i, AddrBytes(a, confirm, under))
    ensures i + ADDR_OPTION_LEN <= |b|
    ensures U16At(b, i) == DHCP6_OPT_IA_ADDR && U16At(b, i + 2) + 4 == ADDR_OPTION_LEN && AddrAt(b, i).ip == a.ip
    ensures !confirm ==> AddrAt(b, i) == a
    ensures confirm ==> AddrAt(b, i).preferred == U32At(under, 20) && AddrAt(b, i).valid == U32At(under, 24)
  {
    hide U16, U32, U16At, U32At;
    HasBoth(b, i, AddrHead(a), if confirm then under[20..] else U32(a.preferred) + U32(a.valid));
    HasBoth(b, i, U16(DHCP6_OPT_IA_ADDR) + U16(24), a.ip);
    HasBoth(b, i, U16(DHCP6_OPT_IA_ADDR), U16(24));
    ReadU16(b, i, DHCP6_OPT_IA_ADDR);
    ReadU16(b, i + 2, 24);
    if confirm {
      LifetimesReadBack(b, i, under);
    } else {
      HasBoth(b, i + 20, U32(a.preferred), U32(a.valid));
      ReadU32(b, i + 20, a.preferred);
      ReadU32(b, i + 24, a.valid);
    }
  }

  /** Parsing written addresses, from the `k`-th on. */
  lemma {:induction false} ParseWritten(current: seq<IaAddress>, b: seq<byte>, at: nat, addrs: seq<IaAddress>, under: seq<byte>, k: nat)
    requires |under| == ADDR_OPTION_LEN * |addrs| && at + |under| + ADDR_OPTION_LEN - 1 <= |b| && k <= |addrs|
    requires Has(b, at, AddrsBytes(addrs, false, under))
    ensures ParseFrom(current, b, at + ADDR_OPTION_LEN * k, at + |under|) == Kept(current, addrs[k..])
    decreases |addrs| - k
  {
    hide AddrsBytes, AddrBytes, Keeps, U16At, AddrAt, Has;
    if k < |addrs| {
      var lo := ADDR_OPTION_LEN * k;
      AddrsBytesAt(b, at, addrs, false, under, k);
      AddrReadsBack(b, at + lo, addrs[k], false, under[lo..lo + ADDR_OPTION_LEN]);
      ParseWritten(current, b, at, addrs, under, k + 1);
      assert addrs[k..][1..] == addrs[k + 1..];
    }
  }

  /** An option as it stands in a list. */
  datatype RawOption = RawOption(code: UINT16, data: seq<byte>)

  function OptionBytes(o: RawOption): seq<byte>
    requires |o.data| < UINT16_LIMIT
  {
    U16(o.code) + U16(|o.data|) + o.data
  }

  predicate Sized(opts: seq<RawOption>) {
    forall k :: 0 <= k < |opts| ==> |opts[k].data| < UINT16_LIMIT
  }

  function ListBytes(opts: seq<RawOption>): seq<byte>
    requires Sized(opts)
  {
    if opts == [] then [] else OptionBytes(opts[0]) + ListBytes(opts[1..])
  }

  /** The option cannot be taken for the one sought: another code, or another IAID. */
  predicate Differs(o: RawOption, code: UINT16, iaId: Option<UINT32>) {
    o.code != code || (iaId.Some? && |o.data| >= 4 && U32At(o.data, 0) != iaId.value)
  }

  lemma {:induction false} SameU32(b: seq<byte>, i: nat, data: seq<byte>)
    requires Has(b, i, data) && |data| >= 4
    ensures U32At(b, i) == U32At(data, 0)
  {
    var s := b[i..i + |data|];
    assert forall j :: 0 <= j < 4 ==> b[i + j] == s[j];
  }

  lemma {:induction false} OptionReadsBack(b: seq<byte>, i: nat, o: RawOption)
    requires |o.data| < UINT16_LIMIT && Has(b, i, OptionBytes(o))
    ensures i + 4 + |o.data| <= |b| && U16At(b, i) == o.code && U16At(b, i + 2) == |o.data| && Has(b, i + 4, o.data)
    ensures |o.data| >= 4 ==> U32At(b, i + 4) == U32At(o.data, 0)
  {
    hide U16, U16At, U32At;
    HasBoth(b, i, U16(o.code) + U16(|o.data|), o.data);
    HasBoth(b, i, U16(o.code), U16(|o.data|));
    ReadU16(b, i, o.code);
    ReadU16(b, i + 2, |o.data|);
    if |o.data| >= 4 { SameU32(b, i + 4, o.data); }
  }

  /** A seek passes over every option that differs and stops at the first byte after them. */
  lemma {:induction false} SeekPasses(b: seq<byte>, start: nat, end: nat, opts: seq<RawOption>, code: UINT16, iaId: Option<UINT32>)
    requires Sized(opts) && start + |ListBytes(opts)| <= end && end + 7 <= |b| && Has(b, start, ListBytes(opts))
    requires forall k :: 0 <= k < |opts| ==> Differs(opts[k], code, iaId)
    ensures SeekFrom(b, start, end, code, iaId) == SeekFrom(b, start + |ListBytes(opts)|, end, code, iaId)
    decreases |opts|
  {
    hide U16, U16At, U32At, Has;
    if opts != [] {
      var o, rest := opts[0], opts[1..];
      HasBoth(b, start, OptionBytes(o), ListBytes(rest));
      OptionReadsBack(b, start, o);
      assert Differs(opts[0], code, iaId);
      SeekPasses(b, start + 4 + |o.data|, end, rest, code, iaId);
    }
  }

  /** An option written by Dhcp6AppendOption is found again behind options with other codes. */
  lemma {:induction false} OptionRoundTrip(b: seq<byte>, start: nat, end: nat, before: seq<RawOption>, o: RawOption)
    requires Sized(before) && |o.data| < UINT16_LIMIT && end + 7 <= |b|
    requires start + |ListBytes(before)| + 4 + |o.data| <= end && Has(b, start, ListBytes(before) + OptionBytes(o))
    requires forall k :: 0 <= k < |before| ==> before[k].code != o.code
    ensures var at := start + |ListBytes(before)|;
            && SeekFrom(b, start, end, o.code, None) == Some(at)
            && U16At(b, at + 2) == |o.data| && b[at + 4..at + 4 + |o.data|] == o.data
  {
    hide U16, U16At, U32At, ListBytes, OptionBytes;
    HasBoth(b, start, ListBytes(before), OptionBytes(o));
    SeekPasses(b, start, end, before, o.code, None);
    OptionReadsBack(b, start + |ListBytes(before)|, o);
  }

  /** The parts of a written IA option. */
  lemma {:induction false} IaPieces(b: seq<byte>, at: nat, ia: Ia, t1: UINT32, t2: UINT32, confirm: bool, under: seq<byte>)
    requires |under| == ADDR_OPTION_LEN * |ia.addresses| && Has(b, at, IaBytes(ia, t1, t2, confirm, under))
    ensures at + IaLen(ia) <= |b|
    ensures U16At(b, at) == ia.code && U16At(b, at + 2) == (IaLen(ia) - 4) % UINT16_LIMIT && U32At(b, at + 4) == ia.iaId
    ensures ia.code == DHCP6_OPT_IANA ==>
      && U32At(b, at + 8) == (if t1 != 0 then t1 else INFINITE) && U32At(b, at + 12) == (if t2 != 0 then t2 else INFINITE)
    ensures Has(b, at + 4 + IaHeadLen(ia), AddrsBytes(ia.addresses, confirm, under))
  {
    hide U16, U32, U16At, U32At, AddrsBytes, Has;
    var len: UINT16 := (IaLen(ia) - 4) % UINT16_LIMIT;
    HasFits(b, at, IaBytes(ia, t1, t2, confirm, under));
    HasBoth(b, at, U16(ia.code) + U16(len) + IaHead(ia, t1, t2), AddrsBytes(ia.addresses, confirm, under));
    HasBoth(b, at, U16(ia.code) + U16(len), IaHead(ia, t1, t2));
    HasBoth(b, at, U16(ia.code), U16(len));
    ReadU16(b, at, ia.code);
    ReadU16(b, at + 2, len);
    if ia.code == DHCP6_OPT_IANA {
      var e1: UINT32, e2: UINT32 := if t1 != 0 then t1 else INFINITE, if t2 != 0 then t2 else INFINITE;
      HasBoth(b, at + 4, U32(ia.iaId), U32(e1) + U32(e2));
      HasBoth(b, at + 8, U32(e1), U32(e2));
      ReadU32(b, at + 8, e1);
      ReadU32(b, at + 12, e2);
    } else {
      HasBoth(b, at + 4, U32(ia.iaId), []);
    }
    ReadU32(b, at + 4, ia.iaId);
  }

  /** What Dhcp6AppendOption or Dhcp6AppendIaOption wrote behind a list stands there as part of the list. */
  lemma {:induction false} AppendedStands(s: seq<byte>, start: nat, before: seq<byte>, data: seq<byte>)
    requires Has(s, start, before) && start + |before| + |data| <= |s|
    ensures Has(Splice(s, start + |before|, data), start, before + data)
  {
    var s' := Splice(s, start + |before|, data);
    SpliceElsewhere(s, start + |before|, data, start, start + |before|);
    SpliceAt(s, start + |before|, data);
    SliceExtend(s', start, |before|, |data|);
  }

  lemma {:induction false} HasFits(b: seq<byte>, i: nat, data: seq<byte>)
    requires Has(b, i, data)
    ensures i + |data| <= |b|
  {
  }

  /** The length of the addresses in an IA option, by its length field, as Dhcp6UpdateIaInfo takes it. */
  function AddressesLen(b: seq<byte>, at: nat, ia: Ia): UINT16
    requires at + 4 <= |b|
  {
    (U16At(b, at + 2) - IaHeadLen(ia)) % UINT16_LIMIT
  }

  lemma {:induction false} LengthFieldHolds(ia: Ia)
    ensures (IaLen(ia) - 4) % UINT16_LIMIT == IaLen(ia) - 4 <==> |ia.addresses| <= 2340
    ensures ((IaLen(ia) - 4) % UINT16_LIMIT - IaHeadLen(ia)) % UINT16_LIMIT == ADDR_OPTION_LEN * |ia.addresses| <==> |ia.addresses| <= 2340
  {
  }

  /**
   An IA written at any place of an option list is found by its type and IAID, and its times read back. The
   length field is right exactly if the IA has at most 2340 addresses.
   */
  lemma {:induction false} IaIsFound(b: seq<byte>, start: nat, end: nat, before: seq<RawOption>, ia: Ia, t1: UINT32, t2: UINT32, confirm: bool, under: seq<byte>)
    requires Sized(before) && |under| == ADDR_OPTION_LEN * |ia.addresses|
    requires start + |ListBytes(before)| + IaLen(ia) <= end && end + 7 <= |b|
    requires Has(b, start, ListBytes(before) + IaBytes(ia, t1, t2, confirm, under))
    requires forall k :: 0 <= k < |before| ==> Differs(before[k], ia.code, Some(ia.iaId))
    ensures var at := start + |ListBytes(before)|;
            && SeekFrom(b, start, end, ia.code, Some(ia.iaId)) == Some(at)
            && (U16At(b, at + 2) == IaLen(ia) - 4 <==> |ia.addresses| <= 2340)
            && (AddressesLen(b, at, ia) == |under| <==> |ia.addresses| <= 2340)
            && (ia.code == DHCP6_OPT_IANA ==>
                  U32At(b, at + 8) == (if t1 != 0 then t1 else INFINITE) && U32At(b, at + 12) == (if t2 != 0 then t2 else INFINITE))
            && Has(b, at + 4 + IaHeadLen(ia), AddrsBytes(ia.addresses, confirm, under))
  {
    hide IaBytes, AddrsBytes, U16At, U32At, ListBytes, Has;
    HasBoth(b, start, ListBytes(before), IaBytes(ia, t1, t2, confirm, under));
    SeekPasses(b, start, end, before, ia.code, Some(ia.iaId));
    IaPieces(b, start + |ListBytes(before)|, ia, t1, t2, confirm, under);
    LengthFieldHolds(ia);
  }

  /** The lifetimes make sense, and a zero valid lifetime only concerns an address that is known. */
  predicate Acceptable(current: seq<IaAddress>, a: IaAddress) {
    a.preferred <= a.valid && (a.valid > 0 || exists k :: 0 <= k < |current| && current[k].ip == a.ip)
  }

  /** Every acceptable address is reported as often as it stands there, and no other one. */
  lemma {:induction false} KeptCounts(current: seq<IaAddress>, addrs: seq<IaAddress>, a: IaAddress)
    ensures multiset(Kept(current, addrs))[a] == if Acceptable(current, a) then multiset(addrs)[a] else 0
  {
    if addrs != [] {
      assert addrs == [addrs[0]] + addrs[1..];
      KeptCounts(current, addrs[1..], a);
    }
  }

  predicate AllUsable(addrs: seq<IaAddress>) {
    forall k :: 0 <= k < |addrs| ==> addrs[k].valid >= addrs[k].preferred && addrs[k].valid > 0
  }

  /**
   The round trip for messages other than Confirm: the IA is found, and with at most 2340 addresses its length
   is the one written; then the parser returns the addresses it keeps at all, with their lifetimes and in
   order, which is every address if all lifetimes make sense and are positive.
   */
  lemma {:induction false} IaRoundTrip(b: seq<byte>, start: nat, end: nat, before: seq<RawOption>, ia: Ia, t1: UINT32, t2: UINT32, under: seq<byte>, current: seq<IaAddress>)
    requires Sized(before) && |under| == ADDR_OPTION_LEN * |ia.addresses|
    requires start + |ListBytes(before)| + IaLen(ia) <= end && end + ADDR_OPTION_LEN - 1 <= |b|
    requires Has(b, start, ListBytes(before) + IaBytes(ia, t1, t2, false, under))
    requires forall k :: 0 <= k < |before| ==> Differs(before[k], ia.code, Some(ia.iaId))
    ensures SeekFrom(b, start, end, ia.code, Some(ia.iaId)) == Some(start + |ListBytes(before)|)
    ensures var at := start + |ListBytes(before)|;
            && (AddressesLen(b, at, ia) == |under| <==> |ia.addresses| <= 2340)
            && (|ia.addresses| <= 2340 ==>
                  var inner := at + 4 + IaHeadLen(ia);
                  var parsed := ParseFrom(current, b, inner, inner + AddressesLen(b, at, ia));
                  && parsed == Kept(current, ia.addresses) && (AllUsable(ia.addresses) ==> parsed == ia.addresses)
                  && forall a: IaAddress :: multiset(parsed)[a] == if Acceptable(current, a) then multiset(ia.addresses)[a] else 0)
  {
    hide IaBytes, AddrsBytes, U16At, U32At, ListBytes, Has, ParseFrom, Kept, AllUsable, Acceptable;
    IaIsFound(b, start, end, before, ia, t1, t2, false, under);
    ParseWritten(current, b, start + |ListBytes(before)| + 4 + IaHeadLen(ia), ia.addresses, under, 0);
    assert ia.addresses[0..] == ia.addresses;
    if AllUsable(ia.addresses) { UsableIsKept(current, ia.addresses); }
    forall a: IaAddress ensures multiset(Kept(current, ia.addresses))[a] == if Acceptable(current, a) then multiset(ia.addresses)[a] else 0 {
      KeptCounts(current, ia.addresses, a);
    }
  }

  lemma {:induction false} UsableIsKept(current: seq<IaAddress>, addrs: seq<IaAddress>)
    requires AllUsable(addrs)
    ensures Kept(current, addrs) == addrs
  {
    KeptAll(current, addrs);
  }
}

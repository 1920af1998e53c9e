/** IP, UDP and TCP headers: what the builders produce is what the standards ask
    for, and passes the matching checksum test at the receiver. */
module Headers {
  import opened Words
  import opened Checksum
  import opened ChecksumIov

  /** A 16-bit value as stored, and its network byte order (htons). */
  function Stored(w: U16): (b: seq<U8>)
    ensures |b| == 2
  {
    [w % 0x100, w / 0x100]
  }

  function Swap16(w: U16): (r: U16) { w % 0x100 * 0x100 + w / 0x100 }

  /** The 16-bit value stored at k. */
  function Load(b: seq<U8>, k: nat): (w: U16)
    requires k + 2 <= |b|
  {
    b[k] as int + 0x100 * b[k + 1] as int
  }

  /** The 16-bit value at k in network byte order. */
  function NetAt(b: seq<U8>, k: nat): (w: U16)
    requires k + 2 <= |b|
  {
    0x100 * b[k] as int + b[k + 1] as int
  }

  lemma SwapLoad(b: seq<U8>, k: nat)
    requires k + 2 <= |b|
    ensures Swap16(Load(b, k)) == NetAt(b, k)
  {
    DivModUnique(Load(b, k), 0x100, b[k + 1] as int, b[k] as int);
  }

  lemma SwapStored(w: U16)
    ensures Stored(Swap16(w)) == [w / 0x100, w % 0x100]
  {
    DivModUnique(Swap16(w), 0x100, w % 0x100, w / 0x100);
  }

  function Complement(w: U16): (r: U16) { 0xFFFF - w }

  const UDP_PROTO: nat := 0x1100
  const TCP_PROTO: nat := 0x0600

  /** Puts a stored 16-bit value into a header. */
  function SetWord(h: seq<U8>, k: nat, w: U16): (r: seq<U8>)
    requires k + 2 <= |h|
    ensures |r| == |h|
  {
    h[..k] + Stored(w) + h[k + 2..]
  }

  lemma StoredSum(w: U16)
    ensures WordSum(Stored(w)) == w
  {
    assert Stored(w)[2..] == [];
  }

  lemma NoSum()
    ensures WordSum([0, 0]) == 0
  {
    assert [0 as U8, 0][2..] == [];
  }

  lemma SetWordSum(h: seq<U8>, k: nat, w: U16)
    requires k + 2 <= |h| && k % 2 == 0 && h[k] == 0 && h[k + 1] == 0
    ensures WordSum(SetWord(h, k, w)) == WordSum(h) + w
  {
    hide WordSum, Stored;
    var front, tail := h[..k], h[k + 2..];
    var none: seq<U8> := [0, 0];
    assert h == front + (none + tail);
    assert SetWord(h, k, w) == front + (Stored(w) + tail);
    SplitEven(front, none + tail);
    SplitEven(front, Stored(w) + tail);
    SplitEven(none, tail);
    SplitEven(Stored(w), tail);
    StoredSum(w);
    NoSum();
  }

  /** A non-zero sum and the complement of its checksum fold to all ones. */
  lemma ComplementFolds(s: nat, c: U16)
    requires 0 < s && c == Complement(Folded(s))
    ensures Folded(s + c) == 0xFFFF
  {
    var q := (s - 1) / 0xFFFF;
    assert s + c == 0xFFFF * (q + 1);
    assert s + c - 1 == 0xFFFF * q + 0xFFFE;
  }

  /** The checksum written into the zero field of an even-length header makes the
      whole - pseudo-header, header and data - fold to all ones. */
  lemma FieldWorks(base: nat, h: seq<U8>, k: nat, data: nat, c: U16)
    requires k + 2 <= |h| && k % 2 == 0 && h[k] == 0 && h[k + 1] == 0
    requires 0 < base + WordSum(h) + data && c == Complement(Folded(base + WordSum(h) + data))
    ensures Folded(base + WordSum(SetWord(h, k, c)) + data) == 0xFFFF
  {
    hide Folded, WordSum;
    SetWordSum(h, k, c);
    ComplementFolds(base + WordSum(h) + data, c);
  }

  lemma FoldedSame(s: nat)
    ensures SameSum(Folded(s), s)
  {
    if 0 < s {
      var q := (s - 1) / 0xFFFF;
      assert s == Folded(s) + 0xFFFF * q;
      MultipleOfOnes(Folded(s), q);
    }
  }

  /** Folding part of a sum early changes nothing. */
  lemma FoldEarly(x: nat, y: nat)
    ensures Folded(Folded(x) + y) == Folded(x + y)
  {
    FoldedSame(x);
    SameSumAdd(Folded(x), x, y, y);
    SameFolded(Folded(x) + y, x + y);
  }

  // ------------------------------------------------------------------
  // What the standards ask for

  /** The sum of the 16-bit words of b in network byte order, an odd last byte
      padded with zero: section 1 of RFC 1071. */
  function NetSum(b: seq<U8>): (s: nat)
  {
    if |b| == 0 then 0
    else if |b| == 1 then 0x100 * b[0] as int
    else 0x100 * b[0] as int + b[1] as int + NetSum(b[2..])
  }

  /** The words of b, its checksum among them, sum to all ones. */
  predicate AllOnes(b: seq<U8>) { Folded(NetSum(b)) == 0xFFFF }

  lemma {:induction false} NetSame(b: seq<U8>)
    ensures SameSum(NetSum(b), 0x100 * WordSum(b))
  {
    if |b| >= 2 {
      NetSame(b[2..]);
      NetPair(b[0] as int, b[1] as int);
      SameSumAdd(0x100 * b[0] as int + b[1] as int, 0x100 * Word16(b[0] as int, b[1] as int),
                 NetSum(b[2..]), 0x100 * WordSum(b[2..]));
    } else {
      SameRefl(NetSum(b));
    }
  }

  lemma NetPair(x: int, y: int)
    requires 0 <= x < 0x100 && 0 <= y < 0x100
    ensures SameSum(0x100 * x + y, 0x100 * Word16(x, y))
  {
    MultipleOfOnes(0x100 * x + y, y);
  }

  /** The sum does not depend on the byte order of the machine. */
  lemma AllOnesIff(b: seq<U8>)
    ensures AllOnes(b) <==> Folded(WordSum(b)) == 0xFFFF
  {
    NetSame(b);
    OnesShift(NetSum(b), WordSum(b));
  }

  lemma OnesShift(x: nat, y: nat)
    requires SameSum(x, 0x100 * y)
    ensures Folded(x) == 0xFFFF <==> Folded(y) == 0xFFFF
  {
    FoldedOnes(x);
    FoldedOnes(y);
    var q := y / 0xFFFF;
    if y % 0xFFFF == 0 {
      assert 0x100 * y == 0xFFFF * (0x100 * q);
    }
    if x % 0xFFFF == 0 {
      var k := 0x100 * y / 0xFFFF;
      assert 0x100 * y == 0xFFFF * k;
      assert y == 0xFFFF * (0x100 * k - y);
    }
  }

  lemma FoldedOnes(s: nat)
    ensures Folded(s) == 0xFFFF <==> 0 < s && s % 0xFFFF == 0
  {
  }

  /** An address pair, protocol and length in front of a packet. */
  function Pseudo(src: seq<U8>, dst: seq<U8>, proto: U8, len: seq<U8>): (b: seq<U8>)
  {
    src + dst + [0, proto] + len
  }

  /** What the code adds up for two addresses, as 32-bit words. */
  function AddrSum(src: seq<U8>, dst: seq<U8>): (s: nat)
  {
    Le(src) + Le(dst)
  }

  predicate Addresses(src: seq<U8>, dst: seq<U8>) { |src| == |dst| == 4 }

  lemma AddrSumBound(src: seq<U8>, dst: seq<U8>)
    requires Addresses(src, dst)
    ensures AddrSum(src, dst) < 0x2_0000_0000
  {
    Le4(src);
    Le4(dst);
  }

  /** The sum of a packet behind its pseudo-header. */
  lemma PseudoSum(src: seq<U8>, dst: seq<U8>, proto: U8, len: U16, h: seq<U8>, data: seq<U8>)
    requires Addresses(src, dst) && |h| % 2 == 0
    ensures SameSum(AddrSum(src, dst) + 0x100 * proto as int + len as int + WordSum(h) + WordSum(data),
                    WordSum(Pseudo(src, dst, proto, Stored(len)) + h + data))
  {
    hide WordSum, SameSum, Stored, Le;
    var p, q := src + dst, [0, proto];
    SplitEven(p + q + Stored(len) + h, data);
    SplitEven(p + q + Stored(len), h);
    SplitEven(p + q, Stored(len));
    SplitEven(p, q);
    SplitEven(src, dst);
    StoredSum(len);
    ProtoSum(proto);
    LeSame(src);
    LeSame(dst);
    SameSumAdd(Le(src), WordSum(src), Le(dst), WordSum(dst));
    var rest := 0x100 * proto as int + len as int + WordSum(h) + WordSum(data);
    SameRefl(rest);
    SameSumAdd(AddrSum(src, dst), WordSum(src) + WordSum(dst), rest, rest);
  }

  lemma ProtoSum(proto: U8)
    ensures WordSum([0, proto]) == 0x100 * proto as int
  {
    assert [0, proto][2..] == [];
  }

  /** What the code tests for a packet behind its pseudo-header. */
  lemma PseudoOnes(src: seq<U8>, dst: seq<U8>, proto: U8, len: U16, h: seq<U8>, data: seq<U8>)
    requires Addresses(src, dst) && |h| % 2 == 0
    ensures AllOnes(Pseudo(src, dst, proto, Stored(len)) + h + data) <==>
            Folded(AddrSum(src, dst) + 0x100 * proto as int + len as int + WordSum(h) + WordSum(data)) == 0xFFFF
  {
    hide WordSum, SameSum, Folded, AllOnes, Pseudo, AddrSum, Stored;
    PseudoSum(src, dst, proto, len, h, data);
    var b := Pseudo(src, dst, proto, Stored(len)) + h + data;
    SameFolded(AddrSum(src, dst) + 0x100 * proto as int + len as int + WordSum(h) + WordSum(data), WordSum(b));
    AllOnesIff(b);
  }

  // ------------------------------------------------------------------
  // IP

  const IP_HEADER: nat := 20

  /** `exa_ip_build_hdr` from the cached header; lengths wrap to 16 bits. */
  method BuildIp(hdr: seq<U8>, hdrLen: nat, dataLen: nat) returns (h: seq<U8>)
    requires |hdr| == IP_HEADER && hdr[0] == 0x45 && hdr[2] == hdr[3] == 0 && hdr[10] == hdr[11] == 0
    ensures |h| == 20 && h[..2] == hdr[..2] && h[4..10] == hdr[4..10] && h[12..] == hdr[12..]
    ensures 0x100 * h[2] as int + h[3] as int == (20 + hdrLen + dataLen) % 0x1_0000
    ensures AllOnes(h)
  {
    hide Folded, WordSum, Swap16, AllOnes, Stored;
    var total := Wrap16(hdrLen + dataLen + IP_HEADER);
    var len := Swap16(total);
    h := SetWord(hdr, 2, len);
    SetWordKeeps(hdr, 2, len);
    SwapStored(total);
    PositiveSum(h) by { assert h[0] == h[..2][0] == hdr[..2][0]; }
    var c := Csum(h, 0);
    assert h[10] == h[4..][6] == hdr[4..][6] && h[11] == h[4..][7] == hdr[4..][7];
    FieldWorks(0, h, 10, 0, Complement(c));
    SetWordKeeps(h, 10, Complement(c));
    ghost var g := h;
    h := SetWord(h, 10, Complement(c));
    AllOnesIff(h);
    assert h[..2] == g[..10][..2] == g[..2] == hdr[..2];
    assert h[2..4] == g[..10][2..4] == g[2..4];
    assert h[2] == h[2..4][0] && h[3] == h[2..4][1];
    assert h[4..10] == g[..10][4..10] == g[4..][..6] == hdr[4..][..6];
    assert h[12..] == g[12..] == g[4..][8..] == hdr[4..][8..];
  }

  lemma SetWordKeeps(h: seq<U8>, k: nat, w: U16)
    requires k + 2 <= |h|
    ensures var g := SetWord(h, k, w);
            |g| == |h| && g[..k] == h[..k] && g[k..k + 2] == Stored(w) && g[k + 2..] == h[k + 2..]
  {
  }

  lemma PositiveSum(b: seq<U8>)
    requires |b| >= 2 && b[0] > 0
    ensures WordSum(b) > 0
  {
  }

  /** IP_MF and IP_OFFMASK together: all but the two high bits of the word that says
      whether more fragments follow and at what offset this one starts. */
  const FRAGMENT_BITS: nat := 0x4000

  /** The tests of `exa_ip_parse_hdr` on the memory where the header starts, at least
      the 60 bytes that the length field can name, of which `received` have arrived; the sum is taken over as many bytes as
      the length field says, whether or not they have. */
  method CheckIp(mem: seq<U8>, received: nat) returns (ok: bool, nextLen: U64)
    requires received <= |mem| && |mem| >= 60
    ensures ok <==>
      received >= 20 && mem[0] / 16 == 4 && mem[6] % 64 == 0 && mem[7] == 0 && AllOnes(mem[..mem[0] % 16 * 4])
    ensures nextLen == Wrap64(0x100 * mem[2] as int + mem[3] as int - mem[0] as int % 16 * 4)
  {
    hide Folded, WordSum, AllOnes, Swap16;
    SwapLoad(mem, 2);
    nextLen := Wrap64(Swap16(Load(mem, 2)) - mem[0] % 16 * 4);
    ok := false;
    if received < IP_HEADER || mem[0] / 16 != 4 {
      return;
    }
    AllOnesIff(mem[..mem[0] % 16 * 4]);
    var c := Csum(mem[..mem[0] % 16 * 4], 0);
    SwapLoad(mem, 6);
    ok := c == 0xFFFF && Swap16(Load(mem, 6)) % FRAGMENT_BITS == 0;
  }

  /** Every header that is built passes, whatever follows it; and the receiver finds
      the length of what follows if and only if it fits the 16-bit length field. */
  method IpRoundTrip(hdr: seq<U8>, hdrLen: nat, dataLen: nat, rest: seq<U8>) returns (ok: bool, nextLen: U64)
    requires |hdr| == IP_HEADER && hdr[0] == 0x45 && hdr[2] == hdr[3] == 0 && hdr[10] == hdr[11] == 0
    requires hdr[6] % 64 == 0 && hdr[7] == 0
    requires |rest| >= 40 && hdrLen + dataLen < 0x8000_0000_0000_0000
    ensures ok
    ensures nextLen == hdrLen + dataLen <==> IP_HEADER + hdrLen + dataLen < TWO_16
  {
    hide AllOnes;
    var h := BuildIp(hdr, hdrLen, dataLen);
    var mem := h + rest;
    assert h[0] == h[..2][0] == hdr[..2][0];
    assert h[6] == h[4..10][2] == hdr[4..10][2] == hdr[6] && h[7] == h[4..10][3] == hdr[4..10][3] == hdr[7];
    assert mem[..20] == h;
    ok, nextLen := CheckIp(mem, |mem|);
  }

  // ------------------------------------------------------------------
  // UDP

  function UdpHeader(sport: U16, dport: U16, ulen: U16, sum: U16): (h: seq<U8>)
    ensures |h| == 8
  {
    Stored(sport) + Stored(dport) + Stored(ulen) + Stored(sum)
  }

  lemma UdpHeaderSum(sport: U16, dport: U16, ulen: U16, sum: U16)
    ensures WordSum(UdpHeader(sport, dport, ulen, sum)) == sport + dport + ulen + sum
  {
    SplitEven(Stored(sport) + Stored(dport) + Stored(ulen), Stored(sum));
    SplitEven(Stored(sport) + Stored(dport), Stored(ulen));
    SplitEven(Stored(sport), Stored(dport));
    StoredSum(sport);
    StoredSum(dport);
    StoredSum(ulen);
    StoredSum(sum);
  }

  /** Pseudo-header of RFC 768, header and data sum to all ones. */
  predicate UdpSums(src: seq<U8>, dst: seq<U8>, h: seq<U8>, data: seq<U8>)
    requires |h| == 8
  {
    AllOnes(Pseudo(src, dst, 17, h[4..6]) + h + data)
  }

  /** What `exa_udp_validate_csum` accepts. */
  predicate UdpValid(src: seq<U8>, dst: seq<U8>, h: seq<U8>, data: seq<U8>)
    requires |h| == 8
  {
    h[6..8] == [0, 0] || UdpSums(src, dst, h, data)
  }

  /** The cached header and partial checksum of a sending socket. */
  class UdpTx {
    var sport: U16
    var dport: U16
    var partial: U64

    ghost predicate Valid(src: seq<U8>, dst: seq<U8>)
      reads this
    {
      Addresses(src, dst) && partial == Folded(AddrSum(src, dst) + UDP_PROTO + sport + dport)
    }

    constructor ()
      ensures sport == dport == 0 && Valid([0, 0, 0, 0], [0, 0, 0, 0])
    {
      sport, dport := 0, 0;
      new;
      var none: seq<U8> := [0, 0, 0, 0];
      assert none[2..] == [0, 0] && none[2..][2..] == [];
      assert Le(none) == 0;
      partial := Checksummed(none, none);
    }

    method Checksummed(src: seq<U8>, dst: seq<U8>) returns (c: U64)
      requires Addresses(src, dst)
      ensures c == Folded(AddrSum(src, dst) + UDP_PROTO + sport + dport)
    {
      hide Folded, WordSum, Le;
      UdpHeaderSum(sport, dport, 0, 0);
      AddrSumBound(src, dst);
      c := Csum(UdpHeader(sport, dport, 0, 0), AddrSum(src, dst) + UDP_PROTO);
    }

    /** `exa_udp_set_src` */
    method SetSrc(port: U16, src: seq<U8>, dst: seq<U8>)
      requires Addresses(src, dst)
      modifies this
      ensures Valid(src, dst) && sport == port && dport == old(dport)
    {
      sport := port;
      partial := Checksummed(src, dst);
    }

    /** `exa_udp_set_dest` */
    method SetDest(port: U16, src: seq<U8>, dst: seq<U8>)
      requires Addresses(src, dst)
      modifies this
      ensures Valid(src, dst) && dport == port && sport == old(sport)
    {
      dport := port;
      partial := Checksummed(src, dst);
    }

    /** `exa_udp_build_hdr`, in front of hdrLen bytes of inner headers: every
        datagram built sums up, also where its checksum field comes out as zero. */
    method Build(iov: seq<seq<U8>>, hdrLen: nat, skipLen: nat, dataLen: nat, src: seq<U8>, dst: seq<U8>) returns (h: seq<U8>)
      requires Valid(src, dst) && skipLen + dataLen <= |Flat(iov)| && |iov| <= 1024
      ensures |h| == 8 && h[..2] == Stored(sport) && h[2..4] == Stored(dport)
      ensures 0x100 * h[4] as int + h[5] as int == (8 + hdrLen + dataLen) % 0x1_0000
      ensures AllOnes(Pseudo(src, dst, 17, h[4..6]) + h + Flat(iov)[skipLen..skipLen + dataLen])
    {
      hide Folded, WordSum, Flat, Swap16, Stored, AllOnes, Pseudo, AddrSum;
      var total := Wrap16(hdrLen + dataLen + 8);
      var ulen := Swap16(total);
      var c := CsumIov(iov, skipLen, dataLen, partial + 2 * (ulen as int));
      var sum := Complement(c);
      h := UdpHeader(sport, dport, ulen, sum);
      ghost var data := Flat(iov)[skipLen..skipLen + dataLen];
      ghost var base := AddrSum(src, dst) + UDP_PROTO + sport + dport;
      FoldEarly(base, 2 * ulen as int + WordSum(data));
      ComplementFolds(base + 2 * ulen as int + WordSum(data), sum);
      UdpHeaderSum(sport, dport, ulen, sum);
      SwapStored(total);
      HeaderParts(sport, dport, ulen, sum);
      PseudoOnes(src, dst, 17, ulen, h, data);
      assert h[4] == h[4..6][0] && h[5] == h[4..6][1];
    }
  }

  lemma HeaderParts(sport: U16, dport: U16, ulen: U16, sum: U16)
    ensures var h := UdpHeader(sport, dport, ulen, sum);
            h[..2] == Stored(sport) && h[2..4] == Stored(dport) && h[4..6] == Stored(ulen) && h[6..8] == Stored(sum)
  {
  }

  /** The receiver: `exa_udp_parse_hdr`'s sum continued over the data, then
      `exa_udp_validate_csum`. */
  method CheckUdp(src: seq<U8>, dst: seq<U8>, h: seq<U8>, data: seq<U8>) returns (ok: bool)
    requires Addresses(src, dst) && |h| == 8
    ensures ok <==> h[6..8] == [0, 0] || AllOnes(Pseudo(src, dst, 17, h[4..6]) + h + data)
  {
    hide Folded, WordSum, SameSum, AllOnes, Pseudo, AddrSum;
    var ulen := Load(h, 4);
    AddrSumBound(src, dst);
    var base := AddrSum(src, dst) + UDP_PROTO + ulen;
    var s := Part(h, base);
    var t := Part(data, s);
    ContinueSum(base, h, data, s, t);
    StoredLoad(h, 4);
    StoredLoad(h, 6);
    PseudoOnes(src, dst, 17, ulen, h, data);
    ok := !(Load(h, 6) != 0 && Pack(t) != 0xFFFF);
  }

  lemma StoredLoad(b: seq<U8>, k: nat)
    requires k + 2 <= |b|
    ensures Stored(Load(b, k)) == b[k..k + 2] && (Load(b, k) == 0 <==> b[k..k + 2] == [0, 0])
  {
    DivModUnique(Load(b, k), 0x100, b[k + 1] as int, b[k] as int);
    assert b[k..k + 2] == [b[k], b[k + 1]];
  }

  lemma ContinueSum(base: nat, h: seq<U8>, data: seq<U8>, s: int, t: int)
    requires SameSum(s, base + WordSum(h)) && SameSum(t, s + WordSum(data))
    ensures 0 <= t && Folded(t) == Folded(base + WordSum(h) + WordSum(data))
  {
    SameSumAdd(s, base + WordSum(h), WordSum(data), WordSum(data));
    SameSumTrans(t, s + WordSum(data), base + WordSum(h) + WordSum(data));
    SameFolded(t, base + WordSum(h) + WordSum(data));
  }

  /** The receiver from the packet: `exa_udp_parse_hdr`, then the test. */
  method ReceiveUdp(pkt: seq<U8>, src: seq<U8>, dst: seq<U8>) returns (r: Option<seq<U8>>)
    requires Addresses(src, dst)
    ensures r ==
            if |pkt| >= 8 && 8 <= NetAt(pkt, 4) <= |pkt| && UdpValid(src, dst, pkt[..8], pkt[8..NetAt(pkt, 4)])
            then Some(pkt[8..NetAt(pkt, 4)])
            else None
  {
    hide AllOnes, Swap16;
    if |pkt| < 8 {
      return None;
    }
    SwapLoad(pkt, 4);
    var ulen := Swap16(Load(pkt, 4));
    if |pkt| < ulen || ulen < 8 {
      return None;
    }
    var ok := CheckUdp(src, dst, pkt[..8], pkt[8..ulen]);
    r := if ok then Some(pkt[8..ulen]) else None;
  }

  /** A datagram that is built reaches the receiver unmodified, whatever padding
      follows it, if and only if its length fits the 16-bit field. */
  method UdpRoundTrip(tx: UdpTx, iov: seq<seq<U8>>, skipLen: nat, dataLen: nat, src: seq<U8>, dst: seq<U8>, pad: seq<U8>)
    returns (r: Option<seq<U8>>)
    requires tx.Valid(src, dst) && skipLen + dataLen <= |Flat(iov)| && |iov| <= 1024
    ensures r == Some(Flat(iov)[skipLen..skipLen + dataLen]) <==> 8 + dataLen < TWO_16
  {
    hide Flat, AllOnes, Pseudo, Folded;
    var h := tx.Build(iov, 0, skipLen, dataLen, src, dst);
    var data := Flat(iov)[skipLen..skipLen + dataLen];
    var pkt := h + data + pad;
    assert pkt[..8] == h;
    assert NetAt(pkt, 4) == (8 + dataLen) % 0x1_0000;
    r := ReceiveUdp(pkt, src, dst);
    if 8 + dataLen < TWO_16 {
      assert pkt[8..8 + dataLen] == data;
    }
  }

  // ------------------------------------------------------------------
  // TCP

  const TCP_HEADER: nat := 20

  /** Pseudo-header of section 3.1 of RFC 9293, header and data sum to all ones. */
  predicate TcpSums(src: seq<U8>, dst: seq<U8>, h: seq<U8>, data: seq<U8>)
  {
    var len := (|h| + |data|) % 0x1_0000;
    AllOnes(Pseudo(src, dst, 6, [len / 0x100, len % 0x100]) + h + data)
  }

  /** What `exa_tcp_validate_csum` accepts. */
  predicate TcpValid(src: seq<U8>, dst: seq<U8>, h: seq<U8>, data: seq<U8>)
    requires |h| >= TCP_HEADER
  {
    h[16..18] == [0, 0] || TcpSums(src, dst, h, data)
  }

  /** The pseudo-header sum that a connection keeps. */
  method TcpAddresses(src: seq<U8>, dst: seq<U8>) returns (ph: U64)
    requires Addresses(src, dst)
    ensures ph == Folded(AddrSum(src, dst) + TCP_PROTO)
  {
    hide Folded, Le;
    AddrSumBound(src, dst);
    ph := Csum([], AddrSum(src, dst) + TCP_PROTO);
  }

  /** `exa_tcp_build_hdr`: the header h has its fields set and its checksum field
      zero; ph is the folded pseudo-header sum. Every segment sums up. */
  method BuildTcp(h: seq<U8>, ph: U64, iov: seq<seq<U8>>, skipLen: nat, dataLen: nat, src: seq<U8>, dst: seq<U8>)
    returns (r: seq<U8>)
    requires |h| == TCP_HEADER && h[16] == h[17] == 0
    requires Addresses(src, dst) && ph == Folded(AddrSum(src, dst) + TCP_PROTO)
    requires skipLen + dataLen <= |Flat(iov)| && |iov| <= 1024
    ensures |r| == 20 && r[..16] == h[..16] && r[18..] == h[18..]
    ensures TcpSums(src, dst, r, Flat(iov)[skipLen..skipLen + dataLen])
  {
    hide Folded, WordSum, Flat, Swap16, SameSum, AllOnes, Pseudo, AddrSum, Stored;
    var total := Wrap16(TCP_HEADER + dataLen);
    var len := Swap16(total);
    var s := Part(h, ph + len);
    var c := CsumIov(iov, skipLen, dataLen, s);
    r := SetWord(h, 16, Complement(c));
    SetWordKeeps(h, 16, Complement(c));
    ghost var data, base := Flat(iov)[skipLen..skipLen + dataLen], AddrSum(src, dst) + TCP_PROTO;
    TcpSum(ph, len, base, h, s, WordSum(data));
    FieldWorks(base + len, h, 16, WordSum(data), Complement(c));
    SwapStored(total);
    PseudoOnes(src, dst, 6, len, r, data);
  }

  lemma TcpSum(ph: int, len: U16, base: nat, h: seq<U8>, s: int, data: nat)
    requires 0 < base && ph == Folded(base) && SameSum(s, ph + len + WordSum(h))
    ensures 0 <= s && 0 < base + len + WordSum(h) + data
    ensures Folded(s + data) == Folded(base + len + WordSum(h) + data)
  {
    hide WordSum;
    FoldEarly(base, len + WordSum(h) + data);
    SameSumAdd(s, ph + len + WordSum(h), data, data);
    SameFolded(s + data, ph + len + WordSum(h) + data);
  }

  lemma TcpTest(src: seq<U8>, dst: seq<U8>, h: seq<U8>, data: seq<U8>)
    requires Addresses(src, dst) && |h| >= TCP_HEADER && |h| % 2 == 0
    ensures var len := Swap16(Wrap16(|h| + |data|));
            TcpValid(src, dst, h, data) <==>
            Load(h, 16) == 0 || Folded(AddrSum(src, dst) + TCP_PROTO + len + WordSum(h) + WordSum(data)) == 0xFFFF
  {
    hide Folded, WordSum, Swap16, AllOnes, Pseudo, AddrSum, Stored, Load;
    var total := Wrap16(|h| + |data|);
    SwapStored(total);
    StoredLoad(h, 16);
    PseudoOnes(src, dst, 6, Swap16(total), h, data);
  }

  /** The receiver: `exa_tcp_parse_hdr`'s sum continued over the data, then
      `exa_tcp_validate_csum`. */
  method CheckTcp(src: seq<U8>, dst: seq<U8>, h: seq<U8>, data: seq<U8>) returns (ok: bool)
    requires Addresses(src, dst) && |h| >= TCP_HEADER && |h| % 2 == 0
    ensures ok <==> TcpValid(src, dst, h, data)
  {
    hide Folded, WordSum, SameSum, Swap16, AllOnes, AddrSum, Load, TcpValid;
    var total := Wrap16(|h| + |data|);
    var len := Swap16(total);
    AddrSumBound(src, dst);
    var base := AddrSum(src, dst) + TCP_PROTO + len;
    var s := Part(h, base);
    var t := Part(data, s);
    ContinueSum(base, h, data, s, t);
    TcpTest(src, dst, h, data);
    ok := !(Load(h, 16) != 0 && Pack(t) != 0xFFFF);
  }

  /** The receiver from the packet: `exa_tcp_parse_hdr`, then the test. */
  method ReceiveTcp(pkt: seq<U8>, src: seq<U8>, dst: seq<U8>) returns (r: Option<seq<U8>>)
    requires Addresses(src, dst)
    ensures r ==
            if |pkt| >= 20 && 20 <= pkt[12] / 16 * 4 <= |pkt| && TcpValid(src, dst, pkt[..pkt[12] / 16 * 4], pkt[pkt[12] / 16 * 4..])
            then Some(pkt[pkt[12] / 16 * 4..])
            else None
  {
    hide TcpValid;
    if |pkt| < TCP_HEADER {
      return None;
    }
    var hdrLen := pkt[12] / 16 * 4;
    if hdrLen < TCP_HEADER || |pkt| < hdrLen {
      return None;
    }
    DivModUnique(hdrLen, 2, pkt[12] / 16 * 2, 0);
    var ok := CheckTcp(src, dst, pkt[..hdrLen], pkt[hdrLen..]);
    r := if ok then Some(pkt[hdrLen..]) else None;
  }

  /** A segment that is built reaches the receiver unmodified. */
  method TcpRoundTrip(h: seq<U8>, iov: seq<seq<U8>>, skipLen: nat, dataLen: nat, src: seq<U8>, dst: seq<U8>)
    returns (r: Option<seq<U8>>)
    requires |h| == TCP_HEADER && h[16] == h[17] == 0 && h[12] / 16 == 5
    requires Addresses(src, dst) && skipLen + dataLen <= |Flat(iov)| && |iov| <= 1024
    ensures r == Some(Flat(iov)[skipLen..skipLen + dataLen])
  {
    hide Folded, Flat, TcpSums, AddrSum;
    var ph := TcpAddresses(src, dst);
    var hdr := BuildTcp(h, ph, iov, skipLen, dataLen, src, dst);
    var data := Flat(iov)[skipLen..skipLen + dataLen];
    var pkt := hdr + data;
    assert hdr[12] == hdr[..16][12] == h[..16][12];
    assert pkt[..20] == hdr && pkt[20..] == data;
    r := ReceiveTcp(pkt, src, dst);
  }
}

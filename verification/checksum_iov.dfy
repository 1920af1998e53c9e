/** Checksums over scattered buffers. */
module ChecksumIov {
  import opened Words
  import opened Checksum

  /** What one call of csum_part, or one odd byte, can add to the running sum. */
  const STEP: int := 0x23_0000_0000

  function Flat(iov: seq<seq<U8>>): (b: seq<U8>)
  {
    if iov == [] then [] else iov[0] + Flat(iov[1..])
  }

  lemma {:induction false} FlatSplit(iov: seq<seq<U8>>, i: nat)
    requires i < |iov|
    ensures Flat(iov[..i + 1]) == Flat(iov[..i]) + iov[i]
    ensures |Flat(iov[..i])| + |iov[i]| <= |Flat(iov)|
    ensures Flat(iov)[|Flat(iov[..i])|..|Flat(iov[..i])| + |iov[i]|] == iov[i]
  {
    if i == 0 {
      assert iov[..1] == [iov[0]] && Flat([iov[0]]) == iov[0] + Flat([]);
      assert iov[..0] == [];
    } else {
      assert iov[..i + 1][1..] == iov[1..][..i] && iov[..i][1..] == iov[1..][..i - 1];
      FlatSplit(iov[1..], i - 1);
      assert Flat(iov[..i]) == iov[0] + Flat(iov[1..][..i - 1]);
      var a, n := |Flat(iov[1..][..i - 1])|, |iov[i]|;
      LaterSlice(iov[0], Flat(iov[1..]), a, a + n);
    }
  }

  lemma LaterSlice(x: seq<U8>, y: seq<U8>, a: nat, b: nat)
    requires a <= b <= |y|
    ensures (x + y)[|x| + a..|x| + b] == y[a..b]
  {
  }

  /** The bytes summed once the scan has reached offset offs. */
  function Done(flat: seq<U8>, skip: nat, offs: nat): (b: seq<U8>)
    requires offs <= |flat|
  {
    if skip < offs then flat[skip..offs] else []
  }

  /** The running sum stands for the bytes summed so far. */
  ghost predicate Summed(acc: int, sum: int, flat: seq<U8>, skip: nat, offs: nat)
    requires offs <= |flat|
  {
    SameSum(acc, sum + WordSum(Done(flat, skip, offs)))
  }

  lemma AddEven(acc: int, sum: int, done: seq<U8>, data: seq<U8>, r: int)
    requires SameSum(acc, sum + WordSum(done)) && |done| % 2 == 0 && SameSum(r, acc + WordSum(data))
    ensures SameSum(r, sum + WordSum(done + data))
  {
    SplitEven(done, data);
    hide WordSum;
    SameSumAdd(acc, sum + WordSum(done), WordSum(data), WordSum(data));
    SameSumTrans(r, acc + WordSum(data), sum + WordSum(done + data));
  }

  lemma AddOdd(acc: int, sum: int, done: seq<U8>, data: seq<U8>, r: int)
    requires SameSum(acc, sum + WordSum(done)) && |done| % 2 == 1 && data != []
    requires SameSum(r, acc + WordSum(data[1..]))
    ensures SameSum(r + 0x100 * (data[0] as int), sum + WordSum(done + data))
  {
    hide WordSum, SameSum;
    SplitOdd(done, data[0], data[1..]);
    assert done + [data[0]] + data[1..] == done + data;
    var h := 0x100 * (data[0] as int);
    SameRefl(h);
    SameRefl(WordSum(data[1..]));
    SameSumAdd(acc, sum + WordSum(done), WordSum(data[1..]), WordSum(data[1..]));
    SameSumTrans(r, acc + WordSum(data[1..]), sum + WordSum(done) + WordSum(data[1..]));
    SameSumAdd(r, sum + WordSum(done) + WordSum(data[1..]), h, h);
  }

  /** Adds the bytes of one buffer from `skip` on. The branch for an odd position
      is taken only when nothing is skipped, so the byte it shifts is the first. */
  method AddBuffer(piece: seq<U8>, skip: nat, len: nat, odd: bool, acc: U64, ghost sum: int, ghost done: seq<U8>)
    returns (r: U64)
    requires skip < len <= |piece| && acc < 0x1_0000_0000_0000_0000 - STEP
    requires SameSum(acc, sum + WordSum(done)) && odd == (|done| % 2 == 1) && (odd ==> skip == 0)
    ensures SameSum(r, sum + WordSum(done + piece[skip..len])) && r <= acc + STEP
  {
    hide WordSum, SameSum;
    ghost var data := piece[skip..len];
    if odd {
      r := Part(piece[skip + 1..len], acc);
      assert piece[skip + 1..len] == data[1..];
      AddOdd(acc, sum, done, data, r);
      r := r + 0x100 * (piece[0] + skip);
    } else {
      r := Part(piece[skip..len], acc);
      AddEven(acc, sum, done, data, r);
    }
  }

  /** `csum_iov`: however the bytes are scattered, the result is the checksum of
      the selected bytes laid end to end. */
  method CsumIov(iov: seq<seq<U8>>, skipLen: nat, dataLen: nat, sum: U64) returns (c: U16)
    requires skipLen + dataLen <= |Flat(iov)|
    requires sum + STEP * (|iov| + 1) <= 0x1_0000_0000_0000_0000
    ensures c == Folded(sum + WordSum(Flat(iov)[skipLen..skipLen + dataLen]))
  {
    hide WordSum, SameSum, Flat, Done;
    ghost var flat := Flat(iov);
    var iovLen := skipLen + dataLen;
    var i, offs := 0, 0;
    var acc: U64 := sum;
    FlatNone(iov);
    SummedNone(sum, flat, skipLen);
    while i < |iov| && offs < iovLen
      invariant 0 <= i <= |iov| && offs <= iovLen <= |flat|
      invariant offs == if |Flat(iov[..i])| < iovLen then |Flat(iov[..i])| else iovLen
      invariant Summed(acc, sum, flat, skipLen, offs) && acc <= sum + STEP * i
    {
      FlatSplit(iov, i);
      var len := if |iov[i]| < iovLen - offs then |iov[i]| else iovLen - offs;
      var skip := if offs < skipLen then skipLen - offs else 0;
      DoneGrows(flat, iov[i], skipLen, offs, len);
      if skip < len {
        acc := AddBuffer(iov[i], skip, len, (offs + skip + skipLen) % 2 == 1, acc, sum, Done(flat, skipLen, offs));
      }
      offs, i := offs + len, i + 1;
    }
    assert iov[..|iov|] == iov;
    SameFolded2(acc, sum + WordSum(flat[skipLen..iovLen]), sum, flat, skipLen, iovLen);
    c := Pack(acc);
  }

  /** One buffer further. */
  lemma DoneGrows(flat: seq<U8>, piece: seq<U8>, skipLen: nat, offs: nat, len: nat)
    requires offs + |piece| <= |flat| && flat[offs..offs + |piece|] == piece && len <= |piece|
    ensures var skip := if offs < skipLen then skipLen - offs else 0;
            var done := Done(flat, skipLen, offs);
            && |done| == (if skipLen < offs then offs - skipLen else 0)
            && Done(flat, skipLen, offs + len) == if skip < len then done + piece[skip..len] else done
  {
    var skip := if offs < skipLen then skipLen - offs else 0;
    assert forall k :: 0 <= k < |piece| ==> piece[k] == flat[offs + k];
    if skip < len {
      assert flat[offs + skip..offs + len] == piece[skip..len];
    }
  }

  lemma FlatNone(iov: seq<seq<U8>>)
    ensures Flat(iov[..0]) == []
  {
  }

  lemma SummedNone(sum: int, flat: seq<U8>, skip: nat)
    requires 0 <= sum
    ensures Summed(sum, sum, flat, skip, 0)
  {
  }

  lemma SameFolded2(acc: int, s: int, sum: int, flat: seq<U8>, skip: nat, end: nat)
    requires skip <= end <= |flat| && Summed(acc, sum, flat, skip, end) && s == sum + WordSum(flat[skip..end])
    ensures 0 <= acc && 0 <= s && Folded(acc) == Folded(s)
  {
    assert skip == end ==> flat[skip..end] == [];
    SameFolded(acc, s);
  }
}

/** The checksum of an IP header, the complement of a ones' complement sum. */
module Checksum {
  import opened Arithmetic

  type Byte = b: nat | b < 256

  const WORD16 := 0x1_0000

  /** Two bytes as the machine reads them, low byte first. */
  function Word(data: seq<Byte>, i: nat): (w: nat)
    requires 2 * i + 1 < |data|
    ensures w < WORD16
  {
    data[2 * i] as nat + 256 * (data[2 * i + 1] as nat)
  }

  /** The sum of the first n words, without any limit. */
  function WordSum(data: seq<Byte>, n: nat): nat
    requires 2 * n <= |data|
  {
    if n == 0 then 0 else WordSum(data, n - 1) + Word(data, n - 1)
  }

  /** An odd byte at the end counts as a word of its own. */
  function Sum(data: seq<Byte>): nat {
    var n := |data| / 2;
    WordSum(data, n) + if |data| == 2 * n + 1 then data[2 * n] else 0
  }

  lemma {:induction false} SumIsSmall(data: seq<Byte>, n: nat)
    requires 2 * n <= |data|
    ensures WordSum(data, n) <= 0xFFFF * n
  {
    if n > 0 { SumIsSmall(data, n - 1); }
  }

  // ----- folding -----

  /** The carries are added back in until there are none. */
  function Fold(sum: nat): (r: nat)
    ensures r < WORD16
    decreases sum
  {
    if sum < WORD16 then sum else Fold(sum % WORD16 + sum / WORD16)
  }

  /** Folding takes away a multiple of 65535, and leaves nothing only of nothing. */
  lemma {:induction false} FoldTakesMultiple(sum: nat) returns (times: nat)
    ensures sum == Fold(sum) + 0xFFFF * times
    ensures Fold(sum) == 0 <==> sum == 0
    decreases sum
  {
    if sum < WORD16 {
      times := 0;
    } else {
      var high := sum / WORD16;
      var rest := FoldTakesMultiple(sum % WORD16 + high);
      times := rest + high;
    }
  }

  /** A sum of a 16-bit value and a multiple of 65535 tells the value, but for zero and 65535. */
  lemma FoldIs(sum: nat, r: nat, times: int)
    requires sum == r + 0xFFFF * times && 0 < r < WORD16 && sum > 0
    ensures Fold(sum) == r
  {
    var q := FoldTakesMultiple(sum);
    assert 0xFFFF * (q - times) == r - Fold(sum);
  }

  /** The folded sum is the only 16-bit value with the same remainder modulo 65535 that is
      positive when the sum is. */
  lemma FoldIsRemainder(sum: nat)
    ensures Fold(sum) == if sum == 0 then 0 else if sum % 0xFFFF == 0 then 0xFFFF else sum % 0xFFFF
  {
    var q := FoldTakesMultiple(sum);
    if sum % 0xFFFF != 0 {
      FoldIs(sum, sum % 0xFFFF, sum / 0xFFFF);
    } else if sum > 0 {
      FoldIs(sum, 0xFFFF, sum / 0xFFFF - 1);
    }
  }

  /** What ip_checksum promises: the complement of the folded sum. */
  function Checksum(data: seq<Byte>): nat {
    0xFFFF - Fold(Sum(data))
  }

  /** The sum as the machine computes it, in 32 bits. */
  function Sum32(data: seq<Byte>): nat {
    Sum(data) % WORD
  }

  /** One addition in 32 bits. */
  lemma AddWraps(a: nat, b: nat)
    ensures (a % WORD + b) % WORD == (a + b) % WORD
  {
  }

  /** ip_checksum, for a length that is an int. */
  method IpChecksum(data: seq<Byte>) returns (checksum: nat)
    requires |data| < 0x8000_0000
    ensures checksum == 0xFFFF - Fold(Sum32(data))
    ensures |data| <= 0x2_0000 ==> checksum == Checksum(data)
  {
    var sum: nat, p: nat, len: nat := 0, 0, |data|;
    while len > 1
      invariant len == |data| - 2 * p && sum == WordSum(data, p) % WORD
    {
      AddWraps(WordSum(data, p), Word(data, p));
      sum := (sum + Word(data, p)) % WORD;
      p, len := p + 1, len - 2;
    }
    if len > 0 {
      AddWraps(WordSum(data, p), data[2 * p] as nat);
      sum := (sum + data[2 * p] as nat) % WORD;
    }
    assert sum == Sum32(data);
    ShortSumFits(data);
    sum := FoldCarries(sum);
    checksum := 0xFFFF - sum;
  }

  lemma ShortSumFits(data: seq<Byte>)
    ensures |data| <= 0x2_0000 ==> Sum32(data) == Sum(data)
  {
    SumIsSmall(data, |data| / 2);
  }

  lemma LostWhole(left: nat, lost: nat, k: nat)
    requires left > 0 && lost == 0xFFFF * k
    ensures Fold(left + lost * WORD) == Fold(left)
  {
    var times := FoldTakesMultiple(left);
    FoldIs(left + lost * WORD, Fold(left), times + k + 0x1_0001 * lost);
  }

  lemma LostShows(left: nat, lost: nat)
    requires Fold(left + lost * WORD) == Fold(left)
    ensures lost % 0xFFFF == 0
  {
    var times := FoldTakesMultiple(left);
    var times' := FoldTakesMultiple(left + lost * WORD);
    assert lost == (times' - times - 0x1_0001 * lost) * 0xFFFF;
    DivMod(lost, 0xFFFF, times' - times - 0x1_0001 * lost, 0);
  }

  /** Wrapping around does no harm exactly when the carries lost fold to nothing and something
      of a positive sum is left. */
  lemma WrapHarmlessExactlyWhen(sum: nat)
    ensures Fold(sum % WORD) == Fold(sum) <==> (sum / WORD) % 0xFFFF == 0 && (sum > 0 ==> sum % WORD > 0)
  {
    var lost, left := sum / WORD, sum % WORD;
    assert sum == left + lost * WORD;
    if Fold(left) == Fold(sum) {
      LostShows(left, lost);
      FoldIsRemainder(sum);
    }
    if left > 0 && lost % 0xFFFF == 0 { LostWhole(left, lost, lost / 0xFFFF); }
  }

  /** The loop that adds the carries back in. */
  method FoldCarries(start: nat) returns (sum: nat)
    ensures sum == Fold(start)
  {
    sum := start;
    while sum / WORD16 != 0
      invariant Fold(sum) == Fold(start)
      decreases sum
    {
      sum := sum % WORD16 + sum / WORD16;
    }
  }

  // ----- verifying a header -----

  /** Data verifies, that is, its checksum is zero, exactly when its sum is a positive multiple
      of 65535. */
  lemma VerifiesExactlyWhen(data: seq<Byte>)
    ensures Checksum(data) == 0 <==> Sum(data) > 0 && Sum(data) % 0xFFFF == 0
  {
    FoldIsRemainder(Sum(data));
  }

  /** The checksum is stored in word k as the machine stores it. */
  function WithChecksum(data: seq<Byte>, k: nat, checksum: nat): seq<Byte>
    requires 2 * k + 1 < |data| && checksum < WORD16
  {
    data[2 * k := checksum % 256][2 * k + 1 := checksum / 256]
  }

  lemma {:induction false} StoredWordAdds(data: seq<Byte>, k: nat, checksum: nat, n: nat)
    requires 2 * k + 1 < |data| && checksum < WORD16 && 2 * n <= |data| && Word(data, k) == 0
    ensures WordSum(WithChecksum(data, k, checksum), n) == WordSum(data, n) + if k < n then checksum else 0
  {
    if n > 0 { StoredWordAdds(data, k, checksum, n - 1); }
  }

  lemma FilledSum(data: seq<Byte>, k: nat, checksum: nat)
    requires 2 * k + 1 < |data| && Word(data, k) == 0 && checksum < WORD16
    ensures Sum(WithChecksum(data, k, checksum)) == Sum(data) + checksum
  {
    StoredWordAdds(data, k, checksum, |data| / 2);
  }

  /** A header whose checksum field was zero verifies once the field is filled in. */
  lemma FilledHeaderVerifies(data: seq<Byte>, k: nat)
    requires 2 * k + 1 < |data| && Word(data, k) == 0
    ensures Checksum(WithChecksum(data, k, Checksum(data))) == 0
  {
    FilledSum(data, k, Checksum(data));
    var times := FoldTakesMultiple(Sum(data));
    FoldIs(Sum(data) + Checksum(data), 0xFFFF, times);
  }

  /** No other value of the field verifies, except that zero and 65535 stand for each other. */
  lemma OnlyTheChecksumVerifies(data: seq<Byte>, k: nat, checksum: nat)
    requires 2 * k + 1 < |data| && Word(data, k) == 0 && checksum < WORD16
    requires Checksum(WithChecksum(data, k, checksum)) == 0
    ensures checksum == Checksum(data) || (checksum == 0xFFFF && Checksum(data) == 0)
  {
    FilledSum(data, k, checksum);
    var times := FoldTakesMultiple(Sum(data));
    var times' := FoldTakesMultiple(Sum(data) + checksum);
    OnlyMultiples(Fold(Sum(data)), checksum, times' + 1 - times);
  }

  lemma OnlyMultiples(r: nat, c: nat, times: int)
    requires r < WORD16 && c < WORD16 && r + c == 0xFFFF * times
    ensures (r == 0 && c == 0) || r + c == 0xFFFF || (r == 0xFFFF && c == 0xFFFF)
  {
  }

  /** The IP header of a response, 580 bytes in all, over UDP and to everybody, before its
      checksum is known. */
  function Header(source: seq<Byte>): seq<Byte> {
    [0x45, 0, 0x02, 0x44, 0, 0, 0, 0, 64, 17, 0, 0] + source + [255, 255, 255, 255]
  }

  /** Version 4, and a header of as many 32-bit words as are there; the length in all, the time to
      live, UDP, and the addresses. */
  lemma HeaderSays(source: seq<Byte>)
    requires |source| == 4
    ensures var h := Header(source);
      && h[0] / 16 == 4 && 4 * (h[0] as nat % 16) == |h| && 256 * (h[2] as nat) + h[3] as nat == 580
      && h[8] == 64 && h[9] == 17 && Word(h, 5) == 0
      && h[12..16] == source && h[16..] == [255, 255, 255, 255]
  {
    var h := Header(source);
    assert h[12..16] == source && h[16..] == [255, 255, 255, 255];
  }

  /** The example of RFC 1071, section 3, in both byte orders. */
  lemma ExampleOfRfc1071(data: seq<Byte>)
    requires data == [0x00, 0x01, 0xF2, 0x03, 0xF4, 0xF5, 0xF6, 0xF7]
    ensures Checksum(data) == 0xFFFF - 0xF2DD && HighChecksum(data) == 0xFFFF - 0xDDF2
  {
    FourWords(data);
    assert WordSum(data, 4) == 0x1_F2DC && HighWordSum(data, 4) == 0x2_DDF0;
    assert Fold(0x1_F2DC) == 0xF2DD && Fold(0x2_DDF0) == 0xDDF2;
  }

  lemma FourWords(data: seq<Byte>)
    requires |data| == 8
    ensures WordSum(data, 4) == Word(data, 0) + Word(data, 1) + Word(data, 2) + Word(data, 3)
    ensures HighWordSum(data, 4) == HighWord(data, 0) + HighWord(data, 1) + HighWord(data, 2) + HighWord(data, 3)
  {
    assert WordSum(data, 1) == Word(data, 0) && HighWordSum(data, 1) == HighWord(data, 0);
    assert WordSum(data, 2) == Word(data, 0) + Word(data, 1);
    assert HighWordSum(data, 2) == HighWord(data, 0) + HighWord(data, 1);
  }

  /** Nothing outside the header is touched. */
  twostate predicate OnlyHeader(buffer: array<Byte>)
    reads buffer
  {
    forall k: nat :: k < buffer.Length && (k < 14 || k >= 34) ==> buffer[k] == old(buffer[k])
  }

  method ClearHeader(buffer: array<Byte>)
    requires buffer.Length >= 34
    modifies buffer
    ensures OnlyHeader(buffer) && forall k :: 14 <= k < 34 ==> buffer[k] == 0
  {
    for i := 14 to 34
      invariant OnlyHeader(buffer) && forall k :: 14 <= k < i ==> buffer[k] == 0
    {
      buffer[i] := 0;
    }
  }

  lemma HeaderIs(h: seq<Byte>, source: seq<Byte>)
    requires |h| == 20 && |source| == 4
    requires h[0] == 0x45 && h[1] == 0 && h[2] == 0x02 && h[3] == 0x44 && h[4] == h[5] == h[6] == h[7] == 0
    requires h[8] == 64 && h[9] == 17 && h[10] == h[11] == 0
    requires forall k: nat :: k < 4 ==> h[12 + k] == source[k]
    requires h[16] == h[17] == h[18] == h[19] == 255
    ensures h == Header(source)
  {
    assert h[12..16] == source;
    assert h[..12] == [0x45, 0, 0x02, 0x44, 0, 0, 0, 0, 64, 17, 0, 0];
    assert h[16..] == [255, 255, 255, 255];
    assert h == h[..12] + h[12..16] + h[16..];
  }

  method SetFields(buffer: array<Byte>, source: seq<Byte>)
    requires buffer.Length >= 34 && |source| == 4 && forall k :: 14 <= k < 34 ==> buffer[k] == 0
    modifies buffer
    ensures OnlyHeader(buffer) && buffer[14..34] == Header(source)
  {
    buffer[14] := 0x45;
    buffer[16], buffer[17] := 0x02, 0x44;
    buffer[22], buffer[23] := 64, 17;
    buffer[26], buffer[27], buffer[28], buffer[29] := source[0], source[1], source[2], source[3];
    buffer[30], buffer[31], buffer[32], buffer[33] := 255, 255, 255, 255;
    HeaderIs(buffer[14..34], source);
  }

  method StoreChecksum(buffer: array<Byte>, checksum: nat)
    requires buffer.Length >= 34 && checksum < WORD16
    modifies buffer
    ensures OnlyHeader(buffer) && buffer[14..34] == WithChecksum(old(buffer[14..34]), 5, checksum)
  {
    buffer[24] := checksum % 256;
    buffer[25] := checksum / 256;
  }

  /** The part of create_dhcp_response that fills in the IP header, behind an Ethernet header. */
  method CreateIpHeader(buffer: array<Byte>, source: seq<Byte>)
    requires buffer.Length >= 34 && |source| == 4
    modifies buffer
    ensures OnlyHeader(buffer)
    ensures buffer[14..34] == WithChecksum(Header(source), 5, Checksum(Header(source)))
    ensures Checksum(buffer[14..34]) == 0
  {
    ClearHeader(buffer);
    SetFields(buffer, source);
    ghost var header := buffer[14..34];
    var checksum := IpChecksum(buffer[14..34]);
    StoreChecksum(buffer, checksum);
    FilledHeaderVerifies(header, 5);
  }

  // ----- byte order -----

  /** Two bytes as a machine reads them that stores the high byte first. */
  function HighWord(data: seq<Byte>, i: nat): (w: nat)
    requires 2 * i + 1 < |data|
    ensures w < WORD16
  {
    256 * (data[2 * i] as nat) + data[2 * i + 1] as nat
  }

  function HighWordSum(data: seq<Byte>, n: nat): nat
    requires 2 * n <= |data|
  {
    if n == 0 then 0 else HighWordSum(data, n - 1) + HighWord(data, n - 1)
  }

  /** The odd byte at the end, or zero. */
  function OddByte(data: seq<Byte>): (b: nat)
    ensures b < 256
  {
    if |data| % 2 == 1 then data[|data| - 1] as nat else 0
  }

  /** The checksum that machine computes. The odd byte is added as it is there too. */
  function HighChecksum(data: seq<Byte>): nat {
    0xFFFF - Fold(HighWordSum(data, |data| / 2) + OddByte(data))
  }

  function SwappedWord(w: nat): nat {
    w % 256 * 256 + w / 256
  }

  lemma {:induction false} HighSum(data: seq<Byte>, n: nat) returns (times: int)
    requires 2 * n <= |data|
    ensures 256 * WordSum(data, n) - HighWordSum(data, n) == 0xFFFF * times
    ensures WordSum(data, n) == 0 <==> HighWordSum(data, n) == 0
  {
    times := 0;
    if n > 0 {
      var rest := HighSum(data, n - 1);
      var lo, hi := data[2 * n - 2] as nat, data[2 * n - 1] as nat;
      assert Word(data, n - 1) == lo + 256 * hi && HighWord(data, n - 1) == hi + 256 * lo;
      times := rest + hi;
    }
  }

  lemma SwappedIsMultiple(w: nat)
    requires w < WORD16
    ensures 256 * w == SwappedWord(w) + 0xFFFF * (w / 256)
    ensures SwappedWord(0xFFFF - w) == 0xFFFF - SwappedWord(w)
    ensures SwappedWord(w) < WORD16 && (SwappedWord(w) == 0 <==> w == 0)
  {
  }

  /** Reading and storing words the other way round gives the same bytes of the checksum, so it
      does not depend on the machine, exactly when there is no odd byte at the end but zero. */
  lemma ByteOrderMattersExactlyWhen(data: seq<Byte>)
    ensures HighChecksum(data) == SwappedWord(Checksum(data)) <==> OddByte(data) == 0
  {
    var n, odd := |data| / 2, OddByte(data);
    var sum, other := Sum(data), HighWordSum(data, n) + odd;
    assert sum == WordSum(data, n) + odd;
    var swaps := HighSum(data, n);
    assert 256 * sum - other == 0xFFFF * swaps + 255 * odd;
    var times := FoldTakesMultiple(sum);
    SwappedIsMultiple(Fold(sum));
    if odd == 0 && sum > 0 {
      FoldIs(other, SwappedWord(Fold(sum)), Fold(sum) / 256 + 256 * times - swaps);
    }
    if odd > 0 && Fold(other) == SwappedWord(Fold(sum)) {
      var times' := FoldTakesMultiple(other);
      assert 255 * odd == 0xFFFF * (Fold(sum) / 256 + 256 * times - times' - swaps);
      NoSmallMultiple(255 * odd, Fold(sum) / 256 + 256 * times - times' - swaps);
      assert false;
    }
  }

  lemma NoSmallMultiple(x: nat, times: int)
    requires 0 < x < 0xFFFF
    ensures x != 0xFFFF * times
  {
  }
}

/** The n-fold operation of section 5.1 of RFC 3961. */
module NFold {
  import opened Octets
  import opened Bits

  // ---------- The definition of RFC 3961, on bit strings and numbers ----------

  function RotateOnce(bits: BitString): (r: BitString)
    ensures |r| == |bits|
  {
    if |bits| == 0 then [] else [bits[|bits| - 1]] + bits[..|bits| - 1]
  }

  function RotateRight(bits: BitString, steps: nat): (r: BitString)
    ensures |r| == |bits|
  {
    if steps == 0 then bits else RotateOnce(RotateRight(bits, steps - 1))
  }

  /** The input written `count` times, every copy rotated right by 13 bits more than the one before. */
  function Copies(bits: BitString, count: nat): (r: BitString)
    ensures |r| == count * |bits|
  {
    if count == 0 then [] else Copies(bits, count - 1) + RotateRight(bits, 13 * (count - 1))
  }

  /** The least k >= 1 such that k * a is a multiple of b. */
  function LeastFactor(a: nat, b: nat, from: nat): (k: nat)
    requires 1 <= from <= b
    ensures from <= k <= b && k * a % b == 0
    ensures forall j :: from <= j < k ==> j * a % b != 0
    decreases b - from
  {
    if from * a % b == 0 then from
    else
      MultipleOf(b, a);
      LeastFactor(a, b, from + 1)
  }

  lemma {:induction false} MultipleOf(b: nat, a: nat)
    requires b > 0
    ensures b * a % b == 0
  {
    UniqueRemainder(b * a, b, a, 0);
  }

  /** std::lcm */
  function Lcm(a: nat, b: nat): (m: nat)
    ensures a > 0 && b > 0 ==> m > 0
  {
    if a == 0 || b == 0 then 0 else LeastFactor(a, b, 1) * a
  }

  /** The number in chunk k of a bit string cut into chunks of `size` bits. */
  function Chunk(bits: BitString, size: nat, k: nat): (v: nat)
    requires (k + 1) * size <= |bits|
  {
    assert k * size <= (k + 1) * size;
    ValueOf(bits[k * size..(k + 1) * size])
  }

  function ChunkSum(bits: BitString, size: nat, count: nat): (v: nat)
    requires count * size <= |bits|
  {
    if count == 0 then 0
    else
      assert (count - 1) * size <= count * size;
      ChunkSum(bits, size, count - 1) + Chunk(bits, size, count - 1)
  }

  /** A sum in ones' complement arithmetic modulo `modulus`, where a non-zero sum never becomes zero. */
  function EndAround(sum: nat, modulus: nat): (v: nat)
    requires modulus > 0
    ensures v <= modulus
  {
    if sum == 0 then 0 else (sum - 1) % modulus + 1
  }

  function CopyCount(input: Bytes, size: nat): (k: nat)
    requires size > 0
  {
    LeastFactor(8 * |input|, 8 * size, 1)
  }

  /** The copies of the input make a whole number of chunks. */
  function ChunkCount(input: Bytes, size: nat): (c: nat)
    requires size > 0
    ensures c * (8 * size) == CopyCount(input, size) * (8 * |input|)
  {
    WholeChunks(8 * |input|, 8 * size);
    CopyCount(input, size) * (8 * |input|) / (8 * size)
  }

  /** The chunks of section 5.1 of RFC 3961, added up. */
  function ChunkTotal(input: Bytes, size: nat): (v: nat)
    requires size > 0
  {
    ChunkSum(Copies(AllBits(input), CopyCount(input, size)), 8 * size, ChunkCount(input, size))
  }

  function FoldValue(input: Bytes, size: nat): (v: nat)
    requires size > 0
    ensures v < Power(256, size)
  {
    PowerAtLeast(size);
    EndAround(ChunkTotal(input, size), Power(256, size) - 1)
  }

  lemma WholeChunks(a: nat, b: nat)
    requires b > 0
    ensures LeastFactor(a, b, 1) * a / b * b == LeastFactor(a, b, 1) * a
  {
  }

  lemma PowerAtLeast(n: nat)
    requires n > 0
    ensures Power(256, n) >= 256
  {
  }

  /** v as a byte string of the given length. */
  function BytesOf(v: nat, size: nat): (s: Bytes)
    ensures |s| == size
  {
    if size == 0 then [] else BytesOf(v / 256, size - 1) + [v % 256]
  }

  function Fold(input: Bytes, size: nat): (s: Bytes)
    ensures |s| == size
  {
    if |input| == 0 || size == 0 then Zeros(size) else BytesOf(FoldValue(input, size), size)
  }

  lemma {:induction false} BytesOfValue(s: Bytes)
    ensures BytesOf(BigEndian(s), |s|) == s
  {
    if |s| > 0 {
      BytesOfValue(s[..|s| - 1]);
    }
  }

  lemma {:induction false} ValueOfBytes(v: nat, size: nat)
    requires v < Power(256, size)
    ensures BigEndian(BytesOf(v, size)) == v
  {
    if size > 0 {
      ValueOfBytes(v / 256, size - 1);
      assert BytesOf(v, size)[..size - 1] == BytesOf(v / 256, size - 1);
    }
  }

  // ---------- What the folded value means ----------

  /** Section 5.1 of RFC 3961: the result is the sum of the chunks modulo 2^(8 size) - 1, and it is zero only if
      every chunk is. */
  lemma {:induction false} FoldIsChunkSum(input: Bytes, size: nat)
    requires |input| > 0 && size > 0
    ensures Power(256, size) > 1
    ensures BigEndian(Fold(input, size)) % (Power(256, size) - 1) == ChunkTotal(input, size) % (Power(256, size) - 1)
    ensures BigEndian(Fold(input, size)) == 0 <==> ChunkTotal(input, size) == 0
  {
    PowerAtLeast(size);
    ValueOfBytes(FoldValue(input, size), size);
    if ChunkTotal(input, size) > 0 {
      EndAroundCongruent(ChunkTotal(input, size), Power(256, size) - 1);
    }
  }

  lemma {:induction false} EndAroundCongruent(sum: nat, m: nat)
    requires sum > 0 && m > 0
    ensures EndAround(sum, m) % m == sum % m
  {
    var q, r := (sum - 1) / m, (sum - 1) % m;
    assert sum == q * m + (r + 1);
    if r + 1 == m {
      MulDistributes(q, 1, m);
      UniqueRemainder(sum, m, q + 1, 0);
      UniqueRemainder(m, m, 1, 0);
    } else {
      UniqueRemainder(sum, m, q, r + 1);
      UniqueRemainder(r + 1, m, 0, r + 1);
    }
  }

  /** Folding to the input's own size changes nothing. */
  lemma FoldToOwnSize(input: Bytes)
    ensures Fold(input, |input|) == input
  {
    if |input| > 0 {
      var n := 8 * |input|;
      var bits := AllBits(input);
      UniqueRemainder(n, n, 1, 0);
      assert CopyCount(input, |input|) == 1 && ChunkCount(input, |input|) == 1;
      assert Copies(bits, 0) + RotateRight(bits, 0) == bits;
      assert Copies(bits, 1) == bits;
      assert ChunkSum(bits, n, 1) == Chunk(bits, n, 0) + ChunkSum(bits, n, 0);
      assert bits[0 * n..1 * n] == bits;
      AllBitsValue(input);
      BigEndianBound(input);
      PowerAtLeast(|input|);
      EndAroundSmall(BigEndian(input), Power(256, |input|) - 1);
      BytesOfValue(input);
    }
  }

  lemma EndAroundSmall(v: nat, m: nat)
    requires v <= m && m > 0
    ensures EndAround(v, m) == v
  {
    if v > 0 {
      UniqueRemainder(v - 1, m, 0, v - 1);
    }
  }

  // ---------- The loops of the program ----------

  lemma {:induction false} RotateRightAt(bits: BitString, steps: nat, i: nat)
    requires i < |bits|
    ensures RotateRight(bits, steps)[i] == bits[(i + |bits| - steps % |bits|) % |bits|]
  {
    var n := |bits|;
    if steps > 0 {
      var s := (steps - 1) % n;
      var i' := if i == 0 then n - 1 else i - 1;
      RotateRightAt(bits, steps - 1, i');
      assert RotateRight(bits, steps)[i] == RotateRight(bits, steps - 1)[i'];
      NextRemainder(steps, n);
      var t := steps % n;
      ReduceOnce(i' + n - s, n);
      ReduceOnce(i + n - t, n);
    } else {
      ReduceOnce(i + n - 0, n);
      UniqueRemainder(0, n, 0, 0);
    }
  }

  lemma {:induction false} NextRemainder(v: nat, n: nat)
    requires v > 0 && n > 0
    ensures v % n == if (v - 1) % n + 1 == n then 0 else (v - 1) % n + 1
  {
    var q, r := (v - 1) / n, (v - 1) % n;
    assert v == q * n + (r + 1);
    if r + 1 == n {
      MulDistributes(q, 1, n);
      UniqueRemainder(v, n, q + 1, 0);
    } else {
      UniqueRemainder(v, n, q, r + 1);
    }
  }

  lemma ReduceOnce(v: nat, n: nat)
    requires n > 0 && v < 2 * n
    ensures v % n == if v < n then v else v - n
  {
    UniqueRemainder(v, n, if v < n then 0 else 1, if v < n then v else v - n);
  }

  /** Bit j of the copies, as the loop body computes it. */
  lemma {:induction false} CopiesAt(bits: BitString, count: nat, j: nat)
    requires |bits| > 0 && j < count * |bits|
    ensures var n := |bits|;
            var rotation := 13 * (j / n) % n;
            Copies(bits, count)[j] == bits[(j % n + n - rotation) % n]
  {
    var n := |bits|;
    MulDistributes(count - 1, 1, n);
    if j < (count - 1) * n {
      CopiesAt(bits, count - 1, j);
    } else {
      var i := j - (count - 1) * n;
      UniqueRemainder(j, n, count - 1, i);
      RotateRightAt(bits, 13 * (count - 1), i);
    }
  }

  /** Adding `size` to the running sum with the carry brought around once. */
  lemma {:induction false} EndAroundAdd(sum: nat, chunk: nat, modulus: nat)
    requires modulus > 0 && chunk <= modulus
    ensures var v := EndAround(sum, modulus) + chunk;
            EndAround(sum + chunk, modulus) == if v <= modulus then v else v - modulus
  {
    if sum == 0 {
      EndAroundSmall(chunk, modulus);
    } else {
      var q, r := (sum - 1) / modulus, (sum - 1) % modulus;
      assert sum + chunk - 1 == q * modulus + (r + chunk);
      if r + chunk < modulus {
        UniqueRemainder(sum + chunk - 1, modulus, q, r + chunk);
      } else {
        MulDistributes(q, 1, modulus);
        UniqueRemainder(sum + chunk - 1, modulus, q + 1, r + chunk - modulus);
      }
    }
  }

  lemma {:induction false} AddNextChunk(bits: BitString, size: nat, k: nat, chunk: nat, modulus: nat)
    requires k * size <= k * size + size <= |bits| && (k + 1) * size == k * size + size
    requires chunk == ValueOf(bits[k * size..k * size + size])
    requires modulus > 0 && chunk <= modulus
    ensures var v := EndAround(ChunkSum(bits, size, k), modulus) + chunk;
            EndAround(ChunkSum(bits, size, k + 1), modulus) == if v <= modulus then v else v - modulus
  {
    EndAroundAdd(ChunkSum(bits, size, k), chunk, modulus);
  }

  lemma {:induction false} BigEndianUpdate(s: Bytes, i: nat, x: byte)
    requires i < |s|
    ensures BigEndian(s[i := x]) == BigEndian(s) + (x - s[i]) * Power(256, |s| - 1 - i)
  {
    var s' := s[..|s| - 1];
    if i == |s| - 1 {
      assert s[i := x][..|s| - 1] == s';
      assert Power(256, 0) == 1;
    } else {
      assert s[i := x][..|s| - 1] == s'[i := x];
      BigEndianUpdate(s', i, x);
      MulRotates(x - s[i], 256, Power(256, |s'| - 1 - i));
    }
  }

  /** One column of a byte-wise addition keeps the total. */
  lemma {:induction false} Column(s: Bytes, i: nat, addend: nat, carry: nat, high: nat, digit: byte, out: nat)
    requires i < |s|
    requires s[i] + addend + carry == 256 * out + digit
    ensures BigEndian(s[i := digit]) + out * Power(256, |s| - i) + high * Power(256, |s| - i)
         == BigEndian(s) + carry * Power(256, |s| - 1 - i) + (256 * high + addend) * Power(256, |s| - 1 - i)
  {
    hide *;
    var p := Power(256, |s| - 1 - i);
    BigEndianUpdate(s, i, digit);
    NextPower(|s| - 1 - i);
    ColumnArithmetic(s[i], addend, carry, high, digit, out, p);
  }

  lemma NextPower(n: nat)
    ensures Power(256, n + 1) == 256 * Power(256, n)
  {
  }

  lemma ColumnArithmetic(x: int, addend: int, carry: int, high: int, low: int, out: int, p: int)
    requires x + addend + carry == 256 * out + low
    ensures (low - x) * p + out * (256 * p) + high * (256 * p) == carry * p + (256 * high + addend) * p
  {
    assert (low - x) * p + out * (256 * p) + high * (256 * p) == ((low - x) + 256 * out + 256 * high) * p;
  }

  method AddChunk(result: array<byte>, chunk: array<byte>) returns (carry: nat)
    requires result != chunk && result.Length == chunk.Length
    modifies result
    ensures carry <= 1
    ensures BigEndian(result[..]) + carry * Power(256, result.Length)
         == old(BigEndian(result[..])) + BigEndian(chunk[..])
  {
    hide *;
    var n := result.Length;
    ghost var total := BigEndian(result[..]) + BigEndian(chunk[..]);
    carry := 0;
    var index := n - 1;
    assert chunk[..n] == chunk[..];
    NoColumns();
    while index >= 0
      invariant -1 <= index < n && carry <= 1
      invariant BigEndian(result[..]) + carry * Power(256, n - 1 - index)
              + BigEndian(chunk[..index + 1]) * Power(256, n - 1 - index) == total
    {
      var sum := result[index] + chunk[index] + carry;
      var digit: byte := sum % 256;
      ghost var before := result[..];
      Column(before, index, chunk[index], carry, BigEndian(chunk[..index]), digit, sum / 256);
      LastDigit(chunk[..index + 1]);
      assert chunk[..index + 1][..index] == chunk[..index];
      result[index] := digit;
      assert result[..] == before[index := digit];
      carry := sum / 256;
      index := index - 1;
    }
    assert chunk[..0] == [];
  }

  lemma NoColumns()
    ensures Power(256, 0) == 1 && BigEndian([]) == 0
  {
  }

  lemma LastDigit(s: Bytes)
    requires |s| > 0
    ensures BigEndian(s) == 256 * BigEndian(s[..|s| - 1]) + s[|s| - 1]
  {
  }

  /** The end-around carry loop; the measure is the value together with the carry still to be added. */
  method PropagateCarry(result: array<byte>, initial: nat)
    requires result.Length > 0 && initial <= 1
    modifies result
    ensures var v := old(BigEndian(result[..])) + initial;
            var b := Power(256, result.Length);
            BigEndian(result[..]) == if v < b then v else v - b + 1
  {
    hide *;
    var n := result.Length;
    var carry := initial;
    ghost var b := Power(256, n);
    ghost var v := BigEndian(result[..]) + initial;
    PowerAtLeast(n);
    BigEndianBound(result[..]);
    while carry != 0
      invariant 0 <= carry <= 1
      invariant BigEndian(result[..]) < b
      invariant carry == 0 ==> BigEndian(result[..]) == if v < b then v else v - b + 1
      invariant carry == 1 ==> BigEndian(result[..]) + 1 == v || (v == b && BigEndian(result[..]) == 0)
      decreases BigEndian(result[..]) + carry * b
    {
      ghost var start := BigEndian(result[..]);
      var index := n - 1;
      NoColumns();
      while index >= 0 && carry != 0
        invariant -1 <= index < n && 0 <= carry <= 1
        invariant BigEndian(result[..]) + carry * Power(256, n - 1 - index) == start + 1
      {
        var sum := result[index] + carry;
        var digit: byte := sum % 256;
        ghost var before := result[..];
        Column(before, index, 0, carry, 0, digit, sum / 256);
        result[index] := digit;
        assert result[..] == before[index := digit];
        carry := sum / 256;
        index := index - 1;
      }
      BigEndianBound(result[..]);
    }
  }

  /** The bytes of one chunk, assembled bit by bit from the rotated copies of the input. */
  method BuildChunk(input: Bytes, size: nat, chunkStart: nat, ghost count: nat) returns (chunk: array<byte>)
    requires |input| > 0 && size > 0
    requires chunkStart + 8 * size <= count * (8 * |input|)
    ensures fresh(chunk) && chunk.Length == size
    ensures BigEndian(chunk[..]) == ValueOf(Copies(AllBits(input), count)[chunkStart..chunkStart + 8 * size])
  {
    hide *;
    var inputBits := 8 * |input|;
    chunk := new byte[size](_ => 0);
    ghost var wanted := Copies(AllBits(input), count)[chunkStart..chunkStart + 8 * size];
    ghost var bits := NoBits(8 * size);
    ZeroBytes(chunk[..]);
    for bit := 0 to 8 * size
      invariant |bits| == |wanted| && forall i :: 0 <= i < |bits| ==> bits[i] == (i < bit && wanted[i])
      invariant AreBytesOf(chunk[..], bits)
    {
      var repeatedBit := chunkStart + bit;
      var repetition := repeatedBit / inputBits;
      var position := repeatedBit % inputBits;
      var rotation := 13 * repetition % inputBits;
      var sourceBit := (position + inputBits - rotation) % inputBits;
      assert wanted[bit] == BitAt(input, sourceBit) by {
        CopiesAt(AllBits(input), count, repeatedBit);
        AllBitsAt(input, sourceBit);
      }
      if BitAt(input, sourceBit) {
        SetBit(chunk[..], bits, bit);
        ghost var before := chunk[..];
        var octet: byte := OrBit(chunk[bit / 8], 7 - bit % 8);
        chunk[bit / 8] := octet;
        assert chunk[..] == before[bit / 8 := octet];
        bits := bits[bit := true];
      }
    }
    assert bits == wanted;
    BytesFromBits(chunk[..], wanted);
  }

  /** s holds exactly the given bits. */
  ghost predicate AreBytesOf(s: Bytes, bits: BitString) {
    && |bits| == 8 * |s|
    && forall i :: 0 <= i < |s| ==> s[i] == ValueOf(bits[8 * i..8 * i + 8])
  }

  lemma SetBit(s: Bytes, bits: BitString, bit: nat)
    requires AreBytesOf(s, bits) && bit < |bits|
    ensures 0 <= OrBit(s[bit / 8], 7 - bit % 8) < 256
    ensures AreBytesOf(s[bit / 8 := OrBit(s[bit / 8], 7 - bit % 8)], bits[bit := true])
  {
    var row := bit / 8;
    var octet := bits[8 * row..8 * row + 8];
    OrBitSets(octet, bit % 8);
    ValueOfBound(octet[bit % 8 := true]);
    PowersOfTwo();
    forall i | 0 <= i < |s|
      ensures bits[bit := true][8 * i..8 * i + 8] == if i == row then octet[bit % 8 := true] else bits[8 * i..8 * i + 8]
    {
    }
  }

  lemma ZeroBytes(s: Bytes)
    requires forall i :: 0 <= i < |s| ==> s[i] == 0
    ensures AreBytesOf(s, NoBits(8 * |s|))
    ensures forall i :: 0 <= i < 8 * |s| ==> !NoBits(8 * |s|)[i]
  {
    var bits := NoBits(8 * |s|);
    forall i | 0 <= i < |s| ensures s[i] == ValueOf(bits[8 * i..8 * i + 8]) {
      assert bits[8 * i..8 * i + 8] == NoBits(8);
      ZeroValue(8);
    }
  }

  lemma {:induction false} ZeroValue(n: nat)
    ensures ValueOf(NoBits(n)) == 0
  {
    if n > 0 {
      ZeroValue(n - 1);
      assert NoBits(n)[..n - 1] == NoBits(n - 1);
    }
  }

  lemma NonNegative(x: nat, y: nat)
    ensures x * y >= 0
  {
  }

  lemma {:induction false} BytesFromBits(s: Bytes, bits: BitString)
    requires AreBytesOf(s, bits)
    ensures BigEndian(s) == ValueOf(bits)
  {
    if |s| > 0 {
      var s', bits' := s[..|s| - 1], bits[..8 * (|s| - 1)];
      forall i | 0 <= i < |s'| ensures bits'[8 * i..8 * i + 8] == bits[8 * i..8 * i + 8] {
      }
      BytesFromBits(s', bits');
      var last := bits[8 * (|s| - 1)..];
      assert bits == bits' + last;
      ValueOfConcat(bits', last);
      PowersOfTwo();
      assert last == bits[8 * (|s| - 1)..8 * (|s| - 1) + 8];
    }
  }

  /** result += chunk in ones' complement arithmetic. */
  method FoldIn(result: array<byte>, chunk: array<byte>)
    requires result != chunk && result.Length == chunk.Length > 0
    modifies result
    ensures var v := old(BigEndian(result[..])) + BigEndian(chunk[..]);
            var modulus := Power(256, result.Length) - 1;
            BigEndian(result[..]) == if v <= modulus then v else v - modulus
  {
    hide *;
    BigEndianBound(result[..]);
    BigEndianBound(chunk[..]);
    ghost var v := BigEndian(result[..]) + BigEndian(chunk[..]);
    var carry := AddChunk(result, chunk);
    BigEndianBound(result[..]);
    CarryAround(BigEndian(result[..]), carry, Power(256, result.Length), v);
    PropagateCarry(result, carry);
  }

  lemma CarryAround(low: nat, carry: nat, b: nat, v: nat)
    requires carry <= 1 && low + carry * b == v && low < b && v <= 2 * b - 2
    ensures (if low + carry < b then low + carry else low + carry - b + 1) == if v <= b - 1 then v else v - (b - 1)
  {
    if carry == 1 {
      assert v == low + b;
    }
  }

  /** nfold */
  method NFold(input: Bytes, outputBytes: nat) returns (folded: Bytes)
    ensures folded == Fold(input, outputBytes)
  {
    hide *;
    var inputBits := 8 * |input|;
    var outputBits := 8 * outputBytes;
    var lcmBits := Lcm(inputBits, outputBits);
    var result := new byte[outputBytes](_ => 0);
    assert result[..] == Zeros(outputBytes);
    if lcmBits == 0 {
      NothingToFold(input, outputBytes);
      return result[..];
    }
    NothingToFold(input, outputBytes);
    ghost var copies := Copies(AllBits(input), CopyCount(input, outputBytes));
    ghost var chunks := ChunkCount(input, outputBytes);
    ghost var modulus := Power(256, outputBytes) - 1;
    ghost var k := 0;
    StartOfFold(input, outputBytes);
    var chunkStart := 0;
    while chunkStart < lcmBits
      invariant chunkStart == k * outputBits && 0 <= k <= chunks
      invariant k * outputBits <= |copies|
      invariant BigEndian(result[..]) == EndAround(ChunkSum(copies, outputBits, k), modulus)
      decreases lcmBits - chunkStart
    {
      NextChunk(k, chunks, outputBits);
      var chunk := BuildChunk(input, outputBytes, chunkStart, CopyCount(input, outputBytes));
      BigEndianBound(chunk[..]);
      AddNextChunk(copies, outputBits, k, BigEndian(chunk[..]), modulus);
      FoldIn(result, chunk);
      chunkStart := chunkStart + outputBits;
      k := k + 1;
    }
    SameFactor(k, chunks, outputBits);
    EndOfFold(input, result[..]);
    folded := result[..];
  }

  lemma NothingToFold(input: Bytes, size: nat)
    ensures Lcm(8 * |input|, 8 * size) == 0 <==> |input| == 0 || size == 0
    ensures |input| == 0 || size == 0 ==> Fold(input, size) == Zeros(size)
  {
  }

  lemma {:induction false} StartOfFold(input: Bytes, size: nat)
    requires |input| > 0 && size > 0
    ensures Power(256, size) > 1
    ensures var copies := Copies(AllBits(input), CopyCount(input, size));
            && Lcm(8 * |input|, 8 * size) == |copies| == ChunkCount(input, size) * (8 * size)
            && EndAround(ChunkSum(copies, 8 * size, 0), Power(256, size) - 1) == BigEndian(Zeros(size))
  {
    PowerAtLeast(size);
    ZerosValue(size);
  }

  lemma {:induction false} EndOfFold(input: Bytes, result: Bytes)
    requires |input| > 0 && |result| > 0 && Power(256, |result|) > 1
    requires BigEndian(result)
          == EndAround(ChunkSum(Copies(AllBits(input), CopyCount(input, |result|)), 8 * |result|,
                                ChunkCount(input, |result|)),
                                              Power(256, |result|) - 1)
    ensures result == Fold(input, |result|)
  {
    BytesOfValue(result);
  }

  lemma {:induction false} ZerosValue(n: nat)
    ensures BigEndian(Zeros(n)) == 0
  {
    if n > 0 {
      ZerosValue(n - 1);
      assert Zeros(n)[..n - 1] == Zeros(n - 1);
    }
  }

  lemma NextChunk(k: nat, chunks: nat, size: nat)
    requires k * size < chunks * size
    ensures k + 1 <= chunks && (k + 1) * size == k * size + size <= chunks * size
  {
    if k >= chunks {
      MulDistributes(k - chunks, chunks, size);
      NonNegative(k - chunks, size);
    }
    MulDistributes(chunks - k - 1, k + 1, size);
    NonNegative(chunks - k - 1, size);
    MulDistributes(k, 1, size);
  }

  lemma SameFactor(k: nat, chunks: nat, size: nat)
    requires k <= chunks && k * size >= chunks * size && size > 0
    ensures k == chunks
  {
    if k < chunks {
      MulDistributes(chunks - k - 1, k + 1, size);
      NonNegative(chunks - k - 1, size);
      MulDistributes(k, 1, size);
    }
  }
}

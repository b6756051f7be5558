/** The canonical length-value encoding of util.go: every chunk becomes a
    4-byte little-endian length followed by the chunk's bytes, and the
    records are concatenated with nothing in between and nothing around. */
module LengthValue {
  import opened PmtTypes

  const TWO_POW_32: int := 0x1_0000_0000

  /** The four bytes `binary.LittleEndian.PutUint32` writes for `uint32(n)`:
      the conversion keeps n modulo 2^32, and byte i is the value shifted
      right by 8 i bits, least significant byte first. */
  function Le32(n: nat): (b: Bytes)
    ensures |b| == 4
  {
    var m := n % TWO_POW_32;
    var q1 := m / 0x100;
    var q2 := q1 / 0x100;
    var q3 := q2 / 0x100;
    [(m % 0x100) as byte, (q1 % 0x100) as byte, (q2 % 0x100) as byte, (q3 % 0x100) as byte]
  }

  /** The unsigned value of four little-endian bytes. */
  function Le32Value(b: Bytes): (n: nat)
    requires |b| == 4
    ensures n < TWO_POW_32
  {
    b[0] as int + 0x100 * (b[1] as int + 0x100 * (b[2] as int + 0x100 * b[3] as int))
  }

  /** x is its low byte plus 256 times the rest. */
  lemma SplitLowByte(x: nat)
    ensures x == x % 0x100 + 0x100 * (x / 0x100)
  {
  }

  /** Splitting off the low byte of lo + 256 * hi. */
  lemma LowByte(lo: int, hi: int)
    requires 0 <= lo < 0x100 && hi >= 0
    ensures (lo + 0x100 * hi) % 0x100 == lo && (lo + 0x100 * hi) / 0x100 == hi
  {
  }

  lemma Le32ValueOfLe32(n: nat)
    requires n < TWO_POW_32
    ensures Le32Value(Le32(n)) == n
  {
    var q1 := n / 0x100;
    var q2 := q1 / 0x100;
    var q3 := q2 / 0x100;
    SplitLowByte(n);
    SplitLowByte(q1);
    SplitLowByte(q2);
    assert q1 < 0x100_0000 && q2 < 0x1_0000 && q3 < 0x100;
    var b := Le32(n);
    assert n % TWO_POW_32 == n;
    assert b[0] as int == n % 0x100 && b[1] as int == q1 % 0x100;
    assert b[2] as int == q2 % 0x100 && b[3] as int == q3;
    calc {
      Le32Value(b);
      n % 0x100 + 0x100 * (q1 % 0x100 + 0x100 * (q2 % 0x100 + 0x100 * q3));
      n % 0x100 + 0x100 * (q1 % 0x100 + 0x100 * q2);
      n % 0x100 + 0x100 * q1;
      n;
    }
  }

  lemma Le32OfLe32Value(b: Bytes)
    requires |b| == 4
    ensures Le32(Le32Value(b)) == b
  {
    var b0, b1, b2, b3 := b[0] as int, b[1] as int, b[2] as int, b[3] as int;
    var q2 := b2 + 0x100 * b3;
    var q1 := b1 + 0x100 * q2;
    var n := b0 + 0x100 * q1;
    assert n == Le32Value(b) && n % TWO_POW_32 == n;
    LowByte(b0, q1);
    LowByte(b1, q2);
    LowByte(b2, b3);
    LowByte(b3, 0);
  }

  /** The record of one chunk: its length, then its bytes. */
  function Record(chunk: Bytes): Bytes {
    Le32(|chunk|) + chunk
  }

  /** `toLengthValue(chunks...)` as a value: the records of the chunks, in order. */
  function Encode(chunks: seq<Bytes>): Bytes {
    if chunks == [] then [] else Record(chunks[0]) + Encode(chunks[1..])
  }

  /** The number of bytes the encoding takes: four plus the length of each chunk. */
  function EncodedSize(chunks: seq<Bytes>): nat {
    if chunks == [] then 0 else 4 + |chunks[0]| + EncodedSize(chunks[1..])
  }

  /** Where the record of chunk k starts. */
  function Offset(chunks: seq<Bytes>, k: nat): nat
    requires k <= |chunks|
  {
    EncodedSize(chunks[..k])
  }

  /** Chunks that fit a uint32 length, the only ones whose length survives the conversion. */
  predicate Fits(chunks: seq<Bytes>) {
    forall i :: 0 <= i < |chunks| ==> |chunks[i]| < TWO_POW_32
  }

  lemma {:induction false} EncodeSize(chunks: seq<Bytes>)
    ensures |Encode(chunks)| == EncodedSize(chunks)
  {
    if chunks != [] {
      EncodeSize(chunks[1..]);
    }
  }

  lemma EncodeEmptyList()
    ensures Encode([]) == []
  {
  }

  /** An empty chunk contributes exactly four zero bytes. */
  lemma EmptyChunkIsFourZeros()
    ensures Encode([[]]) == [0, 0, 0, 0]
  {
    assert Encode([[]]) == Record([]) + Encode([]);
  }

  /** Encoding distributes over concatenation of chunk lists. */
  lemma {:induction false} EncodeAppend(a: seq<Bytes>, b: seq<Bytes>)
    ensures Encode(a + b) == Encode(a) + Encode(b)
  {
    if a == [] {
      assert a + b == b;
    } else {
      assert (a + b)[0] == a[0];
      assert (a + b)[1..] == a[1..] + b;
      EncodeAppend(a[1..], b);
    }
  }

  lemma EncodeOne(c: Bytes)
    ensures Encode([c]) == Le32(|c|) + c
  {
    assert Encode([c]) == Record(c) + Encode([]);
  }

  /** Each chunk sits at its offset, right after its length as a 4-byte
      little-endian integer (modulo 2^32). */
  lemma EncodeLayout(chunks: seq<Bytes>, k: nat)
    requires k < |chunks|
    ensures Offset(chunks, k) + 4 + |chunks[k]| <= |Encode(chunks)|
    ensures Encode(chunks)[Offset(chunks, k)..Offset(chunks, k) + 4] == Le32(|chunks[k]|)
    ensures Encode(chunks)[Offset(chunks, k) + 4..Offset(chunks, k) + 4 + |chunks[k]|] == chunks[k]
  {
    assert chunks == chunks[..k] + chunks[k..];
    EncodeAppend(chunks[..k], chunks[k..]);
    EncodeSize(chunks[..k]);
    var c, tail := chunks[k], Encode(chunks[k..]);
    assert tail == Le32(|c|) + c + Encode(chunks[k..][1..]);
    RecordPrefix(c, Encode(chunks[k..][1..]));
    SliceAfterPrefix(Encode(chunks[..k]), tail, 0, 4);
    SliceAfterPrefix(Encode(chunks[..k]), tail, 4, 4 + |c|);
  }

  /** A record followed by anything starts with its length, then its chunk. */
  lemma RecordPrefix(c: Bytes, rest: Bytes)
    ensures (Le32(|c|) + c + rest)[..4] == Le32(|c|)
    ensures (Le32(|c|) + c + rest)[4..4 + |c|] == c
  {
  }

  /** Slicing past a prefix slices what follows it. */
  lemma SliceAfterPrefix(a: Bytes, t: Bytes, i: nat, j: nat)
    requires i <= j <= |t|
    ensures (a + t)[|a| + i..|a| + j] == t[i..j]
  {
  }

  /** The sequential reader: a 4-byte little-endian length, that many bytes,
      and again until the input is used up. */
  function Decode(b: Bytes): Option<seq<Bytes>>
    decreases |b|
  {
    if b == [] then Some([])
    else if |b| < 4 then None
    else
      var n := Le32Value(b[..4]);
      if |b| - 4 < n then None
      else
        match Decode(b[4 + n..])
        case None => None
        case Some(rest) => Some([b[4..4 + n]] + rest)
  }

  /** The reader recovers every list of chunks whose lengths fit 32 bits. */
  lemma {:induction false} DecodeEncode(chunks: seq<Bytes>)
    requires Fits(chunks)
    ensures Decode(Encode(chunks)) == Some(chunks)
  {
    if chunks != [] {
      var c := chunks[0];
      var b := Encode(chunks);
      assert b == Le32(|c|) + c + Encode(chunks[1..]);
      assert b[..4] == Le32(|c|);
      Le32ValueOfLe32(|c|);
      assert b[4..4 + |c|] == c;
      assert b[4 + |c|..] == Encode(chunks[1..]);
      DecodeEncode(chunks[1..]);
      assert [c] + chunks[1..] == chunks;
    }
  }

  /** Whatever the reader accepts is the canonical encoding of what it returns. */
  lemma {:induction false} EncodeDecode(b: Bytes)
    requires Decode(b).Some?
    ensures Fits(Decode(b).value)
    ensures Encode(Decode(b).value) == b
    decreases |b|
  {
    if b != [] {
      var n := Le32Value(b[..4]);
      var tail := b[4 + n..];
      EncodeDecode(tail);
      var rest := Decode(tail).value;
      assert Decode(b).value == [b[4..4 + n]] + rest;
      RecordThenRest(b, rest);
    }
  }

  /** A record read off the front of b, followed by the encoding of the rest. */
  lemma RecordThenRest(b: Bytes, rest: seq<Bytes>)
    requires |b| >= 4 && 4 + Le32Value(b[..4]) <= |b|
    requires Fits(rest) && Encode(rest) == b[4 + Le32Value(b[..4])..]
    ensures Fits([b[4..4 + Le32Value(b[..4])]] + rest)
    ensures Encode([b[4..4 + Le32Value(b[..4])]] + rest) == b
  {
    var n := Le32Value(b[..4]);
    var c := b[4..4 + n];
    FitsCons(c, rest);
    EncodeCons(c, rest);
    Le32OfLe32Value(b[..4]);
    assert b == b[..4] + c + b[4 + n..];
  }

  lemma FitsCons(c: Bytes, rest: seq<Bytes>)
    requires |c| < TWO_POW_32 && Fits(rest)
    ensures Fits([c] + rest)
  {
    forall i | 0 <= i < |[c] + rest| ensures |([c] + rest)[i]| < TWO_POW_32 {
      if i > 0 {
        assert ([c] + rest)[i] == rest[i - 1];
      }
    }
  }

  lemma EncodeCons(c: Bytes, rest: seq<Bytes>)
    ensures Encode([c] + rest) == Le32(|c|) + c + Encode(rest)
  {
    assert ([c] + rest)[0] == c && ([c] + rest)[1..] == rest;
  }

  /** Hence the encoding is injective on chunks that fit 32 bits. */
  lemma EncodeInjective(a: seq<Bytes>, b: seq<Bytes>)
    requires Fits(a) && Fits(b)
    requires Encode(a) == Encode(b)
    ensures a == b
  {
    DecodeEncode(a);
    DecodeEncode(b);
  }

  /** binary.LittleEndian.PutUint32 into the first four bytes of buf. */
  method PutUint32(buf: array<byte>, v: nat)
    requires buf.Length >= 4 && v < TWO_POW_32
    modifies buf
    ensures buf[..4] == Le32(v)
    ensures buf[4..] == old(buf[4..])
  {
    // v >> 16 is (v >> 8) >> 8, and so on
    var v8 := v / 0x100;
    var v16 := v8 / 0x100;
    var v24 := v16 / 0x100;
    buf[0] := (v % 0x100) as byte;
    buf[1] := (v8 % 0x100) as byte;
    buf[2] := (v16 % 0x100) as byte;
    buf[3] := (v24 % 0x100) as byte;
    Le32Below(v);
    assert buf[..4] == [(v % 0x100) as byte, (v8 % 0x100) as byte, (v16 % 0x100) as byte, (v24 % 0x100) as byte];
  }

  /** Below 2^32 the uint32 conversion keeps the value as it is. */
  lemma Le32Below(v: nat)
    requires v < TWO_POW_32
    ensures Le32(v) == [(v % 0x100) as byte, (v / 0x100 % 0x100) as byte,
                        (v / 0x100 / 0x100 % 0x100) as byte, (v / 0x100 / 0x100 / 0x100 % 0x100) as byte]
  {
    assert v % TWO_POW_32 == v;
  }

  /** The length conversion to uint32 does not change the bytes written. */
  lemma Le32Mod(n: nat)
    ensures Le32(n % TWO_POW_32) == Le32(n)
  {
    assert n % TWO_POW_32 % TWO_POW_32 == n % TWO_POW_32;
  }

  /** One more chunk adds its record at the end. */
  lemma EncodeSnoc(chunks: seq<Bytes>, i: nat)
    requires i < |chunks|
    ensures Encode(chunks[..i + 1]) == Encode(chunks[..i]) + Le32(|chunks[i]|) + chunks[i]
  {
    assert chunks[..i + 1] == chunks[..i] + [chunks[i]];
    EncodeAppend(chunks[..i], [chunks[i]]);
    EncodeOne(chunks[i]);
  }

  /** util.go's loop: append a freshly filled length buffer, then the chunk. */
  method ToLengthValue(chunks: seq<Bytes>) returns (out: Bytes)
    ensures out == Encode(chunks)
    ensures |out| == EncodedSize(chunks)
  {
    out := [];
    for i := 0 to |chunks|
      invariant out == Encode(chunks[..i])
    {
      var chunk := chunks[i];
      var lenBuf := new byte[4];
      PutUint32(lenBuf, |chunk| % TWO_POW_32);
      assert lenBuf[..] == lenBuf[..4];
      Le32Mod(|chunk|);
      out := out + lenBuf[..];
      out := out + chunk;
      EncodeSnoc(chunks, i);
    }
    assert chunks[..|chunks|] == chunks;
    EncodeSize(chunks);
  }
}

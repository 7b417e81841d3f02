/** The byte decoders every accessor of `cl.rs` shares: an info query hands back
    raw bytes, and these read them as a little-endian integer, as a run of
    integers, or as a NUL-terminated string. */
module Marshal {
  import opened Wrappers

  newtype uint8 = x: int | 0 <= x < 256

  /** 256^k: the number of distinct values k bytes can hold. */
  function Pow256(k: nat): (r: nat)
    ensures r >= 1
  {
    if k == 0 then 1 else 256 * Pow256(k - 1)
  }

  // ---------------------------------------------------------------------------
  // Unsigned little-endian value of a byte run
  // ---------------------------------------------------------------------------

  /** The right fold `sum := 256 * sum + byte` from 0, over unbounded integers:
      the first byte is the least significant one. */
  function Decode(bytes: seq<uint8>): (n: nat)
    ensures n < Pow256(|bytes|)
  {
    if bytes == [] then 0
    else
      var rest := Decode(bytes[1..]);
      assert rest <= Pow256(|bytes| - 1) - 1;
      bytes[0] as nat + 256 * rest
  }

  /** The k-byte little-endian encoding of n (the low k bytes when n does not fit). */
  function Encode(n: nat, k: nat): (bytes: seq<uint8>)
    ensures |bytes| == k
  {
    if k == 0 then [] else [(n % 256) as uint8] + Encode(n / 256, k - 1)
  }

  /** Positional reading: byte i carries weight 256^i.  Summed from the last
      byte down, independently of the fold. */
  function Positional(bytes: seq<uint8>): nat
  {
    if bytes == [] then 0
    else Positional(bytes[..|bytes| - 1]) + Pow256(|bytes| - 1) * bytes[|bytes| - 1] as nat
  }

  lemma {:induction false} DecodeAppend(a: seq<uint8>, b: seq<uint8>)
    ensures Decode(a + b) == Decode(a) + Pow256(|a|) * Decode(b)
  {
    if a == [] {
      assert a + b == b;
    } else {
      var x, p, d := Decode(a[1..]), Pow256(|a| - 1), Decode(b);
      assert Decode(a + b) == a[0] as nat + 256 * Decode(a[1..] + b) by {
        assert (a + b)[1..] == a[1..] + b;
      }
      DecodeAppend(a[1..], b);
      assert Decode(a) == a[0] as nat + 256 * x;
      assert Pow256(|a|) == 256 * p;
      StepAppend(a[0] as nat, x, p, d);
    }
  }

  /** One fold step over a concatenation, as plain arithmetic. */
  lemma StepAppend(b0: int, x: int, p: int, d: int)
    ensures b0 + 256 * (x + p * d) == (b0 + 256 * x) + (256 * p) * d
  {
    MulDistributes(256, x, p * d);
    MulAssociates(256, p, d);
  }

  lemma MulDistributes(a: int, b: int, c: int)
    ensures a * (b + c) == a * b + a * c
  {
  }

  lemma MulAssociates(a: int, b: int, c: int)
    ensures a * (b * c) == (a * b) * c
  {
  }

  /** The fold gives byte i the weight 256^i: it reads the buffer little-endian. */
  lemma {:induction false} DecodeIsPositional(bytes: seq<uint8>)
    ensures Decode(bytes) == Positional(bytes)
  {
    if bytes != [] {
      var k := |bytes| - 1;
      var init, last := bytes[..k], bytes[k];
      assert Decode(bytes) == Decode(init) + Pow256(k) * last as nat by {
        assert bytes == init + [last];
        assert Decode([last]) == last as nat by {
          assert [last][1..] == [];
        }
        DecodeAppend(init, [last]);
      }
      DecodeIsPositional(init);
    }
  }

  /** Decoding the encoding of a value that fits gives the value back. */
  lemma {:induction false} DecodeEncode(n: nat, k: nat)
    requires n < Pow256(k)
    ensures Decode(Encode(n, k)) == n
  {
    if k > 0 {
      var e := Encode(n, k);
      assert e[1..] == Encode(n / 256, k - 1);
      DecodeEncode(n / 256, k - 1);
    }
  }

  /** Encoding a decoded buffer at its own length gives the buffer back. */
  lemma {:induction false} EncodeDecode(bytes: seq<uint8>)
    ensures Encode(Decode(bytes), |bytes|) == bytes
  {
    if bytes != [] {
      var n := Decode(bytes);
      assert n % 256 == bytes[0] as nat && n / 256 == Decode(bytes[1..]);
      EncodeDecode(bytes[1..]);
    }
  }

  // ---------------------------------------------------------------------------
  // cl_extract_int: the same fold, in a fixed-width integer type
  // ---------------------------------------------------------------------------

  type Width = w: nat | 0 < w witness 1

  /** A native integer type: its size in bytes and whether it is signed. */
  datatype IntType = IntType(width: Width, signed: bool)

  /** Widths from the OpenCL C headers; `size_t` and `intptr_t` as on a 64-bit target. */
  const ClUint := IntType(4, false)
  const ClUlong := IntType(8, false)
  const ClBool := ClUint
  const ClBitfield := ClUlong
  const SizeT := IntType(8, false)
  const IntPtr := IntType(8, true)

  function Modulus(t: IntType): (m: nat)
    ensures m >= 256 && m % 2 == 0
  {
    var p := Pow256(t.width - 1);
    assert Pow256(t.width) == (128 * p) * 2 + 0 && Pow256(t.width) >= 256 by {
      MulAtLeast(p, 256);
    }
    ModOfMultipleSum(128 * p, 2, 0);
    Pow256(t.width)
  }

  predicate InRange(t: IntType, v: int)
  {
    if t.signed then -(Modulus(t) / 2) <= v < Modulus(t) / 2 else 0 <= v < Modulus(t)
  }

  /** The fold as the fixed-width type computes it: every step wraps modulo
      2^(8 * width).  The value is the bit pattern, read as unsigned. */
  function WrappingFold(t: IntType, bytes: seq<uint8>): (bits: nat)
    ensures bits < Modulus(t)
  {
    if bytes == [] then 0
    else (bytes[0] as nat + 256 * WrappingFold(t, bytes[1..])) % Modulus(t)
  }

  /** Reading a bit pattern as a value of `t` (two's complement when signed). */
  function FromBits(t: IntType, bits: nat): (v: int)
    requires bits < Modulus(t)
    ensures InRange(t, v)
    ensures v % Modulus(t) == bits
  {
    var m := Modulus(t);
    if t.signed && bits >= m / 2 then
      ModOfMultipleSum(-1, m, bits);
      bits - m
    else
      ModOfMultipleSum(0, m, bits);
      bits
  }

  /** Division by a positive modulus is determined by quotient and remainder. */
  lemma ModOfMultipleSum(a: int, m: int, r: int)
    requires m > 0 && 0 <= r < m
    ensures (a * m + r) % m == r && (a * m + r) / m == a
  {
    var n := a * m + r;
    var q, s := n / m, n % m;
    assert n == q * m + s;
    assert (q - a) * m == r - s by {
      MulDistributes(m, q, -a);
    }
    if q > a {
      MulAtLeast(q - a, m);
    } else if q < a {
      MulAtLeast(a - q, m);
    }
  }

  lemma MulAtLeast(k: int, m: int)
    requires k >= 1 && m > 0
    ensures k * m >= m
  {
    assert k * m == (k - 1) * m + m;
  }

  lemma AddMultipleMod(x: int, q: int, m: int)
    requires m > 0
    ensures (x + q * m) % m == x % m
  {
    var d, r := x / m, x % m;
    assert x == d * m + r;
    assert x + q * m == (d + q) * m + r;
    ModOfMultipleSum(d + q, m, r);
  }

  /** One fold step commutes with reduction modulo m. */
  lemma FoldStepMod(b: int, d: int, m: int)
    requires m > 0
    ensures (b + 256 * (d % m)) % m == (b + 256 * d) % m
  {
    var q, w := d / m, d % m;
    assert d == q * m + w;
    assert b + 256 * d == (b + 256 * w) + (256 * q) * m by {
      MulDistributes(256, q * m, w);
      MulAssociates(256, q, m);
    }
    AddMultipleMod(b + 256 * w, 256 * q, m);
  }

  /** Wrapping at every step and wrapping once at the end agree. */
  lemma {:induction false} WrappingFoldIsDecodeMod(t: IntType, bytes: seq<uint8>)
    ensures WrappingFold(t, bytes) == Decode(bytes) % Modulus(t)
  {
    if bytes == [] {
      ModOfMultipleSum(0, Modulus(t), 0);
    } else {
      var m := Modulus(t);
      var b, d := bytes[0] as int, Decode(bytes[1..]);
      var w := WrappingFold(t, bytes[1..]);
      WrappingFoldIsDecodeMod(t, bytes[1..]);
      assert WrappingFold(t, bytes) == (b + 256 * w) % m;
      FoldStepMod(b, d, m);
      var e := b + 256 * d;
      assert Decode(bytes) == e;
      assert (b + 256 * w) % m == e % m;
    }
  }

  /** cl_extract_int!(t, bytes): the value of type `t` the fold leaves behind.
      It is the little-endian value of the bytes, reduced into the range of `t`. */
  function ExtractInt(t: IntType, bytes: seq<uint8>): (v: int)
    ensures InRange(t, v)
    ensures v % Modulus(t) == Decode(bytes) % Modulus(t)
  {
    WrappingFoldIsDecodeMod(t, bytes);
    FromBits(t, WrappingFold(t, bytes))
  }

  /** A buffer no longer than the type (and, for a signed type, shorter) is read
      exactly: no wrap-around occurs. */
  lemma ExtractIntExact(t: IntType, bytes: seq<uint8>)
    requires |bytes| <= t.width
    requires t.signed ==> |bytes| < t.width
    ensures ExtractInt(t, bytes) == Decode(bytes)
  {
    var d := Decode(bytes);
    FoldFits(t, bytes);
    if t.signed {
      assert d < Modulus(t) / 2 by {
        HalfModulus(t);
        PowMonotone(|bytes|, t.width - 1);
      }
    }
    assert ExtractInt(t, bytes) == FromBits(t, d);
  }

  /** A buffer that fits the type folds to its exact value. */
  lemma FoldFits(t: IntType, bytes: seq<uint8>)
    requires |bytes| <= t.width
    ensures WrappingFold(t, bytes) == Decode(bytes)
  {
    PowMonotone(|bytes|, t.width);
    WrappingFoldIsDecodeMod(t, bytes);
    ModOfMultipleSum(0, Modulus(t), Decode(bytes));
  }

  lemma HalfModulus(t: IntType)
    ensures Modulus(t) / 2 == 128 * Pow256(t.width - 1)
  {
    var p := Pow256(t.width - 1);
    assert Modulus(t) == (128 * p) * 2 + 0;
    ModOfMultipleSum(128 * p, 2, 0);
  }

  lemma {:induction false} PowMonotone(i: nat, j: nat)
    requires i <= j
    ensures Pow256(i) <= Pow256(j)
  {
    if i < j {
      PowMonotone(i, j - 1);
    }
  }

  // ---------------------------------------------------------------------------
  // cl_extract_ints: consecutive chunks of the type's size, each decoded
  // ---------------------------------------------------------------------------

  /** Consecutive, non-overlapping runs of `size` bytes in order; the last run is
      shorter when the length is not a multiple of `size`. */
  function Chunks(bytes: seq<uint8>, size: Width): (runs: seq<seq<uint8>>)
    ensures forall i :: 0 <= i < |runs| ==> 0 < |runs[i]| <= size
    decreases |bytes|
  {
    if bytes == [] then []
    else if |bytes| <= size then [bytes]
    else [bytes[..size]] + Chunks(bytes[size..], size)
  }

  function Flatten(runs: seq<seq<uint8>>): seq<uint8>
  {
    if runs == [] then [] else runs[0] + Flatten(runs[1..])
  }

  /** Chunking loses and reorders nothing. */
  lemma {:induction false} FlattenChunks(bytes: seq<uint8>, size: Width)
    ensures Flatten(Chunks(bytes, size)) == bytes
    decreases |bytes|
  {
    if |bytes| > size {
      var runs := Chunks(bytes, size);
      assert runs[1..] == Chunks(bytes[size..], size);
      FlattenChunks(bytes[size..], size);
      assert bytes == bytes[..size] + bytes[size..];
    } else if bytes != [] {
      assert Flatten([bytes]) == bytes + Flatten([]);
    }
  }

  /** A buffer of q whole runs of `size` bytes has q chunks. */
  lemma {:induction false} ChunksCount(bytes: seq<uint8>, size: Width, q: nat)
    requires |bytes| == q * size
    ensures |Chunks(bytes, size)| == q
    decreases q
  {
    if q > 0 {
      assert |bytes| == (q - 1) * size + size by {
        MulDistributes(size, q - 1, 1);
      }
      if q > 1 {
        assert |bytes| > size by {
          MulAtLeast(q - 1, size);
        }
        ChunksCount(bytes[size..], size, q - 1);
      }
    }
  }

  /** In a buffer of q whole runs, chunk i is bytes [i*size, (i+1)*size). */
  lemma {:induction false} ChunkAt(bytes: seq<uint8>, size: Width, q: nat, i: nat)
    requires |bytes| == q * size && i < q
    ensures (i + 1) * size <= |bytes|
    ensures |Chunks(bytes, size)| == q && Chunks(bytes, size)[i] == bytes[i * size..(i + 1) * size]
    decreases q
  {
    ChunksCount(bytes, size, q);
    assert (i + 1) * size <= |bytes| by {
      MulMonotone(i + 1, q, size);
    }
    if i > 0 {
      var rest := bytes[size..];
      assert |rest| == (q - 1) * size by {
        MulDistributes(size, q - 1, 1);
      }
      ChunkAt(rest, size, q - 1, i - 1);
      ShiftRun(bytes, size, i);
    }
  }

  lemma MulMonotone(a: nat, b: nat, c: nat)
    requires a <= b
    ensures a * c <= b * c
  {
    MulDistributes(c, a, b - a);
  }

  /** Run i - 1 of the bytes after the first run is run i of the whole buffer. */
  lemma ShiftRun(bytes: seq<uint8>, size: Width, i: nat)
    requires 0 < i && (i + 1) * size <= |bytes|
    ensures size <= |bytes|
    ensures i * size == (i - 1) * size + size && (i + 1) * size == i * size + size
    ensures bytes[size..][(i - 1) * size..i * size] == bytes[i * size..(i + 1) * size]
  {
    MulDistributes(size, i - 1, 1);
    MulDistributes(size, i, 1);
  }

  /** When the length is a multiple of the size there are length/size chunks,
      and chunk i is bytes [i*size, (i+1)*size). */
  lemma ChunksOfMultiple(bytes: seq<uint8>, size: Width, i: nat)
    requires |bytes| % size == 0
    ensures |Chunks(bytes, size)| == |bytes| / size
    ensures i < |bytes| / size ==>
              (i + 1) * size <= |bytes| && Chunks(bytes, size)[i] == bytes[i * size..(i + 1) * size]
  {
    var q := |bytes| / size;
    assert |bytes| == q * size + |bytes| % size;
    ChunksCount(bytes, size, q);
    if i < q {
      ChunkAt(bytes, size, q, i);
    }
  }

  /** cl_extract_ints!(t, bytes): each chunk decoded, in order. */
  function ExtractInts(t: IntType, bytes: seq<uint8>): (vs: seq<int>)
    ensures |vs| == |Chunks(bytes, t.width)|
    ensures forall i :: 0 <= i < |vs| ==> InRange(t, vs[i])
  {
    var runs := Chunks(bytes, t.width);
    seq(|runs|, i requires 0 <= i < |runs| => ExtractInt(t, runs[i]))
  }

  /** Element count and order of cl_extract_ints on a buffer of whole elements:
      element i is the decode of bytes [i*w, (i+1)*w). */
  lemma ExtractIntsElement(t: IntType, bytes: seq<uint8>, i: nat)
    requires |bytes| % t.width == 0
    requires i < |bytes| / t.width
    ensures |ExtractInts(t, bytes)| == |bytes| / t.width
    ensures (i + 1) * t.width <= |bytes|
    ensures ExtractInts(t, bytes)[i] == ExtractInt(t, bytes[i * t.width..(i + 1) * t.width])
    ensures !t.signed ==> ExtractInts(t, bytes)[i] == Decode(bytes[i * t.width..(i + 1) * t.width])
  {
    ChunksOfMultiple(bytes, t.width, i);
    var run := bytes[i * t.width..(i + 1) * t.width];
    if !t.signed {
      ExtractIntExact(t, run);
    }
  }

  /** Values of an unsigned type written as consecutive little-endian words. */
  function EncodeInts(t: IntType, vs: seq<nat>): (bytes: seq<uint8>)
    ensures |bytes| == |vs| * t.width
  {
    if vs == [] then [] else Encode(vs[0], t.width) + EncodeInts(t, vs[1..])
  }

  /** Reading back written words gives the words: cl_extract_ints inverts
      EncodeInts for an unsigned type. */
  lemma {:induction false} ExtractEncodeInts(t: IntType, vs: seq<nat>)
    requires !t.signed
    requires forall i :: 0 <= i < |vs| ==> vs[i] < Modulus(t)
    ensures ExtractInts(t, EncodeInts(t, vs)) == vs
  {
    if vs != [] {
      var bytes := EncodeInts(t, vs);
      var head := Encode(vs[0], t.width);
      var tail := EncodeInts(t, vs[1..]);
      assert bytes == head + tail;
      assert bytes[..t.width] == head && bytes[t.width..] == tail;
      ExtractEncodeInts(t, vs[1..]);
      DecodeEncode(vs[0], t.width);
      ExtractIntExact(t, head);
      if tail == [] {
        assert bytes == head;
        assert Chunks(bytes, t.width) == [head];
      } else {
        assert Chunks(bytes, t.width) == [head] + Chunks(tail, t.width);
      }
    }
  }

  // ---------------------------------------------------------------------------
  // cl_extract_string and the boolean accessors
  // ---------------------------------------------------------------------------

  /** cl_extract_string!(bytes): the unchecked raw conversion takes the last
      byte for the NUL terminator, whatever it holds, and keeps every byte
      before it (interior NUL bytes included). */
  function ExtractString(bytes: seq<uint8>): (s: seq<uint8>)
    requires |bytes| > 0
    ensures |s| == |bytes| - 1
    ensures bytes == s + [bytes[|bytes| - 1]]
    ensures bytes[|bytes| - 1] == 0 ==> bytes == s + [0]
  {
    bytes[..|bytes| - 1]
  }

  /** A string with its NUL terminator appended, as the native library returns it. */
  function NulTerminated(s: seq<uint8>): (bytes: seq<uint8>)
    ensures |bytes| == |s| + 1
  {
    s + [0]
  }

  /** Appending the terminator and extracting the string is the identity. */
  lemma ExtractNulTerminated(s: seq<uint8>)
    ensures ExtractString(NulTerminated(s)) == s
  {
    assert NulTerminated(s)[..|s|] == s;
  }

  const CL_FALSE := 0
  const CL_TRUE := 1

  /** `CL_TRUE == cl_extract_int!(cl_bool, bytes)`. */
  function IsTrue(bytes: seq<uint8>): (b: bool)
    ensures b <==> Decode(bytes) % Modulus(ClBool) == CL_TRUE
  {
    WrappingFoldIsDecodeMod(ClBool, bytes);
    CL_TRUE == ExtractInt(ClBool, bytes)
  }

  /** On a four-byte cl_bool, the accessor answers true exactly for the
      encoding of CL_TRUE; every other pattern (CL_FALSE, 2, ...) is false. */
  lemma BoolOfFourBytes(bytes: seq<uint8>)
    requires |bytes| == ClBool.width
    ensures IsTrue(bytes) <==> bytes == Encode(CL_TRUE, ClBool.width)
    ensures IsTrue(Encode(CL_TRUE, ClBool.width)) && !IsTrue(Encode(CL_FALSE, ClBool.width))
  {
    ExtractIntExact(ClBool, bytes);
    DecodeEncode(CL_TRUE, ClBool.width);
    DecodeEncode(CL_FALSE, ClBool.width);
    ExtractIntExact(ClBool, Encode(CL_TRUE, ClBool.width));
    ExtractIntExact(ClBool, Encode(CL_FALSE, ClBool.width));
    if IsTrue(bytes) {
      EncodeDecode(bytes);
    }
  }
}

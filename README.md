# cl.rs byte decoding and query protocol, in Dafny

`cl.rs` binds the OpenCL platform and device queries for Rust. Every accessor
forwards one `clGet*Info` call to the native library and decodes the bytes it
gets back. This project models the parts of that file that are logic rather
than forwarding:

- the decoders `cl_extract_int` (a little-endian right fold), `cl_extract_ints`
  (the same, chunk by chunk) and `cl_extract_string` (a NUL-terminated buffer);
- the boolean accessors, which compare a decoded `cl_bool` with `CL_TRUE`;
- the splitting of extension lists on `' '` and of the built-in kernel list
  on `';'`;
- the calling conventions `cl_call!` and `cl_call_unknown_length!` ("query the
  size, allocate, query again"), run against a native library that is a
  parameter of the model.

Files:

- `wrappers.dfy`: `Result`.
- `marshal.dfy` (module `Marshal`): `Decode`, `Encode`, `ExtractInt`,
  `ExtractInts`, `ExtractString`, `IsTrue` and their lemmas.
- `split.dfy` (module `Separators`): `Split`, `Join` and their round trips.
- `native.dfy` (module `Native`): `Check` (`cl_call!`), `Fetched` (what
  `cl_call_unknown_length!` yields) and the method `QueryUnknownLength`, which
  allocates a buffer and lets the second native call fill it in place.
- `cl.dfy` (module `Cl`): `Platform` and `Device`, their query methods, and the
  string-list accessors.

Modelling choices:

- Bytes are `uint8`, a newtype over `0..255`. Strings are byte sequences, because
  the source converts them without validating UTF-8.
- `cl_extract_int!(T, v)` computes `256 * sum + byte` in the type `T`, so each
  step wraps modulo 2^(8·size_of(T)). `WrappingFold` does exactly that, and
  `ExtractInt` reads the resulting bit pattern back, in two's complement for a
  signed type. `WrappingFoldIsDecodeMod` and `ExtractIntExact` show that this
  equals the unbounded little-endian value whenever the buffer fits the type.
  Type widths follow the OpenCL C headers (`cl_uint` and `cl_bool` 4 bytes,
  `cl_ulong` and the bitfield types 8 bytes). `size_t` and `intptr_t` (the type of
  `cl_device_partition_property`) are taken as 8 bytes, as on a 64-bit target.
- `to_cons(n)` comes from the external `vector` crate, which is not part of this
  model. It is taken to cut the buffer into consecutive, non-overlapping runs of
  `n` bytes. A trailing run shorter than `n` is kept.
- `split` comes from the external `string` crate, which is not part of this
  model either. It is taken to keep empty pieces, so k separators give k + 1
  pieces.
- `str::raw::from_bytes_with_null` is the unchecked conversion. It takes the
  last byte of the buffer for the NUL terminator, whatever that byte holds, and
  keeps every byte before it, interior NUL bytes included.
- The native library is a pure function from a `Request` to a `Reply`. A
  `Request` is either the size query (capacity 0 plus a count pointer) or the
  fill call (a buffer of `capacity` slots). A `Reply` holds the status code,
  the count written through the pointer, and the value the call leaves in each
  buffer slot. A slot the real library does not write holds uninitialised
  memory after `set_len`; here that is whatever value `slot` gives. The handle
  and query-constant arguments the macros pass through are fixed by `Bind`.
- `cl_get_info!` aborts when the device query fails. `Device.Info` turns this
  into a precondition, and the accessor functions take the bytes of a query
  that succeeded.

## Model

| member | source | states |
|---|---|---|
| `Marshal.Decode` | cl.rs:63 | The fold from 0 with `sum := 256 * sum + byte`, over unbounded integers (0 for no bytes, `b + 256 * Decode(rest)` for `b` then `rest`). The value of k bytes is below 256^k. |
| `Marshal.DecodeAppend` | cl.rs:63 | Decoding `a + b` gives `Decode(a) + 256^|a| * Decode(b)`: the later bytes are the more significant ones. |
| `Marshal.DecodeIsPositional` | cl.rs:63 | The fold agrees with a separate positional sum in which byte i has weight 256^i, i.e. it reads the buffer little-endian. |
| `Marshal.DecodeEncode` | cl.rs:63 | For n < 256^k, decoding the k-byte little-endian encoding of n gives n. |
| `Marshal.EncodeDecode` | cl.rs:63 | Encoding a decoded buffer at its own length gives the buffer back, so no two buffers of one length decode alike. |
| `Marshal.WrappingFold` | cl.rs:63 | The fold as the fixed-width type computes it, wrapping at every step. The result is a bit pattern below 2^(8·width). |
| `Marshal.WrappingFoldIsDecodeMod` | cl.rs:63 | Wrapping at every step gives the unbounded value reduced modulo 2^(8·width). |
| `Marshal.FromBits` | cl.rs:63 | A bit pattern read as a value of the type lies in the type's range and is congruent to the pattern (two's complement when signed). |
| `Marshal.ExtractInt` | cl.rs:63 | `cl_extract_int!`: a value in the type's range, congruent modulo 2^(8·width) to the little-endian value of the bytes. |
| `Marshal.ExtractIntExact` | cl.rs:63 | A buffer no longer than the type (strictly shorter for a signed type) is decoded without wrap-around, to exactly its little-endian value. |
| `Marshal.Chunks` | cl.rs:64 | `to_cons(size)`: consecutive runs, each non-empty and at most `size` bytes long. |
| `Marshal.FlattenChunks` | cl.rs:64 | Concatenating the runs gives the buffer back, so chunking neither drops nor reorders bytes. |
| `Marshal.ChunksOfMultiple` | cl.rs:64 | When the length is a multiple of `size` there are length/size runs, and run i is bytes [i·size, (i+1)·size). |
| `Marshal.ExtractInts` | cl.rs:64 | `cl_extract_ints!`: one value per run, each in the type's range. |
| `Marshal.ExtractIntsElement` | cl.rs:64 | For a buffer of whole elements: length/width values, where element i is `cl_extract_int!` of bytes [i·w, (i+1)·w) (its little-endian value for an unsigned type). |
| `Marshal.ExtractEncodeInts` | cl.rs:64 | Reading back in-range values of an unsigned type written as consecutive little-endian words gives the values, in order. |
| `Marshal.ExtractString` | cl.rs:65-68 | `cl_extract_string!`: the string is every byte but the last, so its length is len - 1 and the buffer is the string plus its last byte. When that byte is NUL, the buffer is the string plus NUL. |
| `Marshal.ExtractNulTerminated` | cl.rs:65-68 | A string with a NUL appended decodes to that string. |
| `Marshal.IsTrue` | cl.rs:143 | `CL_TRUE == cl_extract_int!(cl_bool, …)` (the same pattern as lines 157, 159-161, 173, 184 and 194). True iff the little-endian value modulo 2^32 is 1. |
| `Marshal.BoolOfFourBytes` | cl.rs:159-161 | On a four-byte `cl_bool`, true iff the bytes are the encoding of CL_TRUE (1, 0, 0, 0). The encoding of CL_TRUE reads true, that of CL_FALSE reads false. |
| `Separators.Split` | cl.rs:103 | `split(sep)`: Count(sep) + 1 pieces, none containing the separator. |
| `Separators.JoinSplit` | cl.rs:103 | Joining the pieces of a split with the same separator gives back the decoded string. |
| `Separators.SplitJoin` | cl.rs:185 | Splitting the join of separator-free pieces gives back the pieces. |
| `Separators.SplitTrailingSeparator` | cl.rs:169 | A string ending in the separator splits into at least two pieces, the last of them empty. |
| `Native.Check` | cl.rs:21-27 | `cl_call!`: `Err(status)` for every status other than CL_SUCCESS, success otherwise. |
| `Native.Fetched` | cl.rs:30-43 | What `cl_call_unknown_length!` yields. `Ok` iff both native calls return CL_SUCCESS, and then it holds exactly n elements, n being the count the size query reported. Otherwise it is `Err` with the first failing call's own code, never CL_SUCCESS. |
| `Native.QueryUnknownLength` | cl.rs:30-43 | The macro itself: a counter, a buffer of capacity n filled in place by the second call, early returns on error. Its result is `Fetched`, and element i is what the second call left in slot i. |
| `Cl.AsString` | cl.rs:96 | A failed query's code is passed on unchanged. A successful query gives its bytes without the last one. When that byte is NUL, the bytes are the string plus NUL. |
| `Cl.Platform.All` | cl.rs:91-93 | `Platform::all` yields `Fetched` of the platform-ID query. |
| `Cl.Platform.GetInfo` | cl.rs:95-97 | `Platform::get_info` yields the two-call protocol on this platform and name, followed by `AsString`: the first failing call's code, or the bytes without their terminator. |
| `Cl.Platform.Devices` | cl.rs:105-107 | `Platform::devices` yields `Fetched` of the device-ID query for this platform and device type. |
| `Cl.Platform.UnloadCompiler` | cl.rs:109-113 | `Ok(true)` iff the native call returns CL_SUCCESS, `Err(code)` with its code otherwise. |
| `Cl.Device.GetInfo` | cl.rs:117-119 | `Device::get_info` yields `Fetched` of the device-info query for this device and name. |
| `Cl.Device.Info` | cl.rs:58-61 | `cl_get_info!`: given a query that succeeds, the bytes it returned, n of them, n being the reported size. |
| `Cl.PlatformExtensions` | cl.rs:103 | `Platform::extensions`: names that join back with `' '` to the extension string, none containing a space. |
| `Cl.StringList` | cl.rs:169 | A string-list attribute: the pieces, joined with `sep` and followed by the buffer's last byte, give the buffer back (the string plus NUL when the buffer is NUL-terminated). No piece contains `sep`. |
| `Cl.DeviceExtensions` | cl.rs:169 | `Device::extensions`: names that, joined with spaces and followed by the last byte, give the buffer back. No name contains a space. |
| `Cl.BuiltInKernels` | cl.rs:185 | `Device::built_in_kernels`: names that, joined with semicolons and followed by the last byte, give the buffer back. No name contains a semicolon. |
| `Cl.StringListRoundTrip` | cl.rs:185 | A NUL-terminated list of separator-free names, joined by `sep`, reads back as exactly those names. |

## Left out

- The native calls `clGetPlatformIDs`, `clGetDeviceIDs`, `clGetPlatformInfo`,
  `clGetDeviceInfo` and `clUnloadPlatformCompiler` (cl.rs:92, 106, 96, 118, 110)
  live in a library that is not part of this model. Each is a function parameter.
- The raw-pointer plumbing (`ptr::mut_null`, `vec::raw::to_mut_ptr`,
  `vec::raw::set_len`, cl.rs:34-40) is unsafe memory handling. What it
  achieves, a buffer of n slots written by the native call, is modelled by the
  `slot` function and the array in `QueryUnknownLength`.
- The message `fail!` formats (cl.rs:58-61) is not modelled. Only the condition
  it guards is kept, as the precondition of `Device.Info`.
- Which query constant each accessor passes is a table lookup, not logic, and
  is not modelled. Note that `partition_properties` queries
  `CL_DEVICE_MAX_WORK_ITEM_SIZES` (cl.rs:190) and `partition_affinity_domain`
  queries `CL_DEVICE_PARTITION_MAX_SUB_DEVICES` (cl.rs:191). Both names
  suggest a different constant was meant.
- Turning a decoded integer into a native handle in `Device::platform` and
  `Device::parent_device` (cl.rs:170, 188) has no meaning without the native
  library.
- The `Clone` implementations (cl.rs:78-88) copy one handle. `Platform` and
  `Device` are values here, so there is nothing to copy.
- The integer accessors are `ExtractInt` applied to a type, and the boolean
  accessors are `IsTrue`. They are not repeated once per attribute name.
- The word size of the target is fixed at 64 bits for `size_t` and `intptr_t`.
- Marshal.ExtractString: an empty buffer is excluded by a precondition. The
  source computes a length of -1 for it, which is undefined behaviour.
- Cl.AsString, Cl.Platform.GetInfo, Cl.StringList, Cl.DeviceExtensions and
  Cl.BuiltInKernels carry the same precondition. A successful string query
  returns at least its terminator, so the bytes they read are non-empty.
- Marshal.Chunks: what `to_cons` does is an unchecked assumption about the
  external `vector` crate. It is read as consecutive, non-overlapping runs.
  Were it overlapping windows, `ChunksOfMultiple`, `ExtractIntsElement` and
  `ExtractEncodeInts` would not describe the source.
- Separators.Split: what `split` does is likewise an unchecked assumption about
  the external `string` crate. It is read as keeping empty pieces.

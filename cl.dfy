/** The `Platform` and `Device` types of `cl.rs`: discovery through the two-call
    protocol and the decoding of what the info queries return. */
module Cl {
  import opened Wrappers
  import opened Marshal
  import opened Separators
  import opened Native

  /** An opaque native handle (cl_platform_id, cl_device_id). */
  type Handle = nat

  /** A query constant passed through to the native call (cl_platform_info,
      cl_device_info, cl_device_type). */
  type Param = nat

  /** A native entry point taking a handle and a query constant, with those two
      arguments fixed: what the macro's `$($arg),+` passes through. */
  function Bind<T>(entry: (Handle, Param, Request) -> Reply<T>, h: Handle, p: Param): Request -> Reply<T>
  {
    (req: Request) => entry(h, p, req)
  }

  /** The bytes of a successful info query read as a string; a failed query's
      code is passed on unchanged. */
  function AsString(raw: Result<seq<uint8>, int>): (r: Result<seq<uint8>, int>)
    requires raw.Ok? ==> |raw.value| > 0
    ensures r.Err? <==> raw.Err?
    ensures raw.Err? ==> r.error == raw.error
    ensures raw.Ok? ==> |r.value| == |raw.value| - 1 && raw.value[..|r.value|] == r.value
    ensures raw.Ok? && raw.value[|raw.value| - 1] == 0 ==> raw.value == r.value + [0]
  {
    match raw
    case Err(code) => Err(code)
    case Ok(bytes) => Ok(ExtractString(bytes))
  }

  datatype Platform = Platform(id: Handle) {

    /** `Platform::all`: every platform the native library reports. */
    static method All(clGetPlatformIDs: Request -> Reply<Platform>) returns (r: Result<seq<Platform>, int>)
      ensures r == Fetched(clGetPlatformIDs)
    {
      r := QueryUnknownLength(clGetPlatformIDs);
    }

    /** `Platform::get_info`: the named attribute as a string without its
        terminator, or the status of the first failing native call.  The
        native library reports at least the terminator for a string. */
    method GetInfo(clGetPlatformInfo: (Handle, Param, Request) -> Reply<uint8>, name: Param)
      returns (r: Result<seq<uint8>, int>)
      requires Fetched(Bind(clGetPlatformInfo, id, name)).Ok? ==>
                 |Fetched(Bind(clGetPlatformInfo, id, name)).value| > 0
      ensures r == AsString(Fetched(Bind(clGetPlatformInfo, id, name)))
    {
      var raw := QueryUnknownLength(Bind(clGetPlatformInfo, id, name));
      r := AsString(raw);
    }

    /** `Platform::devices`: the devices of this platform of the given type. */
    method Devices(clGetDeviceIDs: (Handle, Param, Request) -> Reply<Device>, deviceType: Param)
      returns (r: Result<seq<Device>, int>)
      ensures r == Fetched(Bind(clGetDeviceIDs, id, deviceType))
    {
      r := QueryUnknownLength(Bind(clGetDeviceIDs, id, deviceType));
    }

    /** `Platform::unload_compiler`: `Ok(true)` unless the native call fails. */
    method UnloadCompiler(clUnloadPlatformCompiler: Handle -> int) returns (r: Result<bool, int>)
      ensures r.Ok? <==> clUnloadPlatformCompiler(id) == CL_SUCCESS
      ensures r.Ok? ==> r.value
      ensures r.Err? ==> r.error == clUnloadPlatformCompiler(id)
    {
      var err1 := clUnloadPlatformCompiler(id);
      var checked := Check(err1);
      if checked.Err? {
        return Err(checked.error);
      }
      return Ok(true);
    }
  }

  datatype Device = Device(id: Handle) {

    /** `Device::get_info`: the raw bytes of the named attribute. */
    method GetInfo(clGetDeviceInfo: (Handle, Param, Request) -> Reply<uint8>, name: Param)
      returns (r: Result<seq<uint8>, int>)
      ensures r == Fetched(Bind(clGetDeviceInfo, id, name))
    {
      r := QueryUnknownLength(Bind(clGetDeviceInfo, id, name));
    }

    /** `cl_get_info!` inside a device accessor: the query must succeed (the
        source aborts otherwise), and the accessor works on its bytes. */
    method Info(clGetDeviceInfo: (Handle, Param, Request) -> Reply<uint8>, name: Param)
      returns (bytes: seq<uint8>)
      requires Fetched(Bind(clGetDeviceInfo, id, name)).Ok?
      ensures bytes == Fetched(Bind(clGetDeviceInfo, id, name)).value
      ensures |bytes| == clGetDeviceInfo(id, name, SizeQuery).count
    {
      var r := GetInfo(clGetDeviceInfo, name);
      bytes := r.value;
    }
  }

  /** `Platform::extensions`: the extension string split on spaces. */
  function PlatformExtensions(info: seq<uint8>): (names: seq<seq<uint8>>)
    ensures Join(names, Space) == info
    ensures forall i :: 0 <= i < |names| ==> Space !in names[i]
  {
    JoinSplit(info, Space);
    Split(info, Space)
  }

  /** A string-list attribute of a device: the bytes read as a string (the
      last byte dropped as the terminator), then split on `sep`. */
  function StringList(bytes: seq<uint8>, sep: uint8): (names: seq<seq<uint8>>)
    requires |bytes| > 0
    ensures Join(names, sep) + [bytes[|bytes| - 1]] == bytes
    ensures bytes[|bytes| - 1] == 0 ==> Join(names, sep) + [0] == bytes
    ensures forall i :: 0 <= i < |names| ==> sep !in names[i]
  {
    JoinSplit(ExtractString(bytes), sep);
    Split(ExtractString(bytes), sep)
  }

  /** `Device::extensions`: split on spaces. */
  function DeviceExtensions(bytes: seq<uint8>): (names: seq<seq<uint8>>)
    requires |bytes| > 0
    ensures Join(names, Space) + [bytes[|bytes| - 1]] == bytes
    ensures forall i :: 0 <= i < |names| ==> Space !in names[i]
  {
    StringList(bytes, Space)
  }

  /** `Device::built_in_kernels`: split on semicolons. */
  function BuiltInKernels(bytes: seq<uint8>): (names: seq<seq<uint8>>)
    requires |bytes| > 0
    ensures Join(names, Semicolon) + [bytes[|bytes| - 1]] == bytes
    ensures forall i :: 0 <= i < |names| ==> Semicolon !in names[i]
  {
    StringList(bytes, Semicolon)
  }

  /** A list written by the native library as separator-free names joined with
      `sep` and NUL-terminated reads back as exactly those names. */
  lemma StringListRoundTrip(names: seq<seq<uint8>>, sep: uint8)
    requires |names| > 0
    requires forall i :: 0 <= i < |names| ==> sep !in names[i]
    ensures StringList(NulTerminated(Join(names, sep)), sep) == names
  {
    ExtractNulTerminated(Join(names, sep));
    SplitJoin(names, sep);
  }
}

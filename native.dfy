/** The calling conventions `cl.rs` wraps around a native OpenCL query:
    `cl_call!` (one call, early return on error) and `cl_call_unknown_length!`
    (ask for the size, allocate, ask again to fill the buffer).  The native
    library itself is a parameter: a pure function from request to reply. */
module Native {
  import opened Wrappers

  const CL_SUCCESS: int := 0

  /** The two ways the binding calls a query: with capacity 0 and a pointer
      for the count, or with a buffer of `capacity` slots and no count pointer. */
  datatype Request = SizeQuery | Fill(capacity: nat)

  /** What a native call reports: its status code, the count it writes through
      the count pointer, and the value it leaves in each slot of the buffer. */
  datatype Reply<T> = Reply(status: int, count: nat, slot: nat -> T)

  /** `cl_call!`: a status other than CL_SUCCESS becomes `Err(status)`. */
  function Check(status: int): (r: Result<(), int>)
    ensures r.Ok? <==> status == CL_SUCCESS
    ensures r.Err? ==> r.error == status
  {
    if status != CL_SUCCESS then Err(status) else Ok(())
  }

  /** What `cl_call_unknown_length!` yields against `native`: the first failing
      call's own status, or the n slots of the buffer, where n is the count the
      size query reported. */
  function Fetched<T>(native: Request -> Reply<T>): (r: Result<seq<T>, int>)
    ensures r.Ok? <==>
              native(SizeQuery).status == CL_SUCCESS
              && native(Fill(native(SizeQuery).count)).status == CL_SUCCESS
    ensures r.Ok? ==> |r.value| == native(SizeQuery).count
    ensures r.Err? ==> r.error != CL_SUCCESS
    ensures r.Err? && native(SizeQuery).status != CL_SUCCESS ==> r.error == native(SizeQuery).status
    ensures r.Err? && native(SizeQuery).status == CL_SUCCESS ==>
              r.error == native(Fill(native(SizeQuery).count)).status
  {
    var first := native(SizeQuery);
    if first.status != CL_SUCCESS then Err(first.status)
    else
      var second := native(Fill(first.count));
      if second.status != CL_SUCCESS then Err(second.status)
      else Ok(seq(first.count, (i: int) requires 0 <= i => second.slot(i)))
  }

  /** `cl_call_unknown_length!`: a counter written by the first call, a buffer
      of that capacity filled in place by the second, then its length set. */
  method QueryUnknownLength<T(0)>(native: Request -> Reply<T>) returns (r: Result<seq<T>, int>)
    ensures r == Fetched(native)
    ensures r.Ok? ==> forall i :: 0 <= i < |r.value| ==> r.value[i] == native(Fill(|r.value|)).slot(i)
  {
    var n: nat := 0;
    var first := native(SizeQuery);
    var err1 := first.status;
    if err1 != CL_SUCCESS {
      return Err(err1);
    }
    n := first.count;
    var buffer := new T[n];
    var second := native(Fill(n));
    forall i | 0 <= i < n {
      buffer[i] := second.slot(i);
    }
    var err2 := second.status;
    if err2 != CL_SUCCESS {
      return Err(err2);
    }
    assert buffer[..] == seq(n, (i: int) requires 0 <= i => second.slot(i));
    r := Ok(buffer[..]);
  }
}

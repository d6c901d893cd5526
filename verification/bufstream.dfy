/**
  The part of a `BufStream` the line writers rely on: written bytes collect
  in a pending buffer and a flush delivers them to the transport. Each I/O
  step can fail; which one fails is a parameter, since it depends on the
  transport.
 */
module BufStream {

  import opened Results

  type Byte = bv8

  /** `wire`: bytes already delivered to the transport; `pending`: bytes written but not yet flushed. */
  datatype Stream = Stream(wire: seq<Byte>, pending: seq<Byte>)

  /** The three I/O steps of a line write, in the order they run. */
  datatype Step = WritePayload | WriteTerminator | FlushOutput

  /** Whether the transport lets every step succeed, or the step at which it reports an error. */
  datatype Fault = Healthy | FailsAt(step: Step)

  datatype IoError = IoError(step: Step)

  function Write(st: Stream, bytes: seq<Byte>): Stream {
    st.(pending := st.pending + bytes)
  }

  function Flush(st: Stream): Stream {
    Stream(st.wire + st.pending, [])
  }

  /**
    Write `payload`, then `terminator`, then flush, stopping at the first
    step that fails. On success everything written so far, in order, has
    reached the transport and nothing stays buffered.
   */
  function WriteTerminated(st: Stream, payload: seq<Byte>, terminator: seq<Byte>, fault: Fault): (r: Result<Stream, IoError>)
    ensures r.Ok? <==> fault == Healthy
    ensures r.Err? ==> r.error == IoError(fault.step)
    ensures r.Ok? ==> r.value.pending == [] && r.value.wire == st.wire + st.pending + payload + terminator
  {
    match fault
    case FailsAt(WritePayload) => Err(IoError(WritePayload))
    case _ =>
      var written := Write(st, payload);
      match fault
      case FailsAt(WriteTerminator) => Err(IoError(WriteTerminator))
      case _ =>
        var terminated := Write(written, terminator);
        match fault
        case FailsAt(FlushOutput) => Err(IoError(FlushOutput))
        case _ => Ok(Flush(terminated))
  }
}

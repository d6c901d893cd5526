/**
  The server's line writer (`server/src/writeline.rs`): `write_line` sends
  the string's bytes, a single LF and flushes, which is not the CR LF
  framing the CRLF library reads.
 */
module ServerWriteLine {

  import opened Results
  import opened BufStream
  import Crlf

  /** `write_line`: the line's bytes and one LF reach the transport, then nothing stays buffered. */
  function WriteLine(st: Stream, line: seq<Byte>, fault: Fault): (r: Result<Stream, IoError>)
    ensures r.Ok? <==> fault == Healthy
    ensures r.Ok? ==> r.value.pending == [] && r.value.wire == st.wire + st.pending + line + [Crlf.LF]
    ensures r.Ok? ==> st.wire <= r.value.wire
  {
    WriteTerminated(st, line, [Crlf.LF], fault)
  }

  /**
    The two writers disagree only in the terminator: on the same stream and
    payload, the CRLF writer's output is the LF writer's with a CR inserted
    before the final LF.
   */
  lemma TerminatorsDisagree(st: Stream, p: seq<Byte>)
    ensures
      var lf := WriteLine(st, p, Healthy).value.wire;
      var crlf := Crlf.WriteCrlfLine(st, p, Healthy).value.wire;
      && |crlf| == |lf| + 1
      && crlf == lf[..|lf| - 1] + [Crlf.CR] + lf[|lf| - 1..]
      && lf != crlf
  {
  }

  /**
    The CRLF reader does not recognise an LF-terminated line: for a payload
    that contains no CR LF and does not end in CR, reading the line from a
    buffer that holds just that line appends the LF with the payload.
   */
  lemma LfLineNotFramedByCrlfReader(p: seq<Byte>, line: seq<Byte>, valid: seq<Byte> -> bool)
    requires Crlf.NoCrlf(p + [Crlf.LF]) && valid(p + [Crlf.LF])
    ensures
      var sent := WriteLine(Stream([], []), p, Healthy).value.wire;
      Crlf.ReadCrlfLine(sent, line, valid) == Ok(Crlf.LineRead(|p| + 1, line + p + [Crlf.LF], []))
  {
    var b := p + [Crlf.LF];
    assert WriteLine(Stream([], []), p, Healthy).value.wire == b;
    Crlf.LineEndUnique(b, |b|);
    assert b[..|b|] == b;
    assert b[|b|..] == [];
    assert line + b == line + p + [Crlf.LF];
  }

  /**
    A payload that ends in CR is the exception: the LF `write_line` appends
    completes a CR LF, so the CRLF reader drops both and appends the payload
    without its final CR.
   */
  lemma LfLineEndingInCr(q: seq<Byte>, line: seq<Byte>, valid: seq<Byte> -> bool)
    requires Crlf.NoCrlf(q + [Crlf.CR]) && valid(q)
    ensures
      var sent := WriteLine(Stream([], []), q + [Crlf.CR], Healthy).value.wire;
      Crlf.ReadCrlfLine(sent, line, valid) == Ok(Crlf.LineRead(|q| + 2, line + q, []))
  {
    var b := q + [Crlf.CR, Crlf.LF];
    assert WriteLine(Stream([], []), q + [Crlf.CR], Healthy).value.wire == b;
    assert Crlf.CrlfAt(b, |q|);
    forall j | 0 <= j < |q|
      ensures !Crlf.CrlfAt(b, j)
    {
      assert !Crlf.CrlfAt(q + [Crlf.CR], j);
    }
    Crlf.LineEndUnique(b, |q|);
    assert b[..|q|] == q;
    assert b[|q| + 2..] == [];
  }
}

/**
  The client's copy of the CRLF library (`client/src/crlf.rs`). Its scan
  and its writer are the library's; the one difference is that the
  payload's UTF-8 check is unwrapped, so invalid UTF-8 is a precondition
  (the client panics) rather than a returned error.
 */
module ClientCrlf {

  import opened Results
  import opened BufStream
  import Crlf

  /** The client's `read_crlf_line`: the library read, unwrapped. */
  function ReadCrlfLine(fill: seq<Byte>, line: seq<Byte>, valid: seq<Byte> -> bool): (r: Crlf.LineRead)
    requires |fill| == 0 || valid(fill[..Crlf.LineEnd(fill)])
    ensures r.count <= |fill| && r.rest == fill[r.count..]
    ensures |fill| == 0 <==> r.count == 0
    ensures |line| <= |r.line| && r.line[..|line|] == line
    ensures
      var n := |r.line| - |line|;
      && n <= |fill|
      && r.line[|line|..] == fill[..n]
      && Crlf.NoCrlf(fill[..n])
      && ((n < |fill| && Crlf.CrlfAt(fill, n) && r.count == n + 2) || (n == |fill| && r.count == n))
  {
    Crlf.ReadCrlfLine(fill, line, valid).value
  }

  /**
    The two copies agree wherever the client does not panic, and the client
    panics exactly where the library reports an error.
   */
  lemma ClientAgreesWithLibrary(fill: seq<Byte>, line: seq<Byte>, valid: seq<Byte> -> bool)
    ensures Crlf.ReadCrlfLine(fill, line, valid).Err? <==> !(|fill| == 0 || valid(fill[..Crlf.LineEnd(fill)]))
    ensures (|fill| == 0 || valid(fill[..Crlf.LineEnd(fill)])) ==>
      Crlf.ReadCrlfLine(fill, line, valid) == Ok(ReadCrlfLine(fill, line, valid))
  {
  }

  /**
    Round trip for the client: a line sent with `write_crlf_line` and
    read back appends exactly its payload and consumes payload plus
    terminator, leaving whatever followed.
   */
  lemma ClientCrlfRoundTrip(p: seq<Byte>, rest: seq<Byte>, line: seq<Byte>, valid: seq<Byte> -> bool)
    requires Crlf.NoCrlf(p) && valid(p)
    ensures var fill := Crlf.Framed(p) + rest;
      && (|fill| == 0 || valid(fill[..Crlf.LineEnd(fill)]))
      && ReadCrlfLine(fill, line, valid) == Crlf.LineRead(|p| + 2, line + p, rest)
  {
    Crlf.CrlfRoundTrip(p, rest, line, valid);
  }
}

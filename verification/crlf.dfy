/**
  The CRLF line library (`crlf/src/lib.rs`): `read_crlf_line` takes the
  bytes the stream's `fill_buf` returned, appends the line it finds to the
  caller's string and reports how many bytes it consumed; `write_crlf_line`
  sends a payload followed by CR LF and flushes.

  A Rust `String` is a sequence of UTF-8 bytes, so the caller's string is a
  `seq<Byte>` here; whether a byte sequence is valid UTF-8 is the parameter
  `valid`.
 */
module Crlf {

  import opened Results
  import opened BufStream

  const CR: Byte := 0x0D
  const LF: Byte := 0x0A
  const CRLF: seq<Byte> := [CR, LF]

  /** A terminator starts at index `i` of `b`. */
  predicate CrlfAt(b: seq<Byte>, i: int) {
    0 <= i && i + 1 < |b| && b[i] == CR && b[i + 1] == LF
  }

  predicate NoCrlf(b: seq<Byte>) {
    forall i :: 0 <= i < |b| ==> !CrlfAt(b, i)
  }

  /** Where a line ends in `b`: the first terminator, or the end of `b` when there is none. */
  function LineEnd(b: seq<Byte>): (i: nat)
    ensures i <= |b|
    ensures i < |b| ==> CrlfAt(b, i)
    ensures forall j :: 0 <= j < i ==> !CrlfAt(b, j)
    decreases |b|
  {
    if |b| < 2 then |b|
    else if b[0] == CR && b[1] == LF then 0
    else
      var k := LineEnd(b[1..]);
      assert forall j :: 1 <= j <= k ==> (CrlfAt(b, j) <==> CrlfAt(b[1..], j - 1));
      1 + k
  }

  /** The index the three properties of `LineEnd` describe is unique. */
  lemma LineEndUnique(b: seq<Byte>, i: nat)
    requires i <= |b|
    requires i < |b| ==> CrlfAt(b, i)
    requires forall j :: 0 <= j < i ==> !CrlfAt(b, j)
    ensures i == LineEnd(b)
  {
  }

  /**
    The scan loop of `read_crlf_line`, with its short-circuit guard: the
    second byte of a candidate terminator is read only when the first is
    not the last byte, so every index stays in bounds. It stops at the
    first terminator, or at the end of the buffer; a lone CR in the last
    position does not stop it. The source reaches the loop only after its
    early return for an empty buffer; on an empty buffer the first
    conjunct of the guard would already stop it.
   */
  method ScanCrlf(fill: seq<Byte>) returns (consumed: nat)
    ensures consumed == LineEnd(fill)
  {
    consumed := 0;
    while consumed < |fill| && (consumed == |fill| - 1 || fill[consumed] != CR || fill[consumed + 1] != LF)
      invariant consumed <= |fill|
      invariant forall j :: 0 <= j < consumed ==> !CrlfAt(fill, j)
    {
      consumed := consumed + 1;
    }
    LineEndUnique(fill, consumed);
  }

  datatype ReadError = InvalidUtf8

  /**
    What a successful read reports: `count` is the number of bytes consumed
    (the return value), `line` the caller's string afterwards and `rest`
    the buffered bytes left for the next read.
   */
  datatype LineRead = LineRead(count: nat, line: seq<Byte>, rest: seq<Byte>)

  /**
    `read_crlf_line` over the bytes `fill` that `fill_buf` returned. An
    empty buffer reports 0 and changes nothing. Otherwise the bytes before
    the first terminator (all of them if there is none) are appended when
    they are valid UTF-8, and the terminator is consumed but not appended.
    Invalid UTF-8 is an error that appends and consumes nothing.
   */
  function ReadCrlfLine(fill: seq<Byte>, line: seq<Byte>, valid: seq<Byte> -> bool): (r: Result<LineRead, ReadError>)
    ensures |fill| == 0 ==> r == Ok(LineRead(0, line, fill))
    ensures r.Err? <==> |fill| > 0 && !valid(fill[..LineEnd(fill)])
    ensures r.Ok? ==> |line| <= |r.value.line| && r.value.line[..|line|] == line
    ensures r.Ok? ==>
      var n := |r.value.line| - |line|;
      && n <= |fill|
      && r.value.line[|line|..] == fill[..n]
      && NoCrlf(fill[..n])
      && ((n < |fill| && CrlfAt(fill, n) && r.value.count == n + 2) || (n == |fill| && r.value.count == n))
    ensures r.Ok? ==> r.value.count <= |fill| && r.value.rest == fill[r.value.count..]
    ensures r.Ok? && |fill| > 0 ==> r.value.count > 0
  {
    if |fill| == 0 then Ok(LineRead(0, line, fill))
    else
      var n := LineEnd(fill);
      var payload := fill[..n];
      if !valid(payload) then Err(InvalidUtf8)
      else
        assert NoCrlf(payload) by {
          forall i ensures !CrlfAt(payload, i) {
            if CrlfAt(payload, i) { assert CrlfAt(fill, i); }
          }
        }
        var count := if n < |fill| then n + 2 else n;
        assert (line + payload)[..|line|] == line;
        assert (line + payload)[|line|..] == payload;
        Ok(LineRead(count, line + payload, fill[count..]))
  }

  /**
    `read_crlf_line` step by step as the source runs it: the empty-buffer
    return, the scan, the UTF-8 check before anything is appended, and the
    two extra bytes consumed when the scan stopped at a terminator.
   */
  method ReadCrlfLineSteps(fill: seq<Byte>, line: seq<Byte>, valid: seq<Byte> -> bool) returns (r: Result<LineRead, ReadError>)
    ensures r == ReadCrlfLine(fill, line, valid)
  {
    if |fill| == 0 {
      return Ok(LineRead(0, line, fill));
    }
    var consumed := ScanCrlf(fill);
    var payload := fill[..consumed];
    if !valid(payload) {
      return Err(InvalidUtf8);
    }
    var appended := line + payload;
    if consumed < |fill| {
      consumed := consumed + 2;
    }
    r := Ok(LineRead(consumed, appended, fill[consumed..]));
  }

  /** `write_crlf_line`: the payload and CR LF reach the transport, then nothing stays buffered. */
  function WriteCrlfLine(st: Stream, buf: seq<Byte>, fault: Fault): (r: Result<Stream, IoError>)
    ensures r.Ok? <==> fault == Healthy
    ensures r.Ok? ==> r.value.pending == [] && r.value.wire == st.wire + st.pending + buf + CRLF
    ensures r.Ok? ==> st.wire <= r.value.wire
  {
    WriteTerminated(st, buf, CRLF, fault)
  }

  /** The bytes one successful `write_crlf_line` adds to a fresh stream. */
  function Framed(p: seq<Byte>): (bytes: seq<Byte>)
    ensures bytes == p + CRLF
  {
    WriteCrlfLine(Stream([], []), p, Healthy).value.wire
  }

  /** In a framed line whose payload has no terminator, the line ends right after the payload. */
  lemma LineEndOfFramed(p: seq<Byte>, rest: seq<Byte>)
    requires NoCrlf(p)
    ensures LineEnd(p + CRLF + rest) == |p|
  {
    var b := p + CRLF + rest;
    assert CrlfAt(b, |p|);
    forall j | 0 <= j < |p| ensures !CrlfAt(b, j) {
      if j + 1 < |p| {
        assert !CrlfAt(p, j);
      } else {
        assert b[j + 1] == CR;
      }
    }
    LineEndUnique(b, |p|);
  }

  /**
    Round trip: reading back what `write_crlf_line` sent, from a buffer that
    holds it followed by anything, appends exactly the payload, consumes
    the payload and the terminator, and leaves the following bytes.
   */
  lemma CrlfRoundTrip(p: seq<Byte>, rest: seq<Byte>, line: seq<Byte>, valid: seq<Byte> -> bool)
    requires NoCrlf(p) && valid(p)
    ensures ReadCrlfLine(Framed(p) + rest, line, valid) == Ok(LineRead(|p| + 2, line + p, rest))
  {
    var b := Framed(p) + rest;
    assert b == p + CRLF + rest;
    LineEndOfFramed(p, rest);
    assert b[..|p|] == p;
    assert b[|p| + 2..] == rest;
  }

  /** The concatenation of framed lines, as successive `write_crlf_line` calls send them. */
  function Frames(ps: seq<seq<Byte>>): seq<Byte> {
    if |ps| == 0 then [] else Framed(ps[0]) + Frames(ps[1..])
  }

  /**
    Successive reads into a cleared string from one filled buffer, each
    read starting where the previous one stopped, until the buffer is used
    up. No read refills the buffer in between.
   */
  function ReadLines(fill: seq<Byte>, valid: seq<Byte> -> bool): Result<seq<seq<Byte>>, ReadError>
    decreases |fill|
  {
    if |fill| == 0 then Ok([])
    else
      match ReadCrlfLine(fill, [], valid)
      case Err(e) => Err(e)
      case Ok(read) =>
        match ReadLines(read.rest, valid)
        case Err(e) => Err(e)
        case Ok(lines) => Ok([read.line] + lines)
  }

  /** Reading a run of framed lines held in one filled buffer yields each payload in order. */
  lemma {:induction false} ReadFrames(ps: seq<seq<Byte>>, valid: seq<Byte> -> bool)
    requires forall i :: 0 <= i < |ps| ==> NoCrlf(ps[i]) && valid(ps[i])
    ensures ReadLines(Frames(ps), valid) == Ok(ps)
    decreases |ps|
  {
    if |ps| > 0 {
      ReadLinesStep(ps[0], Frames(ps[1..]), valid);
      ReadFrames(ps[1..], valid);
      assert ps == [ps[0]] + ps[1..];
    }
  }

  /** One read takes the first framed line off the front of the buffer. */
  lemma ReadLinesStep(p: seq<Byte>, rest: seq<Byte>, valid: seq<Byte> -> bool)
    requires NoCrlf(p) && valid(p)
    ensures ReadLines(Framed(p) + rest, valid) ==
      match ReadLines(rest, valid)
      case Err(e) => Err(e)
      case Ok(lines) => Ok([p] + lines)
  {
    CrlfRoundTrip(p, rest, [], valid);
    assert [] + p == p;
  }

  /** With no terminator in the buffer, all of it is appended, a trailing lone CR included. */
  lemma TrailingCrKept(p: seq<Byte>, line: seq<Byte>, valid: seq<Byte> -> bool)
    requires NoCrlf(p + [CR]) && valid(p + [CR])
    ensures ReadCrlfLine(p + [CR], line, valid) == Ok(LineRead(|p| + 1, line + p + [CR], []))
  {
    var b := p + [CR];
    LineEndUnique(b, |b|);
    assert b[..|b|] == b;
    assert b[|b|..] == [];
    assert line + b == line + p + [CR];
  }

  /**
    A terminator split across two fills is not recognised: a line whose
    CR ends one fill keeps the CR, and the LF starting the next fill is
    appended to the next line.
   */
  lemma SplitTerminatorExample(valid: seq<Byte> -> bool)
    requires valid([0x61, CR]) && valid([LF, 0x62])
    ensures ReadCrlfLine([0x61, CR], [], valid) == Ok(LineRead(2, [0x61, CR], []))
    ensures ReadCrlfLine([LF, 0x62, CR, LF], [], valid) == Ok(LineRead(4, [LF, 0x62], []))
  {
    var first: seq<Byte> := [0x61, CR];
    LineEndUnique(first, 2);
    assert first[..2] == first;
    var second: seq<Byte> := [LF, 0x62, CR, LF];
    assert CrlfAt(second, 2);
    LineEndUnique(second, 2);
    assert second[..2] == [LF, 0x62];
    assert second[4..] == [];
    assert [] + second[..2] == [LF, 0x62];
  }
}

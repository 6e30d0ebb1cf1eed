/**
  The message framing of src/nvim.rs: `read` takes one message off the
  editor's standard input and `send` writes one to standard output, in the
  base protocol of the Language Server Protocol (header lines "Name: value"
  ended by "\r\n", an empty line, then exactly Content-Length bytes of
  UTF-8 payload).

  Standard input is an `InputStream`: the whole input as bytes and a cursor
  that `read_line` and `read_exact` move forward.  Standard output is an
  `OutputStream` that collects what was written.
*/
module Framing {
  import opened Wrappers
  import opened Utf8

  /** The largest `usize` on a 64-bit target. */
  const USIZE_MAX: nat := 0xFFFF_FFFF_FFFF_FFFF
  /** The largest size of an allocation (and so of a `Vec` or `String`) on a
      64-bit target. */
  const ISIZE_MAX: nat := 0x7FFF_FFFF_FFFF_FFFF

  const LF: byte := 0x0A
  const CR: byte := 0x0D
  const PLUS: byte := 0x2B
  const ZERO: byte := 0x30

  const CrLf: seq<byte> := [CR, LF]
  /** ": " */
  const Separator: seq<byte> := [0x3A, 0x20]
  /** "Content-Length" */
  const ContentLengthName: seq<byte> :=
    [0x43, 0x6F, 0x6E, 0x74, 0x65, 0x6E, 0x74, 0x2D, 0x4C, 0x65, 0x6E, 0x67, 0x74, 0x68]

  /** The reasons `read` fails.  All are `io::Error`s of kind InvalidData,
      except the end of input inside the payload, which `read_exact`
      reports as UnexpectedEof, and CapacityOverflow, which is a panic. */
  datatype ReadError =
    | InvalidUtf8           // `read_line` or `String::from_utf8` refused the bytes
    | MalformedHeader       // a header line without "\r\n" or without ": "
    | InvalidContentLength  // the Content-Length value is not a `usize`
    | MissingContentLength  // the header block ended without Content-Length
    | UnexpectedEof         // the input ended inside the payload
    | CapacityOverflow      // `Vec::resize` to a Content-Length above isize::MAX panics

  /** What `read` returns: a message, `None` at the end of the input, or an error. */
  type ReadResult = Result<Option<seq<byte>>, ReadError>

  // ---------------------------------------------------------------------
  // Lines, separators, header names and numbers
  // ---------------------------------------------------------------------

  /** Where the line starting at `pos` ends (just after its '\n', or at the
      end of the input): what `read_line` consumes. */
  function LineEnd(bytes: seq<byte>, pos: nat): (e: nat)
    requires pos <= |bytes|
    ensures pos <= e <= |bytes|
    ensures e == pos <==> pos == |bytes|
    decreases |bytes| - pos
  {
    if pos == |bytes| then pos
    else if bytes[pos] == LF then pos + 1
    else LineEnd(bytes, pos + 1)
  }

  /** A line holds no '\n' but its last byte, which is '\n' unless the
      input ends first. */
  lemma {:induction false} LineEndSpec(bytes: seq<byte>, pos: nat)
    requires pos <= |bytes|
    ensures var e := LineEnd(bytes, pos);
      (forall i :: pos <= i < e - 1 ==> bytes[i] != LF) &&
      (e > pos ==> bytes[e - 1] == LF || (e == |bytes| && bytes[e - 1] != LF))
    decreases |bytes| - pos
  {
    if pos < |bytes| && bytes[pos] != LF {
      LineEndSpec(bytes, pos + 1);
    }
  }

  /** `str::ends_with("\r\n")`. */
  predicate EndsWithCrLf(line: seq<byte>) {
    |line| >= 2 && line[|line| - 2] == CR && line[|line| - 1] == LF
  }

  /** `sep` occurs in `s` at index i. */
  predicate OccursAt(s: seq<byte>, sep: seq<byte>, i: int) {
    0 <= i && i + |sep| <= |s| && s[i..i + |sep|] == sep
  }

  /** `sep` occurs somewhere in `s`. */
  predicate Occurs(s: seq<byte>, sep: seq<byte>) {
    exists i :: 0 <= i <= |s| && OccursAt(s, sep, i)
  }

  /** `s.splitn(2, sep)` when it yields two parts: the text before the first
      occurrence of `sep` and the text after it. */
  function SplitOnce(s: seq<byte>, sep: seq<byte>): (r: Option<(seq<byte>, seq<byte>)>)
    requires |sep| > 0
    ensures r.Some? ==> s == r.value.0 + sep + r.value.1
    decreases |s|
  {
    if |s| < |sep| then None
    else if s[..|sep|] == sep then Some(([], s[|sep|..]))
    else
      match SplitOnce(s[1..], sep)
      case None => None
      case Some((a, b)) => Some(([s[0]] + a, b))
  }

  /** When `SplitOnce` finds nothing, the separator does not occur. */
  lemma {:induction false} SplitOnceMissing(s: seq<byte>, sep: seq<byte>)
    requires |sep| > 0 && SplitOnce(s, sep).None?
    ensures forall i :: !OccursAt(s, sep, i)
    decreases |s|
  {
    if |s| >= |sep| {
      SplitOnceMissing(s[1..], sep);
      forall i | 1 <= i ensures !OccursAt(s, sep, i) {
        OccursShift(s, sep, i);
      }
    }
  }

  /** When `SplitOnce` finds something, it cut at the first occurrence. */
  lemma {:induction false} SplitOnceFound(s: seq<byte>, sep: seq<byte>)
    requires |sep| > 0 && SplitOnce(s, sep).Some?
    ensures var (a, b) := SplitOnce(s, sep).value;
      s == a + sep + b && OccursAt(s, sep, |a|) &&
      forall i :: 0 <= i < |a| ==> !OccursAt(s, sep, i)
    decreases |s|
  {
    if s[..|sep|] == sep {
      assert s == [] + sep + s[|sep|..];
    } else {
      SplitOnceFound(s[1..], sep);
      var (a, b) := SplitOnce(s[1..], sep).value;
      FoundInTail(s, sep, a, b);
    }
  }

  /** A first occurrence in the tail, when there is none at the start, is
      the first occurrence one place later. */
  lemma FoundInTail(s: seq<byte>, sep: seq<byte>, a: seq<byte>, b: seq<byte>)
    requires |s| > 0 && !OccursAt(s, sep, 0)
    requires s[1..] == a + sep + b && OccursAt(s[1..], sep, |a|)
    requires forall i :: 0 <= i < |a| ==> !OccursAt(s[1..], sep, i)
    ensures s == [s[0]] + a + sep + b && OccursAt(s, sep, |a| + 1)
    ensures forall i :: 0 <= i < |a| + 1 ==> !OccursAt(s, sep, i)
  {
    assert s == [s[0]] + s[1..];
    OccursShift(s, sep, |a| + 1);
    forall i | 0 <= i < |a| + 1 ensures !OccursAt(s, sep, i) {
      if i > 0 {
        OccursShift(s, sep, i);
      }
    }
  }

  /** `SplitOnce` cuts at the first occurrence of the separator, and finds
      none only when there is none. */
  lemma SplitOnceSpec(s: seq<byte>, sep: seq<byte>)
    requires |sep| > 0
    ensures var r := SplitOnce(s, sep);
      (r.Some? ==> s == r.value.0 + sep + r.value.1 && OccursAt(s, sep, |r.value.0|) &&
                   forall i :: 0 <= i < |r.value.0| ==> !OccursAt(s, sep, i)) &&
      (r.None? ==> forall i :: !OccursAt(s, sep, i))
  {
    if SplitOnce(s, sep).Some? {
      SplitOnceFound(s, sep);
    } else {
      SplitOnceMissing(s, sep);
    }
  }

  /** Occurrences in `s` are occurrences in its tail, one place earlier. */
  lemma OccursShift(s: seq<byte>, sep: seq<byte>, i: int)
    requires |s| > 0 && 1 <= i
    ensures OccursAt(s, sep, i) <==> OccursAt(s[1..], sep, i - 1)
  {
    if i + |sep| <= |s| {
      assert s[1..][i - 1..i - 1 + |sep|] == s[i..i + |sep|];
    }
  }

  /** Splitting at a separator that does not occur earlier gives back the
      two parts. */
  lemma SplitAtFirst(a: seq<byte>, sep: seq<byte>, b: seq<byte>)
    requires |sep| > 0
    requires forall i :: 0 <= i < |a| ==> !OccursAt(a + sep + b, sep, i)
    ensures SplitOnce(a + sep + b, sep) == Some((a, b))
  {
    var s := a + sep + b;
    SplitOnceSpec(s, sep);
    assert s[|a|..|a| + |sep|] == sep;
    assert OccursAt(s, sep, |a|);
    var r := SplitOnce(s, sep);
    var (a', b') := r.value;
    assert s[..|a'|] == a';
    assert s[..|a|] == a;
    assert |a'| == |a|;
    assert a' == a;
    assert s[|a| + |sep|..] == b;
    assert s[|a'| + |sep|..] == b';
  }

  function ToAsciiLower(b: byte): byte {
    if 0x41 <= b <= 0x5A then b + 0x20 else b
  }

  /** `str::eq_ignore_ascii_case`: equal bytes after lower-casing ASCII letters. */
  predicate EqIgnoreAsciiCase(a: seq<byte>, b: seq<byte>)
    ensures a == b ==> EqIgnoreAsciiCase(a, b)
  {
    |a| == |b| && forall i :: 0 <= i < |a| ==> ToAsciiLower(a[i]) == ToAsciiLower(b[i])
  }

  predicate IsDigit(b: byte) {
    ZERO <= b <= 0x39
  }

  /** The number a string of decimal digits denotes, read left to right as
      `from_str_radix` does; `None` as soon as a byte is not a digit. */
  function DigitsValue(ds: seq<byte>): Option<nat>
    decreases |ds|
  {
    if |ds| == 0 then Some(0)
    else match DigitsValue(ds[..|ds| - 1])
      case None => None
      case Some(v) =>
        if IsDigit(ds[|ds| - 1]) then Some(v * 10 + (ds[|ds| - 1] - ZERO) as nat) else None
  }

  /** `str::parse::<usize>`: an optional '+', then at least one decimal
      digit, and a value that fits in a `usize`. */
  function ParseUsize(s: seq<byte>): (r: Option<nat>)
    ensures r.Some? ==> r.value <= USIZE_MAX && |s| > 0
  {
    var ds := if |s| > 0 && s[0] == PLUS then s[1..] else s;
    if |ds| == 0 then None
    else match DigitsValue(ds)
      case None => None
      case Some(v) => if v > USIZE_MAX then None else Some(v)
  }

  /** `format!("{}", n)`: the decimal digits of n, without leading zeros. */
  function Decimal(n: nat): (ds: seq<byte>)
    ensures |ds| > 0 && DigitsValue(ds) == Some(n)
    ensures ds[0] == ZERO ==> n == 0
    decreases n
  {
    if n < 10 then
      var ds := [(ZERO as int + n) as byte];
      assert ds[..0] == [];
      ds
    else
      var ds := Decimal(n / 10) + [(ZERO as int + n % 10) as byte];
      assert ds[..|ds| - 1] == Decimal(n / 10);
      ds
  }

  /** A string with a value holds digits only. */
  lemma {:induction false} DigitsOnly(ds: seq<byte>)
    requires DigitsValue(ds).Some?
    ensures forall i :: 0 <= i < |ds| ==> IsDigit(ds[i])
    decreases |ds|
  {
    if |ds| > 0 {
      DigitsOnly(ds[..|ds| - 1]);
      assert forall i :: 0 <= i < |ds| - 1 ==> ds[i] == ds[..|ds| - 1][i];
    }
  }

  /** What `parse` accepts is ASCII and holds no line feed. */
  lemma ParsedIsAscii(s: seq<byte>)
    requires ParseUsize(s).Some?
    ensures forall i :: 0 <= i < |s| ==> IsAscii(s[i]) && s[i] != LF
  {
    if |s| > 0 && s[0] == PLUS {
      DigitsOnly(s[1..]);
      assert forall i :: 1 <= i < |s| ==> s[i] == s[1..][i - 1];
    } else {
      DigitsOnly(s);
    }
  }

  /** A length written by `send` parses back to itself, with or without a
      leading '+'. */
  lemma ParseDecimal(n: nat)
    requires n <= USIZE_MAX
    ensures ParseUsize(Decimal(n)) == Some(n)
    ensures ParseUsize([PLUS] + Decimal(n)) == Some(n)
  {
    DigitsOnly(Decimal(n));
    assert ([PLUS] + Decimal(n))[1..] == Decimal(n);
  }

  /** Leading zeros do not change the value. */
  lemma {:induction false} LeadingZero(ds: seq<byte>)
    ensures DigitsValue([ZERO] + ds) == DigitsValue(ds)
    decreases |ds|
  {
    var zs := [ZERO] + ds;
    if |ds| > 0 {
      assert zs[..|zs| - 1] == [ZERO] + ds[..|ds| - 1];
      LeadingZero(ds[..|ds| - 1]);
    } else {
      assert zs[..0] == [];
    }
  }

  /** One more than the largest `usize` is refused. */
  lemma ParseOverflow()
    ensures ParseUsize(Decimal(USIZE_MAX + 1)) == None
  {
    DigitsOnly(Decimal(USIZE_MAX + 1));
  }

  /** Header names match whatever the case of their letters:
      "content-length" and "CONTENT-LENGTH" both name the size. */
  lemma ContentLengthAnyCase()
    ensures EqIgnoreAsciiCase(
      [0x63, 0x6F, 0x6E, 0x74, 0x65, 0x6E, 0x74, 0x2D, 0x6C, 0x65, 0x6E, 0x67, 0x74, 0x68], ContentLengthName)
    ensures EqIgnoreAsciiCase(
      [0x43, 0x4F, 0x4E, 0x54, 0x45, 0x4E, 0x54, 0x2D, 0x4C, 0x45, 0x4E, 0x47, 0x54, 0x48], ContentLengthName)
  {
  }

  // ---------------------------------------------------------------------
  // The reader, as a specification over the whole input
  // ---------------------------------------------------------------------

  /** One header, "name: value" without its "\r\n", updates the expected
      size: Content-Length (in any case) sets it, other headers leave it. */
  function HeaderUpdate(header: seq<byte>, size: Option<nat>): (r: Result<Option<nat>, ReadError>)
    ensures r.Ok? ==> r.value == size || (r.value.Some? && r.value.value <= USIZE_MAX)
  {
    match SplitOnce(header, Separator)
    case None => Err(MalformedHeader)
    case Some((name, value)) =>
      if EqIgnoreAsciiCase(name, ContentLengthName) then
        match ParseUsize(value)
        case None => Err(InvalidContentLength)
        case Some(n) => Ok(Some(n))
      else Ok(size)
  }

  /** A header is malformed exactly when ": " does not occur in it. */
  lemma HeaderUpdateSpec(header: seq<byte>, size: Option<nat>)
    ensures HeaderUpdate(header, size) == Err(MalformedHeader) <==>
      forall i :: !OccursAt(header, Separator, i)
  {
    SplitOnceSpec(header, Separator);
  }

  /** What a line read in the header block means. */
  datatype LineOutcome =
    | NextHeader(size: Option<nat>)  // a header; the size expected from now on
    | EndOfHeaders                   // the empty line before the payload
    | Failed(error: ReadError)

  /** One line of the header block, already known to be UTF-8.  Only the
      line "\r\n" ends the block, and a header keeps the size or sets one
      that fits a `usize`. */
  function HeaderLine(line: seq<byte>, size: Option<nat>): (o: LineOutcome)
    ensures o == EndOfHeaders <==> line == CrLf
    ensures o.NextHeader? ==> o.size == size || (o.size.Some? && o.size.value <= USIZE_MAX)
  {
    if !EndsWithCrLf(line) then Failed(MalformedHeader)
    else if |line| == 2 then EndOfHeaders
    else
      match HeaderUpdate(line[..|line| - 2], size)
      case Err(e) => Failed(e)
      case Ok(size') => NextHeader(size')
  }

  /** What one line returned by `read_line` does to the header block:
      bytes that are not UTF-8 fail, anything else is a header line. */
  function Outcome(line: seq<byte>, size: Option<nat>): LineOutcome {
    if !ValidUtf8(line) then Failed(InvalidUtf8) else HeaderLine(line, size)
  }

  /** The rest of `read` from `pos`, with the size seen so far; the second
      component is where the cursor stops.  One turn of the header loop:
      `read_line`, then what the line says (`AfterLine`). */
  function NextLine(bytes: seq<byte>, pos: nat, size: Option<nat>): (r: (ReadResult, nat))
    requires pos <= |bytes|
    ensures pos <= r.1 <= |bytes|
    decreases |bytes| - pos, 0
  {
    var next := LineEnd(bytes, pos);
    if next == pos then (Ok(None), pos) else AfterLine(bytes, next, Outcome(bytes[pos..next], size), size)
  }

  /** The header block once `read_line` has stopped at `next` and the line
      it read has had outcome `o`. */
  function AfterLine(bytes: seq<byte>, next: nat, o: LineOutcome, size: Option<nat>): (r: (ReadResult, nat))
    requires next <= |bytes|
    ensures next <= r.1 <= |bytes|
    decreases |bytes| - next, 1
  {
    match o
    case Failed(e) => (Err(e), next)
    case EndOfHeaders => ReadPayload(bytes, next, size)
    case NextHeader(size') => NextLine(bytes, next, size')
  }

  /** After the empty line: the buffer is resized to `size` bytes, which
      panics above isize::MAX, and then filled with exactly `size` bytes of
      UTF-8. */
  function ReadPayload(bytes: seq<byte>, pos: nat, size: Option<nat>): (r: (ReadResult, nat))
    requires pos <= |bytes|
    ensures pos <= r.1 <= |bytes|
    ensures size.None? ==> r == (Err(MissingContentLength), pos)
    ensures size.Some? && size.value > ISIZE_MAX ==> r == (Err(CapacityOverflow), pos)
    ensures r.0.Ok? ==> size.Some? && r.1 == pos + size.value && r.0.value == Some(bytes[pos..r.1])
    ensures r.0.Ok? ==> ValidUtf8(r.0.value.value)
  {
    match size
    case None => (Err(MissingContentLength), pos)
    case Some(n) =>
      if n > ISIZE_MAX then (Err(CapacityOverflow), pos)
      else if |bytes| - pos < n then (Err(UnexpectedEof), |bytes|)
      else
        var payload := bytes[pos..pos + n];
        if ValidUtf8(payload) then (Ok(Some(payload)), pos + n) else (Err(InvalidUtf8), pos + n)
  }

  /** `read` from cursor `pos`: its result and the cursor afterwards. */
  function ReadFrom(bytes: seq<byte>, pos: nat): (r: (ReadResult, nat))
    requires pos <= |bytes|
    ensures pos <= r.1 <= |bytes|
  {
    NextLine(bytes, pos, None)
  }

  // ---------------------------------------------------------------------
  // The streams and the two operations
  // ---------------------------------------------------------------------

  /** Standard input: what the editor writes, and how much was consumed. */
  class InputStream {
    const bytes: seq<byte>
    var cursor: nat

    ghost predicate Valid()
      reads this
    {
      cursor <= |bytes|
    }

    constructor (input: seq<byte>)
      ensures bytes == input && cursor == 0 && Valid()
    {
      bytes := input;
      cursor := 0;
    }

    /** `BufRead::read_line`: consumes up to and including the next '\n'
        (or to the end), and refuses bytes that are not UTF-8.  An empty
        line means the end of the input. */
    method ReadLine() returns (r: Result<seq<byte>, ReadError>)
      requires Valid()
      modifies this
      ensures Valid()
      ensures cursor == LineEnd(bytes, old(cursor))
      ensures ValidUtf8(bytes[old(cursor)..cursor]) ==> r == Ok(bytes[old(cursor)..cursor])
      ensures !ValidUtf8(bytes[old(cursor)..cursor]) ==> r == Err(InvalidUtf8)
    {
      var next := LineEnd(bytes, cursor);
      var line := bytes[cursor..next];
      cursor := next;
      if ValidUtf8(line) {
        r := Ok(line);
      } else {
        r := Err(InvalidUtf8);
      }
    }

    /** `Read::read_exact` into a buffer of n bytes: fails with
        UnexpectedEof, having consumed the rest, when fewer remain. */
    method ReadExact(n: nat) returns (r: Result<seq<byte>, ReadError>)
      requires Valid()
      modifies this
      ensures Valid()
      ensures old(cursor) + n <= |bytes| ==> r == Ok(bytes[old(cursor)..old(cursor) + n]) && cursor == old(cursor) + n
      ensures old(cursor) + n > |bytes| ==> r == Err(UnexpectedEof) && cursor == |bytes|
    {
      if cursor + n <= |bytes| {
        r := Ok(bytes[cursor..cursor + n]);
        cursor := cursor + n;
      } else {
        r := Err(UnexpectedEof);
        cursor := |bytes|;
      }
    }
  }

  /** `read` (src/nvim.rs:165-200): header lines until the empty one, then
      the payload.  It does what `ReadFrom` says, to the cursor. */
  method Read(inp: InputStream) returns (r: ReadResult)
    requires inp.Valid()
    modifies inp
    ensures inp.Valid()
    ensures (r, inp.cursor) == ReadFrom(inp.bytes, old(inp.cursor))
  {
    var size: Option<nat> := None;
    while true
      invariant inp.Valid()
      invariant NextLine(inp.bytes, inp.cursor, size) == ReadFrom(inp.bytes, old(inp.cursor))
      decreases |inp.bytes| - inp.cursor
    {
      ghost var start := inp.cursor;
      var line := inp.ReadLine();
      if inp.cursor != start {
        assert NextLine(inp.bytes, start, size) ==
          AfterLine(inp.bytes, inp.cursor, Outcome(inp.bytes[start..inp.cursor], size), size);
      }
      if line.Err? {
        return Err(line.error);
      }
      if |line.value| == 0 {
        return Ok(None);
      }
      var outcome := HeaderLine(line.value, size);
      if outcome.Failed? {
        return Err(outcome.error);
      }
      if outcome.EndOfHeaders? {
        break;
      }
      size := outcome.size;
    }
    r := ReadBody(inp, size);
  }

  /** The end of `read`, after the empty line: the Content-Length check,
      `Vec::resize`, `read_exact` and `String::from_utf8`. */
  method ReadBody(inp: InputStream, size: Option<nat>) returns (r: ReadResult)
    requires inp.Valid()
    modifies inp
    ensures inp.Valid()
    ensures (r, inp.cursor) == ReadPayload(inp.bytes, old(inp.cursor), size)
  {
    if size.None? {
      return Err(MissingContentLength);
    }
    if size.value > ISIZE_MAX {
      return Err(CapacityOverflow);
    }
    var payload := inp.ReadExact(size.value);
    if payload.Err? {
      return Err(payload.error);
    }
    if !ValidUtf8(payload.value) {
      return Err(InvalidUtf8);
    }
    return Ok(Some(payload.value));
  }

  /** The Content-Length header line `send` writes for an n-byte message. */
  function ContentLengthLine(n: nat): seq<byte> {
    ContentLengthName + Separator + Decimal(n) + CrLf
  }

  /** The bytes `send` writes before the message. */
  function FrameHeader(n: nat): seq<byte> {
    ContentLengthLine(n) + CrLf
  }

  /** The bytes `send(m)` writes. */
  function Frame(m: seq<byte>): (f: seq<byte>)
    ensures |f| == |ContentLengthName| + |Separator| + |Decimal(|m|)| + 4 + |m|
    ensures f[|f| - |m|..] == m
  {
    FrameHeader(|m|) + m
  }

  /** Standard output: everything written so far. */
  class OutputStream {
    var written: seq<byte>

    constructor ()
      ensures written == []
    {
      written := [];
    }
  }

  /** `send` (src/nvim.rs:203-209): the Content-Length header, the empty
      line, then the message. */
  method Send(out: OutputStream, m: seq<byte>)
    modifies out
    ensures out.written == old(out.written) + Frame(m)
  {
    out.written := out.written + ContentLengthName + Separator + Decimal(|m|) + CrLf + CrLf;
    out.written := out.written + m;
  }

  // ---------------------------------------------------------------------
  // Properties of the reader
  // ---------------------------------------------------------------------

  /** `bytes` holds `x` from `pos` on. */
  predicate HoldsAt(bytes: seq<byte>, pos: nat, x: seq<byte>)
    decreases |x|
  {
    pos + |x| <= |bytes| && (|x| == 0 || (bytes[pos] == x[0] && HoldsAt(bytes, pos + 1, x[1..])))
  }

  /** `HoldsAt` is equality of a slice. */
  lemma {:induction false} HoldsAtSlice(bytes: seq<byte>, pos: nat, x: seq<byte>)
    ensures HoldsAt(bytes, pos, x) <==> pos + |x| <= |bytes| && bytes[pos..pos + |x|] == x
    decreases |x|
  {
    if |x| > 0 && pos + |x| <= |bytes| {
      HoldsAtSlice(bytes, pos + 1, x[1..]);
      assert bytes[pos..pos + |x|] == [bytes[pos]] + bytes[pos + 1..pos + |x|];
      assert x == [x[0]] + x[1..];
    }
  }

  /** The input holds `a` then `b` at `pos`: it holds each of them. */
  lemma HoldsAtSplit(bytes: seq<byte>, pos: nat, a: seq<byte>, b: seq<byte>)
    requires HoldsAt(bytes, pos, a + b)
    ensures HoldsAt(bytes, pos, a) && HoldsAt(bytes, pos + |a|, b)
  {
    HoldsAtSlice(bytes, pos, a + b);
    assert bytes[pos..pos + |a|] == (a + b)[..|a|];
    assert bytes[pos + |a|..pos + |a| + |b|] == (a + b)[|a|..];
    HoldsAtSlice(bytes, pos, a);
    HoldsAtSlice(bytes, pos + |a|, b);
  }

  /** `before + x + after` holds `x` right after `before`. */
  lemma Embedded(before: seq<byte>, x: seq<byte>, after: seq<byte>)
    ensures HoldsAt(before + x + after, |before|, x)
  {
    var bytes := before + x + after;
    assert bytes[|before|..|before| + |x|] == x;
    HoldsAtSlice(bytes, |before|, x);
  }

  /** A successful read yields valid UTF-8 that ends where the read ends. */
  predicate Delivered(bytes: seq<byte>, r: (ReadResult, nat)) {
    r.1 <= |bytes| &&
    (r.0.Ok? && r.0.value.Some? ==>
      |r.0.value.value| <= r.1 && bytes[r.1 - |r.0.value.value|..r.1] == r.0.value.value &&
      ValidUtf8(r.0.value.value))
  }

  /** Whatever `read` returns as a message is UTF-8 taken from the input
      just before the cursor. */
  lemma {:induction false} ReadDelivers(bytes: seq<byte>, pos: nat, size: Option<nat>)
    requires pos <= |bytes|
    ensures Delivered(bytes, NextLine(bytes, pos, size))
    decreases |bytes| - pos
  {
    var next := LineEnd(bytes, pos);
    if next == pos {
      assert NextLine(bytes, pos, size) == (Ok(None), pos);
    } else {
      var o := Outcome(bytes[pos..next], size);
      var r := AfterLine(bytes, next, o, size);
      assert NextLine(bytes, pos, size) == r;
      match o
      case NextHeader(size') =>
        ReadDelivers(bytes, next, size');
        assert r == NextLine(bytes, next, size');
      case EndOfHeaders =>
        assert r == ReadPayload(bytes, next, size);
        PayloadDelivered(bytes, next, size);
      case Failed(e) =>
        assert r == (Err(e), next);
    }
  }

  /** The payload is delivered from just before the cursor. */
  lemma PayloadDelivered(bytes: seq<byte>, pos: nat, size: Option<nat>)
    requires pos <= |bytes|
    ensures Delivered(bytes, ReadPayload(bytes, pos, size))
  {
  }

  /** The line at `pos` ends at e when e - 1 is the first '\n' from pos. */
  lemma {:induction false} LineEndAt(bytes: seq<byte>, pos: nat, e: nat)
    requires pos < e <= |bytes| && bytes[e - 1] == LF
    requires forall i :: pos <= i < e - 1 ==> bytes[i] != LF
    ensures LineEnd(bytes, pos) == e
    decreases e - pos
  {
    if pos < e - 1 {
      LineEndAt(bytes, pos + 1, e);
    }
  }

  /** A whole line as `read_line` returns it when more input follows: it
      ends in its only '\n'. */
  predicate IsLine(line: seq<byte>) {
    |line| > 0 && line[|line| - 1] == LF && forall i :: 0 <= i < |line| - 1 ==> line[i] != LF
  }

  /** The line at `pos` is `line` when `line` ends in its only '\n'. */
  lemma LineAt(bytes: seq<byte>, pos: nat, line: seq<byte>)
    requires IsLine(line) && HoldsAt(bytes, pos, line)
    ensures LineEnd(bytes, pos) == pos + |line| && bytes[pos..pos + |line|] == line
  {
    HoldsAtSlice(bytes, pos, line);
    forall i | pos <= i < pos + |line| - 1 ensures bytes[i] != LF {
      assert bytes[i] == line[i - pos];
    }
    assert bytes[pos + |line| - 1] == line[|line| - 1];
    LineEndAt(bytes, pos, pos + |line|);
  }

  /** `read_line` stops at `next`: the header loop goes on with the line
      that ends there. */
  lemma HeadersAt(bytes: seq<byte>, pos: nat, line: seq<byte>, size: Option<nat>)
    requires |line| > 0 && pos + |line| <= |bytes| && LineEnd(bytes, pos) == pos + |line|
    requires bytes[pos..pos + |line|] == line
    ensures NextLine(bytes, pos, size) == AfterLine(bytes, pos + |line|, Outcome(line, size), size)
  {
  }

  /** A whole line at `pos` is consumed, and its outcome decides what
      comes next. */
  lemma LineStep(bytes: seq<byte>, pos: nat, line: seq<byte>, size: Option<nat>)
    requires IsLine(line) && HoldsAt(bytes, pos, line)
    ensures NextLine(bytes, pos, size) == AfterLine(bytes, pos + |line|, Outcome(line, size), size)
  {
    LineAt(bytes, pos, line);
    HeadersAt(bytes, pos, line, size);
  }

  /** A line at `pos` that fails ends the read after it. */
  lemma LineFails(bytes: seq<byte>, pos: nat, line: seq<byte>, size: Option<nat>, e: ReadError, next: nat)
    requires IsLine(line) && HoldsAt(bytes, pos, line) && next == pos + |line|
    requires Outcome(line, size) == Failed(e)
    ensures NextLine(bytes, pos, size) == (Err(e), next)
  {
    LineStep(bytes, pos, line, size);
  }

  /** The line at `pos` that ends the header block leads to the payload. */
  lemma LineEndsHeaders(bytes: seq<byte>, pos: nat, line: seq<byte>, size: Option<nat>, next: nat)
    requires IsLine(line) && HoldsAt(bytes, pos, line) && next == pos + |line|
    requires Outcome(line, size) == EndOfHeaders
    ensures NextLine(bytes, pos, size) == ReadPayload(bytes, next, size)
  {
    LineStep(bytes, pos, line, size);
  }

  /** A header line at `pos` hands the size it leaves to the next line. */
  lemma LineContinues(bytes: seq<byte>, pos: nat, line: seq<byte>, size: Option<nat>, size': Option<nat>, next: nat)
    requires IsLine(line) && HoldsAt(bytes, pos, line) && next == pos + |line|
    requires Outcome(line, size) == NextHeader(size')
    ensures NextLine(bytes, pos, size) == NextLine(bytes, next, size')
  {
    LineStep(bytes, pos, line, size);
  }

  /** At the end of the input, `read` returns `Ok(None)` and stays put. */
  lemma ReadAtEnd(bytes: seq<byte>, size: Option<nat>)
    ensures NextLine(bytes, |bytes|, size) == (Ok(None), |bytes|)
  {
  }

  /** "\r\n" is the line that ends the header block. */
  lemma BlankLine(size: Option<nat>)
    ensures IsLine(CrLf) && Outcome(CrLf, size) == EndOfHeaders
  {
    AsciiIsValid(CrLf);
  }

  /** The empty line ends the header block; the payload comes next. */
  lemma BlankLineStep(bytes: seq<byte>, pos: nat, size: Option<nat>)
    requires HoldsAt(bytes, pos, CrLf)
    ensures NextLine(bytes, pos, size) == ReadPayload(bytes, pos + 2, size)
  {
    BlankLine(size);
    LineEndsHeaders(bytes, pos, CrLf, size, pos + 2);
  }

  /** "name: value\r\n" is one valid UTF-8 line ended by "\r\n". */
  lemma HeaderLineShape(name: seq<byte>, value: seq<byte>)
    requires forall i :: 0 <= i < |name| ==> name[i] != LF
    requires forall i :: 0 <= i < |value| ==> value[i] != LF
    requires ValidUtf8(name) && ValidUtf8(value)
    ensures var line := name + Separator + value + CrLf;
      IsLine(line) && ValidUtf8(line) && EndsWithCrLf(line) && |line| > 2 &&
      line[..|line| - 2] == name + Separator + value
  {
    var line := name + Separator + value + CrLf;
    forall i | 0 <= i < |line| - 1 ensures line[i] != LF {
      if i < |name| {
        assert line[i] == name[i];
      } else if i >= |name| + 2 && i < |name| + 2 + |value| {
        assert line[i] == value[i - |name| - 2];
      }
    }
    AsciiIsValid(Separator);
    AsciiIsValid(CrLf);
    ValidConcat(name, Separator);
    ValidConcat(name + Separator, value);
    ValidConcat(name + Separator + value, CrLf);
    assert line[..|line| - 2] == name + Separator + value;
  }

  /** How one well-formed header "name: value" updates the size. */
  lemma HeaderUpdateOf(name: seq<byte>, value: seq<byte>, size: Option<nat>)
    requires forall i :: 0 <= i < |name| ==> name[i] != 0x3A
    ensures HeaderUpdate(name + Separator + value, size) ==
      if !EqIgnoreAsciiCase(name, ContentLengthName) then Ok(size)
      else if ParseUsize(value).None? then Err(InvalidContentLength)
      else Ok(ParseUsize(value))
  {
    forall i | 0 <= i < |name| ensures !OccursAt(name + Separator + value, Separator, i) {
      assert (name + Separator + value)[i] == name[i];
    }
    SplitAtFirst(name, Separator, value);
  }

  /** The line "name: value\r\n" is one header line, and what it does to
      the size depends on its name and value only. */
  lemma HeaderLineOf(name: seq<byte>, value: seq<byte>, size: Option<nat>)
    requires forall i :: 0 <= i < |name| ==> name[i] != LF && name[i] != 0x3A
    requires forall i :: 0 <= i < |value| ==> value[i] != LF
    requires ValidUtf8(name) && ValidUtf8(value)
    ensures var line := name + Separator + value + CrLf;
      |line| == |name| + |value| + 4 && IsLine(line) &&
      Outcome(line, size) ==
        if !EqIgnoreAsciiCase(name, ContentLengthName) then NextHeader(size)
        else if ParseUsize(value).None? then Failed(InvalidContentLength)
        else NextHeader(ParseUsize(value))
  {
    HeaderLineShape(name, value);
    HeaderUpdateOf(name, value, size);
  }

  /** A header line "name: value\r\n", with neither part holding '\n' and
      the name holding no ':', is consumed whole and updates the size by
      its name and value. */
  lemma HeaderLineStep(bytes: seq<byte>, pos: nat, name: seq<byte>, value: seq<byte>, size: Option<nat>)
    requires forall i :: 0 <= i < |name| ==> name[i] != LF && name[i] != 0x3A
    requires forall i :: 0 <= i < |value| ==> value[i] != LF
    requires ValidUtf8(name) && ValidUtf8(value)
    requires HoldsAt(bytes, pos, name + Separator + value + CrLf)
    ensures var next := pos + |name| + |value| + 4;
      NextLine(bytes, pos, size) ==
        if !EqIgnoreAsciiCase(name, ContentLengthName) then NextLine(bytes, next, size)
        else if ParseUsize(value).None? then (Err(InvalidContentLength), next)
        else NextLine(bytes, next, ParseUsize(value))
  {
    HeaderLineOf(name, value, size);
    var line, next := name + Separator + value + CrLf, pos + |name| + |value| + 4;
    if !EqIgnoreAsciiCase(name, ContentLengthName) {
      LineContinues(bytes, pos, line, size, size, next);
    } else if ParseUsize(value).None? {
      LineFails(bytes, pos, line, size, InvalidContentLength, next);
    } else {
      LineContinues(bytes, pos, line, size, ParseUsize(value), next);
    }
  }

  /** A header other than Content-Length changes nothing. */
  lemma OtherHeaderIgnored(bytes: seq<byte>, pos: nat, name: seq<byte>, value: seq<byte>, size: Option<nat>)
    requires forall i :: 0 <= i < |name| ==> name[i] != LF && name[i] != 0x3A
    requires forall i :: 0 <= i < |value| ==> value[i] != LF
    requires ValidUtf8(name) && ValidUtf8(value)
    requires !EqIgnoreAsciiCase(name, ContentLengthName)
    requires HoldsAt(bytes, pos, name + Separator + value + CrLf)
    ensures NextLine(bytes, pos, size) == NextLine(bytes, pos + |name| + |value| + 4, size)
  {
    HeaderLineStep(bytes, pos, name, value, size);
  }

  /** A name equal to "Content-Length" up to case is ASCII without ':'. */
  lemma ContentLengthNameShape(name: seq<byte>)
    requires EqIgnoreAsciiCase(name, ContentLengthName)
    ensures forall i :: 0 <= i < |name| ==> IsAscii(name[i]) && name[i] != LF && name[i] != 0x3A
    ensures ValidUtf8(name)
  {
    NameLettersAndDash();
    forall i | 0 <= i < |name| ensures IsAscii(name[i]) && name[i] != LF && name[i] != 0x3A {
      LetterOrDashIgnoringCase(name[i], ContentLengthName[i]);
    }
    AsciiIsValid(name);
  }

  predicate IsLetterOrDash(b: byte) {
    0x41 <= b <= 0x5A || 0x61 <= b <= 0x7A || b == 0x2D
  }

  /** "Content-Length" is made of letters and a dash. */
  lemma NameLettersAndDash()
    ensures forall i :: 0 <= i < |ContentLengthName| ==> IsLetterOrDash(ContentLengthName[i])
  {
  }

  /** A byte equal to a letter or a dash up to case is one too. */
  lemma LetterOrDashIgnoringCase(b: byte, c: byte)
    requires IsLetterOrDash(c) && ToAsciiLower(b) == ToAsciiLower(c)
    ensures IsAscii(b) && b != LF && b != 0x3A
  {
  }

  /** A Content-Length header replaces whatever size an earlier one set. */
  lemma ContentLengthOverrides(bytes: seq<byte>, pos: nat, name: seq<byte>, value: seq<byte>, size: Option<nat>)
    requires EqIgnoreAsciiCase(name, ContentLengthName) && ParseUsize(value).Some?
    requires HoldsAt(bytes, pos, name + Separator + value + CrLf)
    ensures NextLine(bytes, pos, size) == NextLine(bytes, pos + |name| + |value| + 4, ParseUsize(value))
  {
    ContentLengthNameShape(name);
    ParsedIsAscii(value);
    AsciiIsValid(value);
    HeaderLineStep(bytes, pos, name, value, size);
  }

  /** A Content-Length value that is not a `usize` is an error. */
  lemma InvalidContentLengthRejected(bytes: seq<byte>, pos: nat, name: seq<byte>, value: seq<byte>, size: Option<nat>)
    requires EqIgnoreAsciiCase(name, ContentLengthName)
    requires forall i :: 0 <= i < |value| ==> value[i] != LF
    requires ValidUtf8(value) && ParseUsize(value).None?
    requires HoldsAt(bytes, pos, name + Separator + value + CrLf)
    ensures NextLine(bytes, pos, size) == (Err(InvalidContentLength), pos + |name| + |value| + 4)
  {
    ContentLengthNameShape(name);
    HeaderLineStep(bytes, pos, name, value, size);
  }

  /** A UTF-8 line that does not end in "\r\n" is a malformed header. */
  lemma NoCrLfMalformed(line: seq<byte>, size: Option<nat>)
    requires ValidUtf8(line) && !EndsWithCrLf(line)
    ensures Outcome(line, size) == Failed(MalformedHeader)
  {
  }

  /** A header line ended by a bare '\n' is malformed. */
  lemma BareLineFeedRejected(bytes: seq<byte>, pos: nat, line: seq<byte>, size: Option<nat>)
    requires IsLine(line) && ValidUtf8(line) && HoldsAt(bytes, pos, line)
    requires |line| < 2 || line[|line| - 2] != CR
    ensures NextLine(bytes, pos, size) == (Err(MalformedHeader), pos + |line|)
  {
    NoCrLfMalformed(line, size);
    LineFails(bytes, pos, line, size, MalformedHeader, pos + |line|);
  }

  /** A UTF-8 header line in which ": " does not occur is malformed. */
  lemma NoSeparatorMalformed(line: seq<byte>, size: Option<nat>)
    requires ValidUtf8(line) && EndsWithCrLf(line) && |line| > 2
    requires !Occurs(line[..|line| - 2], Separator)
    ensures Outcome(line, size) == Failed(MalformedHeader)
  {
    HeaderUpdateSpec(line[..|line| - 2], size);
  }

  /** A non-empty header line without ": " is malformed. */
  lemma HeaderWithoutSeparator(bytes: seq<byte>, pos: nat, line: seq<byte>, size: Option<nat>)
    requires IsLine(line) && ValidUtf8(line) && HoldsAt(bytes, pos, line)
    requires EndsWithCrLf(line) && |line| > 2
    requires !Occurs(line[..|line| - 2], Separator)
    ensures NextLine(bytes, pos, size) == (Err(MalformedHeader), pos + |line|)
  {
    NoSeparatorMalformed(line, size);
    LineFails(bytes, pos, line, size, MalformedHeader, pos + |line|);
  }

  /** A Content-Length header and then the empty line lead straight to
      the payload. */
  lemma ContentLengthThenBlank(bytes: seq<byte>, pos: nat, name: seq<byte>, value: seq<byte>, n: nat, end: nat)
    requires EqIgnoreAsciiCase(name, ContentLengthName) && ParseUsize(value) == Some(n)
    requires HoldsAt(bytes, pos, name + Separator + value + CrLf)
    requires HoldsAt(bytes, pos + |name| + |value| + 4, CrLf)
    requires end == pos + |name| + |value| + 6
    ensures ReadFrom(bytes, pos) == ReadPayload(bytes, end, Some(n))
  {
    var next := pos + |name| + |value| + 4;
    calc {
      ReadFrom(bytes, pos);
      NextLine(bytes, pos, None);
      { ContentLengthOverrides(bytes, pos, name, value, None); }
      NextLine(bytes, next, Some(n));
      { BlankLineStep(bytes, next, Some(n)); }
      ReadPayload(bytes, end, Some(n));
    }
  }

  /** The header block written by `send` leads straight to its payload. */
  lemma ReadFrameHeader(bytes: seq<byte>, pos: nat, n: nat)
    requires n <= USIZE_MAX
    requires HoldsAt(bytes, pos, FrameHeader(n))
    ensures ReadFrom(bytes, pos) == ReadPayload(bytes, pos + |FrameHeader(n)|, Some(n))
  {
    HoldsAtSplit(bytes, pos, ContentLengthLine(n), CrLf);
    ContentLengthLineThenBlank(bytes, pos, n, pos + |FrameHeader(n)|);
  }

  /** The Content-Length line `send` writes, then the empty line, lead
      straight to the payload. */
  lemma ContentLengthLineThenBlank(bytes: seq<byte>, pos: nat, n: nat, end: nat)
    requires n <= USIZE_MAX
    requires HoldsAt(bytes, pos, ContentLengthLine(n))
    requires HoldsAt(bytes, pos + |ContentLengthLine(n)|, CrLf)
    requires end == pos + |ContentLengthLine(n)| + 2
    ensures ReadFrom(bytes, pos) == ReadPayload(bytes, end, Some(n))
  {
    ParseDecimal(n);
    ContentLengthThenBlank(bytes, pos, ContentLengthName, Decimal(n), n, end);
  }

  /** The n bytes at `pos` are the payload, if they are UTF-8. */
  lemma PayloadAt(bytes: seq<byte>, pos: nat, m: seq<byte>, end: nat)
    requires |m| <= ISIZE_MAX
    requires HoldsAt(bytes, pos, m) && end == pos + |m|
    ensures ReadPayload(bytes, pos, Some(|m|)) ==
      if ValidUtf8(m) then (Ok(Some(m)), end) else (Err(InvalidUtf8), end)
  {
    HoldsAtSlice(bytes, pos, m);
  }

  /** A frame written by `send` at `pos` is read whole; what it gives back
      depends only on whether its message is UTF-8. */
  lemma FrameAt(bytes: seq<byte>, pos: nat, m: seq<byte>, end: nat)
    requires |m| <= ISIZE_MAX
    requires HoldsAt(bytes, pos, Frame(m)) && end == pos + |Frame(m)|
    ensures ReadFrom(bytes, pos) ==
      if ValidUtf8(m) then (Ok(Some(m)), end) else (Err(InvalidUtf8), end)
  {
    var header := FrameHeader(|m|);
    assert Frame(m) == header + m;
    HoldsAtSplit(bytes, pos, header, m);
    ReadFrameHeader(bytes, pos, |m|);
    PayloadAt(bytes, pos + |header|, m, end);
  }

  /** A frame written by `send` at `pos` reads back as its message. */
  lemma ReadFrame(bytes: seq<byte>, pos: nat, m: seq<byte>)
    requires |m| <= ISIZE_MAX && ValidUtf8(m)
    requires HoldsAt(bytes, pos, Frame(m))
    ensures ReadFrom(bytes, pos) == (Ok(Some(m)), pos + |Frame(m)|)
  {
    FrameAt(bytes, pos, m, pos + |Frame(m)|);
  }

  /** A frame whose payload is not UTF-8 is refused, after being consumed. */
  lemma InvalidPayloadRejected(bytes: seq<byte>, pos: nat, m: seq<byte>)
    requires |m| <= ISIZE_MAX && !ValidUtf8(m)
    requires HoldsAt(bytes, pos, Frame(m))
    ensures ReadFrom(bytes, pos) == (Err(InvalidUtf8), pos + |Frame(m)|)
  {
    FrameAt(bytes, pos, m, pos + |Frame(m)|);
  }

  /** `read` gives back exactly what `send` wrote, wherever the frame sits
      in the input and whatever follows it. */
  lemma ReadSendRoundTrip(before: seq<byte>, m: seq<byte>, after: seq<byte>)
    requires ValidUtf8(m) && |m| <= ISIZE_MAX
    ensures ReadFrom(before + Frame(m) + after, |before|) == (Ok(Some(m)), |before| + |Frame(m)|)
  {
    Embedded(before, Frame(m), after);
    ReadFrame(before + Frame(m) + after, |before|, m);
  }

  /** A frame cut short inside its payload ends in UnexpectedEof, when its
      length can be allocated. */
  lemma TruncatedPayload(m: seq<byte>, k: nat)
    requires |m| <= ISIZE_MAX && 0 < k <= |m|
    ensures ReadFrom(Frame(m)[..|Frame(m)| - k], 0) == (Err(UnexpectedEof), |Frame(m)| - k)
  {
    var bytes := Frame(m)[..|Frame(m)| - k];
    assert bytes[0..|FrameHeader(|m|)|] == FrameHeader(|m|);
    HoldsAtSlice(bytes, 0, FrameHeader(|m|));
    ReadFrameHeader(bytes, 0, |m|);
  }

  /** A Content-Length above isize::MAX makes `Vec::resize` panic before
      anything of the payload is read. */
  lemma OversizedPayloadPanics(n: nat, rest: seq<byte>)
    requires ISIZE_MAX < n <= USIZE_MAX
    ensures ReadFrom(FrameHeader(n) + rest, 0) == (Err(CapacityOverflow), |FrameHeader(n)|)
  {
    Embedded([], FrameHeader(n), rest);
    assert [] + FrameHeader(n) + rest == FrameHeader(n) + rest;
    ReadFrameHeader(FrameHeader(n) + rest, 0, n);
  }

  /** An empty line before any Content-Length is an error. */
  lemma MissingContentLengthRejected(after: seq<byte>)
    ensures ReadFrom(CrLf + after, 0) == (Err(MissingContentLength), 2)
  {
    Embedded([], CrLf, after);
    assert [] + CrLf + after == CrLf + after;
    BlankLineStep(CrLf + after, 0, None);
  }
}

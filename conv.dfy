/** The memory-image rewriter: every `@` line holding a byte address becomes an
    `@` line holding the word address (the byte address divided by 4) as an
    8-digit upper-case hex field; every other line is copied unchanged. The
    input file is the sequence of lines Python's file iteration yields (each
    with its terminator, the last possibly without); the output file is the
    sequence of lines written, in order. */
module Conv {
  import opened Wrappers
  import opened Hex

  /** Why the conversion stopped. */
  datatype ConvError =
    | EmptyLine                // `str[0]` of an empty line: IndexError
    | BadAddress(text: string) // `int(text, 16)` rejects the text after `@`: ValueError
    | Misaligned(address: nat) // the byte address is not a multiple of 4

  /** The line written for one input line, or the failure that stops the run. */
  function ConvertLine(line: string): (r: Result<string, ConvError>)
    // the empty line has no first character to test
    ensures line == [] ==> r == Failure(EmptyLine)
    // only the first character decides: anything else passes through verbatim
    ensures |line| > 0 && line[0] != '@' ==> r == Success(line)
    // an address line is accepted exactly when it parses and is word aligned
    ensures |line| > 0 && line[0] == '@' ==>
      (r.Success? <==> ParseHex(line[1..]).Some? && ParseHex(line[1..]).value % 4 == 0)
    ensures |line| > 0 ==>
      (r == Failure(BadAddress(line[1..])) <==> line[0] == '@' && ParseHex(line[1..]).None?)
    ensures r.Failure? && r.error.Misaligned? <==>
      |line| > 0 && line[0] == '@' && ParseHex(line[1..]).Some? && ParseHex(line[1..]).value % 4 != 0
    ensures r.Failure? && r.error.Misaligned? ==> Some(r.error.address) == ParseHex(line[1..])
    // an accepted address line becomes `@`, the 8-digit field of the word address, `\n`
    ensures |line| > 0 && line[0] == '@' && r.Success? ==>
      ParseHex(line[1..]).Some? &&
      r.value == "@" + FormatHex08(ParseHex(line[1..]).value / 4) + "\n"
  {
    if line == [] then Failure(EmptyLine)
    else if line[0] == '@' then
      match ParseHex(line[1..])
      case None => Failure(BadAddress(line[1..]))
      case Some(addr) =>
        if addr % 4 != 0 then Failure(Misaligned(addr))
        else
          Success("@" + FormatHex08(addr / 4) + "\n")
    else Success(line)
  }

  /** The line written for word address q: `@`, the 8-digit upper-case
      field, a newline; reading the field back gives q. */
  lemma WordAddressLine(q: nat)
    ensures var out := "@" + FormatHex08(q) + "\n";
      |out| >= 10 && out[0] == '@' && out[|out| - 1] == '\n' &&
      AllUpperHexDigits(out[1..|out| - 1]) &&
      ParseHex(out[1..]) == Some(q) &&
      (|out| == 10 <==> q < 0x1_0000_0000)
  {
    var field := FormatHex08(q);
    var out := "@" + field + "\n";
    ParseFormatRoundTrip(q);
    assert out[1..] == field + "\n" && out[1..|out| - 1] == field;
  }

  /** An accepted address line is rewritten to exactly `@`, the 8-digit
      field of the word address and a newline: an `@` line whose upper-case
      hex field, read back, is the word address, so that four times it is the
      byte address. */
  lemma AddressLineRewritten(line: string)
    requires |line| > 0 && line[0] == '@' && ConvertLine(line).Success?
    ensures ParseHex(line[1..]).Some? && ParseHex(line[1..]).value % 4 == 0
    ensures ConvertLine(line).value == "@" + FormatHex08(ParseHex(line[1..]).value / 4) + "\n"
    ensures var out := ConvertLine(line).value;
      |out| >= 10 && out[0] == '@' && out[|out| - 1] == '\n' &&
      AllUpperHexDigits(out[1..|out| - 1]) &&
      ParseHex(out[1..]).Some? &&
      ParseHex(line[1..]) == Some(4 * ParseHex(out[1..]).value) &&
      (|out| == 10 <==> ParseHex(line[1..]).value < 0x4_0000_0000)
  {
    var addr := ParseHex(line[1..]).value;
    var q := addr / 4;
    assert addr == 4 * q;
    assert q < 0x1_0000_0000 <==> addr < 0x4_0000_0000;
    WordAddressLine(q);
  }

  /** What a run leaves behind: the lines written, and the failure, if any,
      that stopped it. */
  datatype Outcome = Outcome(written: seq<string>, failure: Option<ConvError>)

  /** A rewriting of one line, such as ConvertLine. */
  type LineConversion = string -> Result<string, ConvError>

  /** The written lines are the conversions of the input lines, one for one
      and in order, up to the first line whose conversion fails; that failure
      is reported and nothing after it is written. */
  predicate StopsAtFirstFailure(convert: LineConversion, lines: seq<string>, o: Outcome) {
    |o.written| <= |lines| &&
    (forall i :: 0 <= i < |o.written| ==> convert(lines[i]) == Success(o.written[i])) &&
    match o.failure
    case None => |o.written| == |lines|
    case Some(e) => |o.written| < |lines| && convert(lines[|o.written|]) == Failure(e)
  }

  /** Converting a file line by line from the front. */
  function RunWith(convert: LineConversion, lines: seq<string>): (o: Outcome)
    ensures StopsAtFirstFailure(convert, lines, o)
    decreases |lines|
  {
    if lines == [] then Outcome([], None)
    else
      match convert(lines[0])
      case Failure(e) => Outcome([], Some(e))
      case Success(out) =>
        var rest := RunWith(convert, lines[1..]);
        StopsAtFirstFailureCons(convert, lines, out, rest);
        Outcome([out] + rest.written, rest.failure)
  }

  /** A successful first line followed by an outcome for the remaining lines
      is an outcome for all of them. */
  lemma StopsAtFirstFailureCons(convert: LineConversion, lines: seq<string>, out: string, rest: Outcome)
    requires |lines| > 0 && convert(lines[0]) == Success(out)
    requires StopsAtFirstFailure(convert, lines[1..], rest)
    ensures StopsAtFirstFailure(convert, lines, Outcome([out] + rest.written, rest.failure))
  {
    var w := [out] + rest.written;
    forall i | 1 <= i < |w| ensures convert(lines[i]) == Success(w[i]) {
      assert lines[i] == lines[1..][i - 1] && w[i] == rest.written[i - 1];
    }
    if rest.failure.Some? {
      assert lines[|w|] == lines[1..][|rest.written|];
    }
  }

  /** The run is the only outcome that stops at the first failure. */
  lemma RunUnique(convert: LineConversion, lines: seq<string>, o: Outcome)
    requires StopsAtFirstFailure(convert, lines, o)
    ensures o == RunWith(convert, lines)
  {
    var r := RunWith(convert, lines);
    assert |o.written| == |r.written|;
    assert o.written == r.written;
  }

  /** Streaming: converting a + b is converting a, then, if a did not fail,
      converting b and writing its lines after a's. */
  lemma {:induction false} RunAppend(convert: LineConversion, a: seq<string>, b: seq<string>)
    ensures RunWith(convert, a + b) ==
      var ra, rb := RunWith(convert, a), RunWith(convert, b);
      if ra.failure.Some? then ra else Outcome(ra.written + rb.written, rb.failure)
    decreases |a|
  {
    if a == [] {
      assert a + b == b;
    } else {
      assert (a + b)[0] == a[0] && (a + b)[1..] == a[1..] + b;
      RunAppend(convert, a[1..], b);
      match convert(a[0])
      case Failure(_) =>
      case Success(out) =>
        var wa, wb := RunWith(convert, a[1..]).written, RunWith(convert, b).written;
        assert [out] + wa + wb == [out] + (wa + wb);
    }
  }

  /** The conversion of a whole file by the script. */
  function Run(lines: seq<string>): (o: Outcome)
    ensures StopsAtFirstFailure(ConvertLine, lines, o)
  {
    RunWith(ConvertLine, lines)
  }

  /** Lines already written stay written: reading further input only appends
      to the output, and after a failure it changes nothing. */
  lemma RunPrefixStable(lines: seq<string>, more: seq<string>)
    ensures Run(lines).written <= Run(lines + more).written
    ensures Run(lines).failure.Some? ==> Run(lines + more) == Run(lines)
  {
    RunAppend(ConvertLine, lines, more);
  }

  /** A file without address lines is copied unchanged. */
  lemma RunCopiesDataLines(lines: seq<string>)
    requires forall i :: 0 <= i < |lines| ==> |lines[i]| > 0 && lines[i][0] != '@'
    ensures Run(lines) == Outcome(lines, None)
  {
    RunUnique(ConvertLine, lines, Outcome(lines, None));
  }

  /** The loop of the script: convert each line in turn, writing the result,
      and stop at the first line that fails, keeping what was written. */
  method Convert(lines: seq<string>) returns (written: seq<string>, failure: Option<ConvError>)
    ensures Outcome(written, failure) == Run(lines)
    ensures StopsAtFirstFailure(ConvertLine, lines, Outcome(written, failure))
    ensures lines == [] ==> written == [] && failure == None
  {
    written, failure := [], None;
    var i := 0;
    while i < |lines|
      invariant 0 <= i <= |lines| && |written| == i
      invariant forall k :: 0 <= k < i ==> ConvertLine(lines[k]) == Success(written[k])
    {
      match ConvertLine(lines[i]) {
        case Failure(e) =>
          failure := Some(e);
          break;
        case Success(out) =>
          written := written + [out];
      }
      i := i + 1;
    }
    RunUnique(ConvertLine, lines, Outcome(written, failure));
  }
}

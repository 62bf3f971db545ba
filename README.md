# Memory-image address converter

A Dafny model of `sw/coremark/conv.py`, a line filter that rewrites a memory
image for the RISC-V core's instruction memory. An input line whose first
character is `@` holds a byte address in hexadecimal. The script parses it,
stops with an error unless it is a multiple of 4, and writes `@`, the word
address (byte address divided by 4) as at least 8 upper-case hex digits, and a
newline. Every other line is written unchanged, terminator included. The
first failing line ends the run, and the lines written before it stay in the
output file.

Layout:

- `wrappers.dfy`, module `Wrappers`: `Option` and `Result`.
- `hex.dfy`, module `Hex`: hex digits and their values (`ValueOf`), the
  shortest upper-case rendering (`ToHex`), the `format(n, '08X')` field
  (`FormatHex08`), the whitespace `int()` strips, and `int(text, 16)` (`ParseHex`).
  It also proves what the parser accepts and the round trips between parser
  and formatter.
- `conv.dfy`, module `Conv`: the per-line rewrite `ConvertLine`, and the
  specification of a whole run (`RunWith`, `Run`, `StopsAtFirstFailure`).
  The script's loop is the method `Convert`, proved equal to `Run`.

The input file is a `seq<string>` of the lines Python's file iteration
yields. Each keeps its terminator; the last one may have none. The output
file is the returned `written` sequence: it starts empty because the script
opens it with mode `"w"`. A failure is returned as `failure`, an
`Option<ConvError>`, instead of being raised.

## Model

| member | source | states |
|---|---|---|
| `Hex.ValueOf` | sw/coremark/conv.py:10 | the value of a hex digit string, most significant digit first, is below 16 to the power of its length |
| `Hex.ToHex` | sw/coremark/conv.py:13 | the `X` rendering of n: upper-case digits, at least one, that denote n and have no superfluous leading digit |
| `Hex.FormatHex08` | sw/coremark/conv.py:13 | the `08X` field of n is upper-case digits denoting n. It has at least 8 digits and more only when n needs them, so exactly 8 when n < 16^8 |
| `Hex.FormatOfValue` | sw/coremark/conv.py:13 | an 8-digit upper-case field is what `FormatHex08` writes for its own value, so the written field is unique |
| `Hex.LeadingSpaces` | sw/coremark/conv.py:10 | the length of the maximal whitespace run in front of the text |
| `Hex.TrailingSpaces` | sw/coremark/conv.py:10 | the length of the maximal whitespace run at the end of the text |
| `Hex.ParseHex` | sw/coremark/conv.py:10 | a non-empty text of hex digits in either case parses to its value |
| `Hex.ParseHexComplete` | sw/coremark/conv.py:10 | text of the shape whitespace, one or more hex digits, whitespace parses to the value of its digits; whitespace is what `int()` strips: tab, line feed, vertical tab, form feed, carriage return, space and the non-ASCII characters `str.isspace` accepts, but not U+001C to U+001F |
| `Hex.ParseHexIff` | sw/coremark/conv.py:10 | `ParseHex(s) == Some(v)` holds exactly when s has that shape and its digits denote v |
| `Hex.ParseHexIgnoresSpace` | sw/coremark/conv.py:10 | whitespace before and after the digits does not change the parse, whether it succeeds or fails |
| `Hex.ParseHexIgnoresNewline` | sw/coremark/conv.py:10 | the line terminator after the digits does not change the parse |
| `Hex.ParseHexNeedsDigit` | sw/coremark/conv.py:10 | text with no hex digit at all, such as the `"\n"` left of `"@\n"`, fails to parse |
| `Hex.ParseHexCaseInsensitive` | sw/coremark/conv.py:10 | texts that differ only in the case of their hex digits parse alike |
| `Hex.ParseFormatRoundTrip` | sw/coremark/conv.py:10-13 | parsing the written field, with or without its newline, gives back the word address |
| `Conv.ConvertLine` | sw/coremark/conv.py:9-15 | an empty line fails. A line not starting with `@` is written unchanged. An `@` line is accepted exactly when its remainder parses to a multiple of 4, and then becomes `"@" + FormatHex08(addr / 4) + "\n"`. It fails as unparseable exactly when the remainder does not parse, and as misaligned exactly when the parsed address is not a multiple of 4, reporting that address |
| `Conv.WordAddressLine` | sw/coremark/conv.py:13 | the line written for word address q is `@`, an upper-case field that parses back to q, and `\n`; it is 10 characters long exactly when q < 16^8 |
| `Conv.AddressLineRewritten` | sw/coremark/conv.py:9-13 | an accepted `@` line becomes exactly `"@" + FormatHex08(addr / 4) + "\n"`. Its field, read back and multiplied by 4, is the byte address. The line has 10 characters exactly when the address is below 4 * 16^8 |
| `Conv.RunWith` | sw/coremark/conv.py:8-15 | a run writes the conversions of the input lines one for one and in order, up to the first failing line. It reports that failure and writes nothing for that line or after it |
| `Conv.Run` | sw/coremark/conv.py:8-15 | the script's run, with `ConvertLine` as the per-line rewrite, stops at the first failure as above |
| `Conv.RunUnique` | sw/coremark/conv.py:8-15 | the run is the only outcome with that property |
| `Conv.RunAppend` | sw/coremark/conv.py:8-15 | converting `a + b` converts `a` first. If `a` failed, that is the whole result; otherwise `b`'s lines are written after `a`'s |
| `Conv.RunPrefixStable` | sw/coremark/conv.py:8-15 | lines already written stay written: more input only appends to the output, and after a failure it changes nothing |
| `Conv.RunCopiesDataLines` | sw/coremark/conv.py:14-15 | a file with no `@` lines is copied unchanged and the run succeeds |
| `Conv.Convert` | sw/coremark/conv.py:8-15 | the loop returns exactly `Run(lines)`: lines written one for one up to the first failing line, that failure reported, and empty input giving empty output |

## Left out

- Hex.ParseHex: accepts fewer texts than Python's `int(text, 16)`. It rejects a leading `+` or `-`, a `0x`/`0X` prefix, `_` between digits and non-ASCII decimal digits, all of which Python accepts. A negative address would make `format(..., '08X')` print a minus sign; that path is not modelled.
- Opening, reading, writing and closing the two files, and reading the paths from the command line (sw/coremark/conv.py:5-6, 16-17, 20-21), are replaced by the input and output sequences. The model assumes every line written before a failure reaches the file.
- Python's universal-newline translation of `\r\n` and `\r` into `\n` happens before the script sees a line. The model takes the lines after that translation.
- The output file is opened in text mode (sw/coremark/conv.py:6), so each `\n` written at sw/coremark/conv.py:13 and sw/coremark/conv.py:15 leaves as the platform's line separator (`\r\n` on Windows). The model's output is the text passed to `write`, before that translation.
- The exception types are not modelled. `raise` of a string at sw/coremark/conv.py:12 actually raises `TypeError` in Python 3. All failures are the one `ConvError` result, which names the cause: an empty line (`str[0]` fails), an unparseable address, or a misaligned address.
- An empty line cannot come from file iteration. The model still gives it a result, the `EmptyLine` failure, matching the `IndexError` of `str[0]`.
- sw/coremark/uart.c is not part of this model. It busy-waits on memory-mapped UART registers and has no behaviour that can be stated without hardware I/O.

# log-to-gor in Dafny

`log-to-gor` converts an Apache Combined Log Format access log into a goreplay
`.gor` file. Its loop reads the log line by line and skips some lines: lines that are empty,
lines the log parser rejects, and lines without a quoted
`"METHOD PATH PROTOCOL"` request. Every other line becomes one record of three
segments, written one after another:

- a header `1 <id> <timestamp> 0`, where `<id>` is 12 random bytes in
  lowercase hexadecimal and `<timestamp>` is the nanoseconds since the Unix epoch
  of the line's bracketed stamp (0 when no stamp matches or it does not parse);
- the request line followed by `\r\n\r\n\n`;
- the payload delimiter `🐵🙈🙉` and a newline.

A failed draw of random bytes skips the line. A failed write stops the conversion
with the count of lines converted so far and names the segment that failed. A
failed read of the input is reported after the last line.

The model is organised in seven modules:

- `Wrappers` is `Option`.
- `Scan` has scanning to a delimiter, decimal digits and the generic
  leftmost-match search that a regular-expression "find" performs.
- `RequestLine` is the request pattern.
- `Timestamp` covers the stamp pattern, the layout `02/Jan/2006:15:04:05`, the
  calendar and signed 64-bit nanoseconds.
- `RequestId` covers the hexadecimal identifier and the entropy source.
- `Framing` covers the segments, the `%d` numeral and a reader for the
  sequence of written segments, which serves as the partner of the writer.
- `Converter` holds the run specification, the output sink and the loop itself.

The loop is an imperative method. `ProcessLogs` transforms a `Sink` and an
`Entropy` object. Its contract ties the final state to the pure run specification
`Run`, and the lemmas about `Run` state what the converter promises:

- every record is written in full, or the run stops at the first failed write
  with exactly the segments before it;
- the count is the number of records;
- skipped lines leave no trace;
- the sequence of written segments reads back as the records.

The log parser, the entropy source and the output stream are outside the
program. They appear as parameters:

- `accepts: string -> bool` is the parser's verdict on a line;
- `draw: nat -> Option<IdBytes>` is the `n`-th read of the random source;
- `fails: nat -> bool` says whether the write of the `n`-th segment fails.

Three facts about the code shape the model:

- `time.Parse` with a layout that has no zone returns UTC, and the bracketed
  offset is discarded.
- The comment on `generateRequestID` says 16 bytes and 32 characters. The code
  draws 12 bytes, giving 24 hexadecimal characters, and the model uses 12.
- Month names are looked up without regard to ASCII case, as Go's layout parser
  does. So `01/oct/2025:...` parses like `01/Oct/2025:...`.

## Model

| member | source | states |
|---|---|---|
| Converter.ProcessLogs | log-to-gor.go:66-131 | the count, the segments written and the draws made by the loop are those of `Run` over the lines, with the error that ends it |
| Converter.ConvertLine | log-to-gor.go:69-125 | one pass of the loop body changes the sink, the entropy source and the count exactly as `Step` does, and reports whether the line was converted and the failed write |
| Converter.Run | log-to-gor.go:66-131 | the segments already written stay written, the count never drops, and the output holds three segments per counted line plus those of at most one unfinished record |
| Converter.RunNext | log-to-gor.go:69-126 | a non-empty run keeps the same output and count invariants as `Run` |
| Converter.Step | log-to-gor.go:69-125 | one line only appends, raises the count by at most one, and appends three segments per count plus the partial record of a failed write |
| Converter.WriteRecord | log-to-gor.go:111-125 | the record is written without error exactly when none of its three writes fails; the three writes stop at the first failure, the part that failed is named, and only the segments before it are appended; on success the count rises by one and all three are appended |
| Converter.WriteSegments | log-to-gor.go:111-124 | the sink afterwards holds what `WriteRecord` of the record's segments appends, and the reported error is its error |
| Converter.WriteEach | log-to-gor.go:113-124 | three consecutive writes leave the sink and the error as `WriteRecord` says |
| Converter.Sink.Write | log-to-gor.go:113-123 | a write succeeds unless `fails` holds at the current length, appends the segment exactly when it succeeds, and otherwise leaves the output unchanged |
| Converter.ExtractTimestamp | log-to-gor.go:96-103 | the value computed step by step is `TimestampOf(line)`: nanoseconds of the leftmost stamp when its date-time parses, otherwise 0 |
| Converter.RunWithoutWriteFailure | log-to-gor.go:66-131 | with no failing write, the count is the number of records, the output is their segments in order, one draw is made per line with a request, and a read failure is reported at the end |
| Converter.RunWithWriteFailure | log-to-gor.go:111-125 | when the first failing write falls among the segments of the records, the count is the number of whole records before it, exactly the segments before it are written, and the error names its part |
| Converter.OutputReadsBack | log-to-gor.go:111-124 | with no failing write, the segments appended by a run parse back as exactly its records |
| Converter.RecordsReadable | log-to-gor.go:139 | every record's identifier is hexadecimal and so has no space |
| Converter.PayloadsIgnoreIds | log-to-gor.go:104-113 | when every draw succeeds, two entropy sources give the same timestamps and request lines in the same order, so records differ only in their identifiers |
| Converter.RequestLineOfNone | log-to-gor.go:71-94 | a line contributes no request line exactly when it is empty, rejected by the parser, or holds no match of the request pattern |
| Converter.RequestLineOfLeftmost | log-to-gor.go:88-91 | the request line contributed is the verb, path and protocol of the leftmost match, joined by single spaces |
| Converter.RequestLineOfSome | log-to-gor.go:88-91 | a contributed request line comes from a leftmost match with one of the seven verbs, a space-free path and a non-empty quote-free protocol |
| Converter.LineSkipped | log-to-gor.go:71-94 | a skipped line writes nothing, counts nothing and reads no random bytes |
| Converter.IdFailureSkips | log-to-gor.go:105-109 | a failed draw skips the line without output or count, the draw having been made |
| Converter.LineConverted | log-to-gor.go:104-125 | a convertible line appends its header, its request line with `\r\n\r\n\n` and the delimiter line, is counted whatever its timestamp, and its header reads back as its identifier and timestamp |
| Converter.LineAlone | log-to-gor.go:66-131 | a run over one convertible line writes exactly that line's record |
| Converter.BlankLinesOnly | log-to-gor.go:69-73 | blank lines alone convert to nothing and leave the state unchanged |
| Converter.BlankLineHasNoRequest | log-to-gor.go:71-73 | the converter takes no request line from an empty line |
| Converter.SampleRequestLine | log-to-gor.go:88-91 | the request line of the sample Combined Log Format line is `GET /api/v1/users HTTP/1.1` |
| Converter.SampleTimestamp | log-to-gor.go:96-103 | the timestamp of the sample line is 1759321811000000000 |
| Converter.SampleConverted | log-to-gor.go:66-131 | the sample line alone converts to one record with that request line and timestamp |
| RequestLine.MatchAtIff | log-to-gor.go:88 | the scanner at a start position reports a request exactly when the pattern matches there with those groups |
| RequestLine.FindIsLeftmost | log-to-gor.go:88-89 | `Find` reports a match exactly when it is a match with no match at any earlier position |
| RequestLine.FindNoneIff | log-to-gor.go:88-94 | `Find` fails exactly when the line holds no match |
| RequestLine.QuotedAt | log-to-gor.go:88 | the quoted text lies at `i` exactly when its quote, verb, space, path, space, protocol and quote lie end to end |
| Scan.FirstFromIsLeftmost | log-to-gor.go:89 | the search fails exactly when no position matches, and otherwise no earlier position matches |
| Scan.SpanTo | log-to-gor.go:88 | the end of the maximal run without `c`: nothing before it is `c`, and it is `c` or the end |
| Timestamp.StampAt | log-to-gor.go:96-97 | a stamp matched at a position has the pattern's shape: two digits, `/`, three word characters, `/`, four digits, and three two-digit fields each after a `:` |
| Timestamp.StampAtIff | log-to-gor.go:96 | the stamp scanner at a position reports a match exactly when the stamp pattern matches there |
| Timestamp.FindStampIsLeftmost | log-to-gor.go:96-97 | `FindStamp` reports exactly the leftmost stamp match |
| Timestamp.FindStampNoneIff | log-to-gor.go:96-98 | `FindStamp` fails exactly when the line holds no stamp |
| Timestamp.TimestampOfLeftmost | log-to-gor.go:96-103 | the leftmost stamp decides the timestamp: its nanoseconds if its date-time parses, otherwise 0 |
| Timestamp.TimestampOfNoStamp | log-to-gor.go:96-98 | a line without a stamp has timestamp 0 |
| Timestamp.ParseStamp | log-to-gor.go:99 | what the layout accepts is a valid civil date-time |
| Timestamp.ParseFormatted | log-to-gor.go:99 | every valid date-time parses back from its layout text |
| Timestamp.ParsedIsFormatted | log-to-gor.go:99 | every accepted group is the layout text of the date-time it parses to, up to the case of the month name |
| Timestamp.MonthOfName | log-to-gor.go:99 | a month's abbreviation in any letter case is read as that month |
| Timestamp.MonthNamesDistinct | log-to-gor.go:99 | no two month abbreviations are equal up to case |
| Timestamp.Assemble | log-to-gor.go:99 | the range checks of the layout let only valid date-times through |
| Timestamp.DaysBeforeYearCounts | log-to-gor.go:101 | the closed-form day count of the years before `y` equals their lengths summed one by one |
| Timestamp.DaysBeforeMonthCounts | log-to-gor.go:101 | the day count before a month equals the lengths of the earlier months of that year summed |
| Timestamp.UnixSecondsCounts | log-to-gor.go:101 | the epoch seconds are the days counted one year and one month at a time, plus the time of day |
| Timestamp.ToInt64 | log-to-gor.go:101 | the signed 64-bit wrap lands in range, is congruent modulo 2^64, and leaves values in range unchanged |
| Timestamp.UnixNanosExact | log-to-gor.go:101 | from 1678 to 2261 the nanoseconds are the exact product of the seconds and 10^9 |
| Timestamp.ExampleStamp | log-to-gor.go:99-101 | `01/Oct/2025:12:30:11` parses to 2025-10-01 12:30:11, which is 1759321811000000000 ns |
| RequestId.GenerateRequestId | log-to-gor.go:134-140 | one read of the entropy source; its identifier, or none when the read fails |
| RequestId.Entropy.Read | log-to-gor.go:136 | the `n`-th read returns `draw(n)` and advances the read count by one |
| RequestId.IdFrom | log-to-gor.go:134-140 | an identifier exists exactly when the read succeeded, is 24 characters long and decodes back to the bytes read |
| RequestId.IdOf | log-to-gor.go:135-139 | twelve bytes give 24 lowercase hexadecimal digits that decode back to them |
| RequestId.UnhexHex | log-to-gor.go:139 | decoding the hexadecimal encoding gives back the bytes |
| RequestId.HexUnhex | log-to-gor.go:139 | an even-length lowercase hexadecimal string is the encoding of what it decodes to |
| RequestId.HexInjective | log-to-gor.go:139 | different byte strings have different encodings |
| RequestId.Hex | log-to-gor.go:139 | the encoding has two lowercase hexadecimal digits per byte |
| Framing.Decimal | log-to-gor.go:113 | the `%d` numeral of an integer is non-empty and made of digits and a minus sign |
| Framing.DecimalIff | log-to-gor.go:113 | the `%d` numeral and its reader are inverse: each integer has exactly one numeral |
| Framing.DecimalParses | log-to-gor.go:113 | the numeral of every integer reads back as it |
| Framing.ParsedDecimal | log-to-gor.go:113 | whatever reads as an integer is that integer's numeral |
| Framing.DigitsOfValue | log-to-gor.go:113 | every canonical digit string is the numeral of its value |
| Framing.Digits | log-to-gor.go:113 | the digits of `n` are canonical and denote `n` |
| Framing.HeaderIff | log-to-gor.go:113 | a line reads as a header with an identifier and timestamp exactly when it is their header and the identifier has no space |
| Framing.RequestSegmentIff | log-to-gor.go:117 | a segment reads as a request line exactly when it is that request line's segment |
| Framing.Segments | log-to-gor.go:111-124 | a record is written as exactly three segments |
| Framing.Frames | log-to-gor.go:111-124 | the records are written as three segments each |
| Framing.FramesParse | log-to-gor.go:111-124 | the segments of records with readable identifiers read back as those records |
| Framing.ParsedFrames | log-to-gor.go:111-124 | whatever reads back as records is exactly their segments, and their identifiers are readable |
| Framing.FramesConcat | log-to-gor.go:111-125 | the segments of two runs of records are the segments of each, in order |
| Framing.FramesAt | log-to-gor.go:113-121 | segment `3i+k` of the output is segment `k` of record `i` |
| Framing.PartIndex | log-to-gor.go:114-123 | each part of a record has a position among its three segments, and that position names the part |

## Left out

- `main` is not modelled: argument checking, opening and creating files, and the exit status and messages.
- The Combined Log Format parser is a foreign library. Its verdict (no error, no field errors, at least one match) is the parameter `accepts`.
- `bufio.Scanner` is not modelled: its line splitting, its stripping of `\r`, and its 64 KiB token limit. The lines arrive as a sequence, and a read error arrives as `readFailed`.
- `crypto/rand` is not modelled. Its reads are the parameter `draw`.
- `fmt.Fprintf` partial writes are not modelled. A failed write appends nothing, and an error is a failure of the whole segment.
- The `io.Writer` is the `Sink` class. Whether a write fails is the parameter `fails`, indexed by the number of segments written so far.
- Error texts are modelled by the part that failed (`HeaderPart`, `RequestPart`, `DelimiterPart`) and `ReadFailed` alone. The wrapped errors and the messages written to the log are left out.
- Text is modelled as characters, not UTF-8 bytes. The delimiter is three characters, where the file gets 12 bytes.
- Timestamp.ParseStamp: defined only on groups of the pattern's shape. Only those reach `time.Parse` here, so Go's parsing errors for other inputs are not modelled.
- The regular expressions are modelled as scanners for their two fixed patterns, each proved equal to a declarative definition of its matches. Go's general regular-expression engine is left out.
- RequestLine.Text, Framing.Header and Framing.RequestSegment are functions without contracts of their own. Their partners are the readers `ParseHeader` and `ParseRequestSegment` and the lemmas `HeaderIff` and `RequestSegmentIff`.
- Framing.PayloadDelimiter (log-to-gor.go:19) and Framing.DelimiterSegment (the `"%s\n"` write at log-to-gor.go:121) are constants, so they have no contracts of their own. `Converter.LineConverted` states that the delimiter segment is the third segment a converted line appends, and `Framing.FramesParse` and `Framing.ParsedFrames` state that the reader `ParseFrames`, which requires it as the third segment of every record, reads back exactly the records written.
- Converter.RequestLineOf, RequestLine.MatchAt, RequestLine.Find, Timestamp.FindStamp, Timestamp.MonthOf, Timestamp.UnixSeconds, Timestamp.UnixNanos and Timestamp.TimestampOf are functions without contracts of their own. Their properties are the lemmas `RequestLineOfNone`, `RequestLineOfLeftmost` and `RequestLineOfSome` (log-to-gor.go:71-94), `MatchAtIff`, `FindIsLeftmost` and `FindNoneIff` (88-89), `FindStampIsLeftmost` and `FindStampNoneIff` (96-97), `MonthOfName` and `MonthNamesDistinct` (99), `UnixSecondsCounts`, `ToInt64` and `UnixNanosExact` (101), and `TimestampOfLeftmost` and `TimestampOfNoStamp` (96-103).
- The output file is modelled as the list of segments written, one per `Fprintf`, not as their concatenated text. The reader `ParseFrames` takes that list, so record boundaries are given to it. No parser of the concatenated file is modelled.
- `Converter.ConvertLine`, `Converter.WriteSegments` and `Converter.ExtractTimestamp` are pieces of the one Go function `processLogs`, factored out of its loop body. The loop is `Converter.ProcessLogs`.

/** The output format: each converted log line becomes one record of three
    segments, a header `1 <id> <timestamp> 0`, the request line followed by an
    empty header block, and the payload delimiter line. */
module Framing {
  import opened Wrappers
  import opened Scan

  /** The line that separates payloads in the output. */
  const PayloadDelimiter: string := "\U{1F435}\U{1F648}\U{1F649}"

  /** The three segments of a record, in the order they are written. */
  datatype Part = HeaderPart | RequestPart | DelimiterPart

  /** The part written as the `k`-th segment of a record. */
  function PartAt(k: nat): Part
    requires k < 3
  {
    if k == 0 then HeaderPart else if k == 1 then RequestPart else DelimiterPart
  }

  /** How many segments of a record precede the part. */
  function PartIndex(p: Part): (k: nat)
    ensures k < 3 && PartAt(k) == p
  {
    match p
    case HeaderPart => 0
    case RequestPart => 1
    case DelimiterPart => 2
  }

  // ---------------------------------------------------------------------------
  // Decimal numerals

  /** A numeral without superfluous leading zeros. */
  predicate Canonical(s: string) {
    s != [] && AllDigits(s) && (s[0] == '0' ==> |s| == 1)
  }

  /** `n` in decimal, most significant digit first, without leading zeros. */
  function Digits(n: nat): (s: string)
    ensures Canonical(s) && DecimalValue(s) == n
  {
    if n < 10 then [DigitChar(n)]
    else
      var init := Digits(n / 10);
      var s := init + [DigitChar(n % 10)];
      assert s[..|s| - 1] == init;
      s
  }

  lemma {:induction false} LeadingDigit(s: string)
    requires AllDigits(s) && s != [] && s[0] != '0'
    ensures DecimalValue(s) >= 1
  {
    if |s| > 1 {
      var init := s[..|s| - 1];
      assert init[0] == s[0];
      LeadingDigit(init);
    }
  }

  lemma DivMod10(v: nat, d: nat)
    requires d < 10
    ensures (10 * v + d) / 10 == v && (10 * v + d) % 10 == d
  {
  }

  /** The numeral of `10 * v + d` is that of `v` followed by the digit `d`. */
  lemma DigitsStep(v: nat, d: nat)
    requires 1 <= v && d < 10
    ensures Digits(10 * v + d) == Digits(v) + [DigitChar(d)]
  {
    DivMod10(v, d);
  }

  /** Every canonical numeral is the one `Digits` writes for its value. */
  lemma {:induction false} DigitsOfValue(s: string)
    requires Canonical(s)
    ensures Digits(DecimalValue(s)) == s
  {
    if |s| > 1 {
      var init := s[..|s| - 1];
      var last := s[|s| - 1];
      assert init[0] == s[0];
      LeadingDigit(init);
      DigitsOfValue(init);
      DigitCharOfValue(last);
      var v := DecimalValue(init);
      assert DecimalValue(s) == 10 * v + DigitValue(last);
      DigitsStep(v, DigitValue(last));
      assert s == init + [last];
    } else {
      DigitCharOfValue(s[0]);
    }
  }

  /** A signed integer as the `%d` verb writes it: a `-` before the digits of a
      negative number. */
  function Decimal(x: int): (s: string)
    ensures s != [] && forall k :: 0 <= k < |s| ==> s[k] == '-' || IsDigit(s[k])
  {
    if x < 0 then "-" + Digits(-x) else Digits(x)
  }

  /** The reading of a numeral `Decimal` could have written. */
  function ParseDecimal(s: string): Option<int> {
    if s != [] && s[0] == '-' then
      var magnitude: int := if Canonical(s[1..]) then DecimalValue(s[1..]) else 0;
      if Canonical(s[1..]) && s[1] != '0' then Some(-magnitude) else None
    else if Canonical(s) then Some(DecimalValue(s))
    else None
  }

  lemma DecimalParses(x: int)
    ensures ParseDecimal(Decimal(x)) == Some(x)
  {
    var s := Decimal(x);
    if x < 0 {
      assert s[1..] == Digits(-x);
      assert s[1] != '0';
    }
  }

  lemma ParsedDecimal(s: string, x: int)
    requires ParseDecimal(s) == Some(x)
    ensures Decimal(x) == s
  {
    if s[0] == '-' {
      var t := s[1..];
      LeadingDigit(t);
      DigitsOfValue(t);
      assert s == "-" + t;
    } else {
      DigitsOfValue(s);
    }
  }

  /** `Decimal` and `ParseDecimal` are inverse: each integer has exactly one
      numeral. */
  lemma DecimalIff(s: string, x: int)
    ensures ParseDecimal(s) == Some(x) <==> Decimal(x) == s
  {
    if ParseDecimal(s) == Some(x) {
      ParsedDecimal(s, x);
    }
    if Decimal(x) == s {
      DecimalParses(x);
    }
  }

  // ---------------------------------------------------------------------------
  // Segments and records

  /** The header line: request type 1, the identifier, the timestamp in
      nanoseconds and a latency of 0. */
  function Header(id: string, timestamp: int): string {
    "1 " + id + " " + Decimal(timestamp) + " 0\n"
  }

  /** The request line followed by the end of an empty header block and a newline. */
  function RequestSegment(requestLine: string): string {
    requestLine + "\r\n\r\n\n"
  }

  const DelimiterSegment: string := PayloadDelimiter + "\n"

  /** What the converter emits for one log line. */
  datatype Record = Record(id: string, timestamp: int, request: string)

  function Segments(r: Record): (segs: seq<string>)
    ensures |segs| == 3
  {
    [Header(r.id, r.timestamp), RequestSegment(r.request), DelimiterSegment]
  }

  /** The segments of a sequence of records, in order. */
  function Frames(rs: seq<Record>): (out: seq<string>)
    ensures |out| == 3 * |rs|
  {
    if rs == [] then [] else Segments(rs[0]) + Frames(rs[1..])
  }

  lemma FramesCons(r: Record, rest: seq<Record>)
    ensures Frames([r] + rest) == Segments(r) + Frames(rest)
  {
    assert ([r] + rest)[1..] == rest;
  }

  lemma {:induction false} FramesConcat(a: seq<Record>, b: seq<Record>)
    ensures Frames(a + b) == Frames(a) + Frames(b)
  {
    if a != [] {
      var r, rest := a[0], a[1..];
      assert a == [r] + rest;
      assert a + b == [r] + (rest + b);
      FramesCons(r, rest + b);
      FramesCons(r, rest);
      FramesConcat(rest, b);
      AppendAssoc(Segments(r), Frames(rest), Frames(b));
    } else {
      assert a + b == b;
    }
  }

  lemma AppendAssoc(x: seq<string>, y: seq<string>, z: seq<string>)
    ensures x + (y + z) == (x + y) + z
  {
  }

  /** The pieces `f` makes of each item, one item after another. */
  function Chunks<R>(rs: seq<R>, f: R -> seq<string>): seq<string> {
    if rs == [] then [] else f(rs[0]) + Chunks(rs[1..], f)
  }

  lemma {:induction false} ChunksLength<R>(rs: seq<R>, f: R -> seq<string>)
    requires forall r :: |f(r)| == 3
    ensures |Chunks(rs, f)| == 3 * |rs|
  {
    if rs != [] {
      ChunksLength(rs[1..], f);
    }
  }

  lemma {:induction false} ChunksAt<R>(rs: seq<R>, f: R -> seq<string>, i: nat, k: nat)
    requires forall r :: |f(r)| == 3
    requires i < |rs| && k < 3
    ensures |Chunks(rs, f)| == 3 * |rs| && Chunks(rs, f)[3 * i + k] == f(rs[i])[k]
  {
    ChunksLength(rs, f);
    ChunksLength(rs[1..], f);
    if i > 0 {
      ChunksAt(rs[1..], f, i - 1, k);
      assert rs[1..][i - 1] == rs[i];
    }
  }

  lemma {:induction false} FramesAreChunks(rs: seq<Record>)
    ensures Frames(rs) == Chunks(rs, Segments)
  {
    if rs != [] {
      FramesAreChunks(rs[1..]);
    }
  }

  /** The `k`-th segment of the `i`-th record. */
  lemma FramesAt(rs: seq<Record>, i: nat, k: nat)
    requires i < |rs| && k < 3
    ensures Frames(rs)[3 * i + k] == Segments(rs[i])[k]
  {
    FramesAreChunks(rs);
    ChunksAt(rs, Segments, i, k);
  }

  // ---------------------------------------------------------------------------
  // Reading the output back

  /** The identifier and timestamp of a header line, if it is one. */
  function ParseHeader(h: string): Option<(string, int)> {
    if |h| >= 2 && h[0] == '1' && h[1] == ' ' then
      var e := SpanTo(h, 2, ' ');
      if e < |h| then
        var f := SpanTo(h, e + 1, ' ');
        if f + 3 == |h| && h[f + 1] == '0' && h[f + 2] == '\n' then
          match ParseDecimal(h[e + 1..f])
          case None => None
          case Some(ts) => Some((h[2..e], ts))
        else None
      else None
    else None
  }

  lemma HeaderLayout(id: string, ts: int)
    ensures
      var h := Header(id, ts);
      var d := Decimal(ts);
      && |h| == |id| + |d| + 6
      && h[0] == '1' && h[1] == ' '
      && (forall t :: 0 <= t < |id| ==> h[2 + t] == id[t])
      && h[2 + |id|] == ' '
      && (forall t :: 0 <= t < |d| ==> h[3 + |id| + t] == d[t])
      && h[3 + |id| + |d|] == ' ' && h[4 + |id| + |d|] == '0' && h[5 + |id| + |d|] == '\n'
  {
  }

  lemma HeaderParses(id: string, ts: int)
    requires ' ' !in id
    ensures ParseHeader(Header(id, ts)) == Some((id, ts))
  {
    var h := Header(id, ts);
    var d := Decimal(ts);
    HeaderLayout(id, ts);
    var e := 2 + |id|;
    var f := 3 + |id| + |d|;
    forall t | 2 <= t < e ensures h[t] != ' ' {
      assert h[2 + (t - 2)] == id[t - 2];
    }
    SpanToUnique(h, 2, ' ', e);
    forall t | e + 1 <= t < f ensures h[t] != ' ' {
      assert h[3 + |id| + (t - e - 1)] == d[t - e - 1];
    }
    SpanToUnique(h, e + 1, ' ', f);
    assert h[2..e] == id;
    assert h[e + 1..f] == d;
    DecimalParses(ts);
  }

  lemma ParsedHeader(h: string, id: string, ts: int)
    requires ParseHeader(h) == Some((id, ts))
    ensures ' ' !in id && Header(id, ts) == h
  {
    var e := SpanTo(h, 2, ' ');
    var f := SpanTo(h, e + 1, ' ');
    assert id == h[2..e] && ParseDecimal(h[e + 1..f]) == Some(ts);
    AvoidsChar(h, 2, e, ' ');
    ParsedDecimal(h[e + 1..f], ts);
    HeaderPieces(h, e, f);
  }

  /** A line laid out as a header is the header of its two fields. */
  lemma HeaderPieces(h: string, e: nat, f: nat)
    requires 2 <= e < f && f + 3 == |h|
    requires h[0] == '1' && h[1] == ' ' && h[e] == ' ' && h[f] == ' '
    requires h[f + 1] == '0' && h[f + 2] == '\n'
    ensures h == "1 " + h[2..e] + " " + h[e + 1..f] + " 0\n"
  {
    assert h[..2] == "1 " && h[e..e + 1] == " " && h[f..] == " 0\n";
    assert h == h[..2] + h[2..e] + h[e..e + 1] + h[e + 1..f] + h[f..];
  }

  /** A header line is read back as exactly the identifier and timestamp it was
      written from, for identifiers without spaces. */
  lemma HeaderIff(h: string, id: string, ts: int)
    ensures ParseHeader(h) == Some((id, ts)) <==> ' ' !in id && Header(id, ts) == h
  {
    if ParseHeader(h) == Some((id, ts)) {
      ParsedHeader(h, id, ts);
    }
    if ' ' !in id && Header(id, ts) == h {
      HeaderParses(id, ts);
    }
  }

  /** The request line of a request segment. */
  function ParseRequestSegment(s: string): Option<string> {
    if |s| >= 5 && s[|s| - 5..] == "\r\n\r\n\n" then Some(s[..|s| - 5]) else None
  }

  lemma RequestSegmentIff(s: string, requestLine: string)
    ensures ParseRequestSegment(s) == Some(requestLine) <==> RequestSegment(requestLine) == s
  {
    if RequestSegment(requestLine) == s {
      assert s[|s| - 5..] == "\r\n\r\n\n";
      assert s[..|s| - 5] == requestLine;
    }
    if ParseRequestSegment(s) == Some(requestLine) {
      assert s == s[..|s| - 5] + s[|s| - 5..];
    }
  }

  /** The records of an output written segment by segment, or `None` when it is not
      a sequence of whole records. */
  function ParseFrames(out: seq<string>): Option<seq<Record>>
    decreases |out|
  {
    if out == [] then Some([])
    else if |out| < 3 || out[2] != DelimiterSegment then None
    else
      match (ParseHeader(out[0]), ParseRequestSegment(out[1]), ParseFrames(out[3..]))
      case (Some((id, ts)), Some(rl), Some(rest)) => Some([Record(id, ts, rl)] + rest)
      case _ => None
  }

  /** Identifiers that can be read back from a header. */
  predicate Readable(rs: seq<Record>) {
    forall i :: 0 <= i < |rs| ==> ' ' !in rs[i].id
  }

  lemma ParseFramesStep(out: seq<string>, r: Record, rest: seq<Record>)
    requires |out| >= 3 && out[2] == DelimiterSegment
    requires ParseHeader(out[0]) == Some((r.id, r.timestamp))
    requires ParseRequestSegment(out[1]) == Some(r.request)
    requires ParseFrames(out[3..]) == Some(rest)
    ensures ParseFrames(out) == Some([r] + rest)
  {
  }

  lemma FirstThree<T>(s: seq<T>)
    requires |s| >= 3
    ensures s == [s[0], s[1], s[2]] + s[3..]
  {
  }

  /** The output of records with readable identifiers reads back as those records. */
  lemma {:induction false} FramesParse(rs: seq<Record>)
    requires Readable(rs)
    ensures ParseFrames(Frames(rs)) == Some(rs)
  {
    if rs != [] {
      var r := rs[0];
      var rest := rs[1..];
      assert rs == [r] + rest;
      FramesCons(r, rest);
      var out := Frames(rs);
      FirstThree(out);
      assert out[0] == Header(r.id, r.timestamp) && out[1] == RequestSegment(r.request);
      assert out[2] == DelimiterSegment && out[3..] == Frames(rest);
      forall i | 0 <= i < |rest| ensures ' ' !in rest[i].id {
        assert rest[i] == rs[i + 1];
      }
      HeaderParses(r.id, r.timestamp);
      RequestSegmentIff(out[1], r.request);
      FramesParse(rest);
      ParseFramesStep(out, r, rest);
    }
  }

  /** Whatever reads back as records is the output of those records. */
  lemma {:induction false} ParsedFrames(out: seq<string>, rs: seq<Record>)
    requires ParseFrames(out) == Some(rs)
    ensures Readable(rs) && Frames(rs) == out
    decreases |out|
  {
    if out != [] {
      var (id, ts) := ParseHeader(out[0]).value;
      var rl := ParseRequestSegment(out[1]).value;
      var rest := ParseFrames(out[3..]).value;
      var r := Record(id, ts, rl);
      assert rs == [r] + rest;
      ParsedHeader(out[0], id, ts);
      RequestSegmentIff(out[1], rl);
      ParsedFrames(out[3..], rest);
      forall i | 0 <= i < |rs| ensures ' ' !in rs[i].id {
        if i > 0 {
          assert rs[i] == rest[i - 1];
        }
      }
      FramesCons(r, rest);
      assert out[0] == Header(id, ts) && out[1] == RequestSegment(rl) && out[2] == DelimiterSegment;
      FirstThree(out);
    }
  }
}

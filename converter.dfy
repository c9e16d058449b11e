/** The conversion loop: every non-empty log line the parser accepts and that holds
    a request line becomes one three-segment record in the output, numbered by a
    count of converted lines; a failed write stops the conversion, a failed read of
    the input ends it. */
module Converter {
  import opened Wrappers
  import opened RequestLine
  import opened Timestamp
  import opened RequestId
  import opened Framing
  import Scan

  // ---------------------------------------------------------------------------
  // The specification of one run

  /** The request line a log line contributes, or `None` when the line is empty,
      rejected by the log parser, or holds no quoted request. */
  function RequestLineOf(line: string, accepts: string -> bool): Option<string> {
    if line == "" || !accepts(line) then None
    else
      match Find(line)
      case None => None
      case Some((_, r)) => Some(Text(r))
  }

  /** What a run depends on besides its lines: the request line and the timestamp
      extracted from a line, the `n`-th read of the entropy source and whether the
      `n`-th write of a segment fails. */
  datatype Env = Env(
    requestOf: string -> Option<string>,
    timestampOf: string -> int,
    draw: nat -> Option<IdBytes>,
    fails: nat -> bool)

  /** The converter's own extraction of request lines and timestamps, with the log
      parser's verdict `accepts`. */
  function ConverterEnv(accepts: string -> bool, draw: nat -> Option<IdBytes>, fails: nat -> bool): Env {
    Env(line => RequestLineOf(line, accepts), TimestampOf, draw, fails)
  }

  /** The converted-line count, the segments written so far and the number of reads
      of the entropy source. */
  datatype State = State(count: nat, out: seq<string>, calls: nat)

  datatype Failure = WriteFailed(part: Part) | ReadFailed

  datatype Outcome = Outcome(state: State, err: Option<Failure>)

  /** How many segments of an unfinished record a failure leaves behind. */
  function Partial(err: Option<Failure>): nat {
    match err
    case Some(WriteFailed(p)) => PartIndex(p)
    case _ => 0
  }

  /** Writes the three segments of a record one after another, stopping at the
      first that fails. */
  function WriteRecord(segs: seq<string>, fails: nat -> bool, st: State): (o: Outcome)
    requires |segs| == 3
    ensures o.state.calls == st.calls && o.err != Some(ReadFailed)
    ensures o.err.None? ==> o.state == State(st.count + 1, st.out + segs, st.calls)
    ensures o.err.Some? ==>
      o.state == st.(out := st.out + segs[..Partial(o.err)]) && fails(|st.out| + Partial(o.err))
    ensures forall m :: |st.out| <= m < |st.out| + Partial(o.err) ==> !fails(m)
    ensures o.err.None? <==> !fails(|st.out|) && !fails(|st.out| + 1) && !fails(|st.out| + 2)
  {
    var n := |st.out|;
    if fails(n) then Outcome(st, Some(WriteFailed(HeaderPart)))
    else if fails(n + 1) then Outcome(st.(out := st.out + segs[..1]), Some(WriteFailed(RequestPart)))
    else if fails(n + 2) then Outcome(st.(out := st.out + segs[..2]), Some(WriteFailed(DelimiterPart)))
    else Outcome(State(st.count + 1, st.out + segs, st.calls), None)
  }

  lemma WriteRecordFailsAt(segs: seq<string>, fails: nat -> bool, st: State, d: nat)
    requires |segs| == 3 && d < 3 && fails(|st.out| + d)
    requires forall m :: |st.out| <= m < |st.out| + d ==> !fails(m)
    ensures WriteRecord(segs, fails, st) == Outcome(st.(out := st.out + segs[..d]), Some(WriteFailed(PartAt(d))))
  {
    assert d > 0 ==> !fails(|st.out|);
    assert d > 1 ==> !fails(|st.out| + 1);
  }

  lemma WriteRecordSucceeds(segs: seq<string>, fails: nat -> bool, st: State)
    requires |segs| == 3
    requires !fails(|st.out|) && !fails(|st.out| + 1) && !fails(|st.out| + 2)
    ensures WriteRecord(segs, fails, st) == Outcome(State(st.count + 1, st.out + segs, st.calls), None)
  {
  }

  /** What one line of input does to the state. */
  function Step(line: string, env: Env, st: State): (o: Outcome)
    ensures st.out <= o.state.out && o.err != Some(ReadFailed)
    ensures |o.state.out| == |st.out| + 3 * (o.state.count - st.count) + Partial(o.err)
    ensures o.state.count <= st.count + 1
  {
    match env.requestOf(line)
    case None => Outcome(st, None)
    case Some(rl) =>
      var st' := st.(calls := st.calls + 1);
      match IdFrom(env.draw(st.calls))
      case None => Outcome(st', None)
      case Some(id) => WriteRecord(Segments(Record(id, env.timestampOf(line), rl)), env.fails, st')
  }

  /** The lines in order until one of them fails to be written; a read failure after
      the last line is reported when nothing failed before it. Every segment written
      before the end stays written, and the output holds three segments for every
      counted line plus those of at most one unfinished record. */
  function Run(lines: seq<string>, readFailed: bool, env: Env, st: State): (o: Outcome)
    ensures st.out <= o.state.out && st.count <= o.state.count
    ensures |o.state.out| == |st.out| + 3 * (o.state.count - st.count) + Partial(o.err)
    decreases |lines|, 1
  {
    if lines == [] then Outcome(st, if readFailed then Some(ReadFailed) else None)
    else RunNext(lines, readFailed, env, st)
  }

  /** A run of lines that has a first line: that line's step, then the rest unless
      the step failed. */
  function RunNext(lines: seq<string>, readFailed: bool, env: Env, st: State): (o: Outcome)
    requires lines != []
    ensures st.out <= o.state.out && st.count <= o.state.count
    ensures |o.state.out| == |st.out| + 3 * (o.state.count - st.count) + Partial(o.err)
    decreases |lines|, 0
  {
    var o := Step(lines[0], env, st);
    if o.err.Some? then o else Run(lines[1..], readFailed, env, o.state)
  }

  // ---------------------------------------------------------------------------
  // The reference: the records of a run in which no write fails

  /** The records the lines convert to, the entropy source being read from read
      `calls` on: one for every line with a request line whose read succeeds. */
  function Records(lines: seq<string>, env: Env, calls: nat): seq<Record>
    decreases |lines|
  {
    if lines == [] then []
    else
      match env.requestOf(lines[0])
      case None => Records(lines[1..], env, calls)
      case Some(rl) =>
        var rest := Records(lines[1..], env, calls + 1);
        match env.draw(calls)
        case None => rest
        case Some(bytes) => [Record(IdOf(bytes), env.timestampOf(lines[0]), rl)] + rest
  }

  /** The number of reads of the entropy source: one for every line with a request. */
  function Draws(lines: seq<string>, env: Env): nat
    decreases |lines|
  {
    if lines == [] then 0
    else (if env.requestOf(lines[0]).Some? then 1 else 0) + Draws(lines[1..], env)
  }

  /** No write fails at the positions of the segments of `rs`. */
  predicate WritesSucceed(fails: nat -> bool, from: nat, rs: seq<Record>) {
    forall n :: from <= n < from + 3 * |rs| ==> !fails(n)
  }

  lemma RunUnfold(lines: seq<string>, readFailed: bool, env: Env, st: State)
    requires lines != []
    ensures
      var o := Step(lines[0], env, st);
      Run(lines, readFailed, env, st) == if o.err.Some? then o else Run(lines[1..], readFailed, env, o.state)
  {
  }

  lemma RunFrom(lines: seq<string>, i: nat, readFailed: bool, env: Env, st: State)
    requires i < |lines|
    ensures
      var o := Step(lines[i], env, st);
      Run(lines[i..], readFailed, env, st) == if o.err.Some? then o else Run(lines[i + 1..], readFailed, env, o.state)
  {
    assert lines[i..][0] == lines[i] && lines[i..][1..] == lines[i + 1..];
  }

  lemma StepSkips(line: string, env: Env, st: State)
    requires env.requestOf(line).None?
    ensures Step(line, env, st) == Outcome(st, None)
  {
  }

  lemma StepWrites(line: string, env: Env, st: State, rl: string, bytes: IdBytes)
    requires env.requestOf(line) == Some(rl) && env.draw(st.calls) == Some(bytes)
    ensures Step(line, env, st) ==
      WriteRecord(Segments(Record(IdOf(bytes), env.timestampOf(line), rl)), env.fails, st.(calls := st.calls + 1))
  {
  }

  lemma RecordsSkip(lines: seq<string>, env: Env, calls: nat)
    requires lines != [] && env.requestOf(lines[0]).None?
    ensures Records(lines, env, calls) == Records(lines[1..], env, calls)
    ensures Draws(lines, env) == Draws(lines[1..], env)
  {
  }

  lemma RecordsNoId(lines: seq<string>, env: Env, calls: nat)
    requires lines != [] && env.requestOf(lines[0]).Some? && env.draw(calls).None?
    ensures Records(lines, env, calls) == Records(lines[1..], env, calls + 1)
    ensures Draws(lines, env) == 1 + Draws(lines[1..], env)
  {
  }

  lemma RecordsConvert(lines: seq<string>, env: Env, calls: nat, rl: string, bytes: IdBytes)
    requires lines != [] && env.requestOf(lines[0]) == Some(rl) && env.draw(calls) == Some(bytes)
    ensures Records(lines, env, calls) ==
      [Record(IdOf(bytes), env.timestampOf(lines[0]), rl)] + Records(lines[1..], env, calls + 1)
    ensures Draws(lines, env) == 1 + Draws(lines[1..], env)
  {
  }

  lemma PrefixOfAppend(a: seq<string>, b: seq<string>, d: nat)
    requires d <= |a|
    ensures (a + b)[..d] == a[..d]
  {
  }

  lemma PrefixPastAppend(a: seq<string>, b: seq<string>, d: nat)
    requires |a| <= d <= |a| + |b|
    ensures (a + b)[..d] == a + b[..d - |a|]
  {
  }

  /** Without a failed write every record is written in full and counted, the log
      lines that contribute none leave no trace, and a failed read is reported at
      the end. */
  lemma {:induction false} RunWithoutWriteFailure(lines: seq<string>, readFailed: bool, env: Env, st: State)
    requires WritesSucceed(env.fails, |st.out|, Records(lines, env, st.calls))
    ensures
      var rs := Records(lines, env, st.calls);
      Run(lines, readFailed, env, st) ==
        Outcome(State(st.count + |rs|, st.out + Frames(rs), st.calls + Draws(lines, env)),
                if readFailed then Some(ReadFailed) else None)
    decreases |lines|
  {
    if lines != [] {
      RunUnfold(lines, readFailed, env, st);
      match env.requestOf(lines[0])
      case None =>
        SkippedThenRest(lines, readFailed, env, st);
      case Some(rl) =>
        match env.draw(st.calls)
        case None =>
          NoIdThenRest(lines, readFailed, env, st);
        case Some(bytes) =>
          ConvertedThenRest(lines, readFailed, env, st, rl, bytes);
    }
  }

  /** The case of `RunWithoutWriteFailure` in which the first line has no request. */
  lemma {:induction false} SkippedThenRest(lines: seq<string>, readFailed: bool, env: Env, st: State)
    requires lines != [] && env.requestOf(lines[0]).None?
    requires WritesSucceed(env.fails, |st.out|, Records(lines, env, st.calls))
    ensures
      var rs := Records(lines, env, st.calls);
      Run(lines, readFailed, env, st) ==
        Outcome(State(st.count + |rs|, st.out + Frames(rs), st.calls + Draws(lines, env)),
                if readFailed then Some(ReadFailed) else None)
    decreases |lines|, 0
  {
    RunUnfold(lines, readFailed, env, st);
    StepSkips(lines[0], env, st);
    RecordsSkip(lines, env, st.calls);
    RunWithoutWriteFailure(lines[1..], readFailed, env, st);
  }

  /** The case of `RunWithoutWriteFailure` in which the first line gets no identifier. */
  lemma {:induction false} NoIdThenRest(lines: seq<string>, readFailed: bool, env: Env, st: State)
    requires lines != [] && env.requestOf(lines[0]).Some? && env.draw(st.calls).None?
    requires WritesSucceed(env.fails, |st.out|, Records(lines, env, st.calls))
    ensures
      var rs := Records(lines, env, st.calls);
      Run(lines, readFailed, env, st) ==
        Outcome(State(st.count + |rs|, st.out + Frames(rs), st.calls + Draws(lines, env)),
                if readFailed then Some(ReadFailed) else None)
    decreases |lines|, 0
  {
    RunUnfold(lines, readFailed, env, st);
    IdFailureSkips(lines[0], env, st);
    RecordsNoId(lines, env, st.calls);
    RunWithoutWriteFailure(lines[1..], readFailed, env, st.(calls := st.calls + 1));
  }

  /** The case of `RunWithoutWriteFailure` in which the first line is converted. */
  lemma {:induction false} ConvertedThenRest(lines: seq<string>, readFailed: bool, env: Env, st: State,
                                            rl: string, bytes: IdBytes)
    requires lines != [] && env.requestOf(lines[0]) == Some(rl) && env.draw(st.calls) == Some(bytes)
    requires WritesSucceed(env.fails, |st.out|, Records(lines, env, st.calls))
    ensures
      var rs := Records(lines, env, st.calls);
      Run(lines, readFailed, env, st) ==
        Outcome(State(st.count + |rs|, st.out + Frames(rs), st.calls + Draws(lines, env)),
                if readFailed then Some(ReadFailed) else None)
    decreases |lines|, 0
  {
    var r := Record(IdOf(bytes), env.timestampOf(lines[0]), rl);
    var rest := Records(lines[1..], env, st.calls + 1);
    RunUnfold(lines, readFailed, env, st);
    StepWrites(lines[0], env, st, rl, bytes);
    RecordsConvert(lines, env, st.calls, rl, bytes);
    FramesCons(r, rest);
    var n := |st.out|;
    assert !env.fails(n) && !env.fails(n + 1) && !env.fails(n + 2);
    var segs := Segments(r);
    WriteRecordSucceeds(segs, env.fails, st.(calls := st.calls + 1));
    var st' := State(st.count + 1, st.out + segs, st.calls + 1);
    assert WritesSucceed(env.fails, |st'.out|, rest);
    assert Step(lines[0], env, st) == Outcome(st', None);
    assert Run(lines, readFailed, env, st) == Run(lines[1..], readFailed, env, st');
    RunWithoutWriteFailure(lines[1..], readFailed, env, st');
    var rs := Records(lines, env, st.calls);
    assert rs == [r] + rest;
    assert Frames(rs) == segs + Frames(rest);
    AppendAssoc(st.out, segs, Frames(rest));
  }

  /** A run whose first failing write is the `n`-th, inside the segments of the
      records: the records before it are counted, every segment before it is
      written, and the error names the part of the record that failed. */
  lemma {:induction false} RunWithWriteFailure(lines: seq<string>, readFailed: bool, env: Env, st: State, n: nat)
    requires var rs := Records(lines, env, st.calls);
      |st.out| <= n < |st.out| + 3 * |rs| && env.fails(n)
    requires forall m :: |st.out| <= m < n ==> !env.fails(m)
    ensures
      var rs := Records(lines, env, st.calls);
      var d := n - |st.out|;
      var o := Run(lines, readFailed, env, st);
      && o.state.count == st.count + d / 3
      && o.state.out == st.out + Frames(rs)[..d]
      && o.err == Some(WriteFailed(PartAt(d % 3)))
    decreases |lines|
  {
    match env.requestOf(lines[0])
    case None =>
      SkippedThenFails(lines, readFailed, env, st, n);
    case Some(rl) =>
      match env.draw(st.calls)
      case None =>
        NoIdThenFails(lines, readFailed, env, st, n);
      case Some(bytes) =>
        if n - |st.out| < 3 {
          FailsInFirstRecord(lines, readFailed, env, st, n, rl, bytes);
        } else {
          FailsAfterFirstRecord(lines, readFailed, env, st, n, rl, bytes);
        }
  }

  /** The case of `RunWithWriteFailure` in which the first line has no request. */
  lemma {:induction false} SkippedThenFails(lines: seq<string>, readFailed: bool, env: Env, st: State, n: nat)
    requires lines != [] && env.requestOf(lines[0]).None?
    requires var rs := Records(lines, env, st.calls);
      |st.out| <= n < |st.out| + 3 * |rs| && env.fails(n)
    requires forall m :: |st.out| <= m < n ==> !env.fails(m)
    ensures
      var rs := Records(lines, env, st.calls);
      var d := n - |st.out|;
      var o := Run(lines, readFailed, env, st);
      && o.state.count == st.count + d / 3
      && o.state.out == st.out + Frames(rs)[..d]
      && o.err == Some(WriteFailed(PartAt(d % 3)))
    decreases |lines|, 0
  {
    RunUnfold(lines, readFailed, env, st);
    StepSkips(lines[0], env, st);
    RecordsSkip(lines, env, st.calls);
    RunWithWriteFailure(lines[1..], readFailed, env, st, n);
  }

  /** The case of `RunWithWriteFailure` in which the first line gets no identifier. */
  lemma {:induction false} NoIdThenFails(lines: seq<string>, readFailed: bool, env: Env, st: State, n: nat)
    requires lines != [] && env.requestOf(lines[0]).Some? && env.draw(st.calls).None?
    requires var rs := Records(lines, env, st.calls);
      |st.out| <= n < |st.out| + 3 * |rs| && env.fails(n)
    requires forall m :: |st.out| <= m < n ==> !env.fails(m)
    ensures
      var rs := Records(lines, env, st.calls);
      var d := n - |st.out|;
      var o := Run(lines, readFailed, env, st);
      && o.state.count == st.count + d / 3
      && o.state.out == st.out + Frames(rs)[..d]
      && o.err == Some(WriteFailed(PartAt(d % 3)))
    decreases |lines|, 0
  {
    RunUnfold(lines, readFailed, env, st);
    IdFailureSkips(lines[0], env, st);
    RecordsNoId(lines, env, st.calls);
    RunWithWriteFailure(lines[1..], readFailed, env, st.(calls := st.calls + 1), n);
  }

  /** The case of `RunWithWriteFailure` in which a segment of the first line fails. */
  lemma FailsInFirstRecord(lines: seq<string>, readFailed: bool, env: Env, st: State, n: nat,
                           rl: string, bytes: IdBytes)
    requires lines != [] && env.requestOf(lines[0]) == Some(rl) && env.draw(st.calls) == Some(bytes)
    requires |st.out| <= n < |st.out| + 3 && env.fails(n)
    requires forall m :: |st.out| <= m < n ==> !env.fails(m)
    ensures
      var rs := Records(lines, env, st.calls);
      var d := n - |st.out|;
      var o := Run(lines, readFailed, env, st);
      && o.state.count == st.count + d / 3
      && o.state.out == st.out + Frames(rs)[..d]
      && o.err == Some(WriteFailed(PartAt(d % 3)))
  {
    var r := Record(IdOf(bytes), env.timestampOf(lines[0]), rl);
    var rest := Records(lines[1..], env, st.calls + 1);
    var d := n - |st.out|;
    FirstRecordFails(lines, readFailed, env, st, rl, bytes, d);
    RecordsConvert(lines, env, st.calls, rl, bytes);
    FramesCons(r, rest);
    PrefixOfAppend(Segments(r), Frames(rest), d);
  }

  /** A failed write of the first line's record ends the run with the segments
      before it written. */
  lemma FirstRecordFails(lines: seq<string>, readFailed: bool, env: Env, st: State,
                         rl: string, bytes: IdBytes, d: nat)
    requires lines != [] && env.requestOf(lines[0]) == Some(rl) && env.draw(st.calls) == Some(bytes)
    requires d < 3 && env.fails(|st.out| + d)
    requires forall m :: |st.out| <= m < |st.out| + d ==> !env.fails(m)
    ensures
      var segs := Segments(Record(IdOf(bytes), env.timestampOf(lines[0]), rl));
      Run(lines, readFailed, env, st) ==
        Outcome(State(st.count, st.out + segs[..d], st.calls + 1), Some(WriteFailed(PartAt(d))))
  {
    RunUnfold(lines, readFailed, env, st);
    StepWrites(lines[0], env, st, rl, bytes);
    WriteRecordFailsAt(Segments(Record(IdOf(bytes), env.timestampOf(lines[0]), rl)), env.fails,
                       st.(calls := st.calls + 1), d);
  }

  /** The case of `RunWithWriteFailure` in which the first line is written in full. */
  lemma {:induction false} FailsAfterFirstRecord(lines: seq<string>, readFailed: bool, env: Env, st: State, n: nat,
                                                rl: string, bytes: IdBytes)
    requires lines != [] && env.requestOf(lines[0]) == Some(rl) && env.draw(st.calls) == Some(bytes)
    requires var rs := Records(lines, env, st.calls);
      |st.out| + 3 <= n < |st.out| + 3 * |rs| && env.fails(n)
    requires forall m :: |st.out| <= m < n ==> !env.fails(m)
    ensures
      var rs := Records(lines, env, st.calls);
      var d := n - |st.out|;
      var o := Run(lines, readFailed, env, st);
      && o.state.count == st.count + d / 3
      && o.state.out == st.out + Frames(rs)[..d]
      && o.err == Some(WriteFailed(PartAt(d % 3)))
    decreases |lines|, 0
  {
    var r := Record(IdOf(bytes), env.timestampOf(lines[0]), rl);
    var rest := Records(lines[1..], env, st.calls + 1);
    var rs := Records(lines, env, st.calls);
    var d := n - |st.out|;
    RunUnfold(lines, readFailed, env, st);
    StepWrites(lines[0], env, st, rl, bytes);
    RecordsConvert(lines, env, st.calls, rl, bytes);
    FramesCons(r, rest);
    var k := |st.out|;
    assert !env.fails(k) && !env.fails(k + 1) && !env.fails(k + 2);
    var segs := Segments(r);
    WriteRecordSucceeds(segs, env.fails, st.(calls := st.calls + 1));
    var st' := State(st.count + 1, st.out + segs, st.calls + 1);
    assert Step(lines[0], env, st) == Outcome(st', None);
    assert Run(lines, readFailed, env, st) == Run(lines[1..], readFailed, env, st');
    RunWithWriteFailure(lines[1..], readFailed, env, st', n);
    assert rs == [r] + rest;
    assert Frames(rs) == segs + Frames(rest);
    PrefixPastAppend(segs, Frames(rest), d);
    AppendAssoc(st.out, segs, Frames(rest)[..d - 3]);
    assert d / 3 == 1 + (d - 3) / 3 && d % 3 == (d - 3) % 3;
  }

  // ---------------------------------------------------------------------------
  // Single lines

  /** A line contributes a request line exactly when it is non-empty, the parser
      accepts it and the request pattern matches in it. */
  lemma RequestLineOfNone(line: string, accepts: string -> bool)
    ensures RequestLineOf(line, accepts).None? <==>
              line == "" || !accepts(line) || forall j: nat, r: Request :: !RequestLine.Matches(line, j, r)
  {
    FindNoneIff(line);
  }

  /** The request line contributed is that of the leftmost match. */
  lemma RequestLineOfLeftmost(line: string, accepts: string -> bool, k: nat, r: Request)
    requires line != "" && accepts(line)
    requires RequestLine.Matches(line, k, r) && forall j: nat, r': Request :: j < k ==> !RequestLine.Matches(line, j, r')
    ensures RequestLineOf(line, accepts) == Some(r.verb + " " + r.path + " " + r.protocol)
  {
    FindIsLeftmost(line, k, r);
  }

  /** A request line, when there is one, is the text of the leftmost match: a verb
      of the seven, a path without spaces and a non-empty protocol without quotes. */
  lemma RequestLineOfSome(line: string, accepts: string -> bool)
    requires RequestLineOf(line, accepts).Some?
    ensures line != "" && accepts(line) && Find(line).Some?
    ensures
      var (k, r) := Find(line).value;
      && RequestLine.Matches(line, k, r) && RequestLineOf(line, accepts).value == Text(r)
      && IsMethod(r.verb) && r.path != [] && ' ' !in r.path && r.protocol != [] && '"' !in r.protocol
      && forall j: nat, r': Request :: j < k ==> !RequestLine.Matches(line, j, r')
  {
    var (k, r) := Find(line).value;
    FindIsLeftmost(line, k, r);
  }

  /** A line without a request line changes nothing: no output, no count and no
      read of the entropy source. */
  lemma LineSkipped(line: string, accepts: string -> bool, draw: nat -> Option<IdBytes>, fails: nat -> bool, st: State)
    requires line == "" || !accepts(line) || forall j: nat, r: Request :: !RequestLine.Matches(line, j, r)
    ensures Step(line, ConverterEnv(accepts, draw, fails), st) == Outcome(st, None)
  {
    RequestLineOfNone(line, accepts);
  }

  /** A failed read of the entropy source skips the line without output. */
  lemma IdFailureSkips(line: string, env: Env, st: State)
    requires env.requestOf(line).Some? && env.draw(st.calls).None?
    ensures Step(line, env, st) == Outcome(st.(calls := st.calls + 1), None)
  {
  }

  /** A line with a request line and an identifier is converted whatever its
      timestamp: the three segments of its record are appended, the header carries the
      identifier and the line's timestamp (0 when it has none), and the count rises
      by one. */
  lemma LineConverted(line: string, accepts: string -> bool, draw: nat -> Option<IdBytes>, fails: nat -> bool,
                      st: State, bytes: IdBytes)
    requires RequestLineOf(line, accepts).Some? && draw(st.calls) == Some(bytes)
    requires !fails(|st.out|) && !fails(|st.out| + 1) && !fails(|st.out| + 2)
    ensures
      var o := Step(line, ConverterEnv(accepts, draw, fails), st);
      var rl := RequestLineOf(line, accepts).value;
      && o.err.None? && o.state.count == st.count + 1 && o.state.calls == st.calls + 1
      && o.state.out == st.out + [Header(IdOf(bytes), TimestampOf(line)), rl + "\r\n\r\n\n", PayloadDelimiter + "\n"]
      && ParseHeader(o.state.out[|st.out|]) == Some((IdOf(bytes), TimestampOf(line)))
  {
    var env := ConverterEnv(accepts, draw, fails);
    var rl := RequestLineOf(line, accepts).value;
    var segs := Segments(Record(IdOf(bytes), TimestampOf(line), rl));
    StepWrites(line, env, st, rl, bytes);
    WriteRecordSucceeds(segs, fails, st.(calls := st.calls + 1));
    HeaderParses(IdOf(bytes), TimestampOf(line));
  }

  /** A run of one convertible line writes that line's record and nothing else. */
  lemma LineAlone(line: string, accepts: string -> bool, draw: nat -> Option<IdBytes>, fails: nat -> bool,
                  st: State, bytes: IdBytes)
    requires RequestLineOf(line, accepts).Some? && draw(st.calls) == Some(bytes)
    requires !fails(|st.out|) && !fails(|st.out| + 1) && !fails(|st.out| + 2)
    ensures
      Run([line], false, ConverterEnv(accepts, draw, fails), st) ==
        Outcome(State(st.count + 1,
                      st.out + Segments(Record(IdOf(bytes), TimestampOf(line), RequestLineOf(line, accepts).value)),
                      st.calls + 1),
                None)
  {
    LineConverted(line, accepts, draw, fails, st, bytes);
    RunUnfold([line], false, ConverterEnv(accepts, draw, fails), st);
    assert [line][0] == line && [line][1..] == [];
  }

  /** Blank lines convert to nothing. */
  lemma {:induction false} BlankLinesOnly(lines: seq<string>, readFailed: bool, env: Env, st: State)
    requires env.requestOf("").None?
    requires forall i :: 0 <= i < |lines| ==> lines[i] == ""
    ensures Run(lines, readFailed, env, st) == Outcome(st, if readFailed then Some(ReadFailed) else None)
    decreases |lines|
  {
    if lines != [] {
      RunUnfold(lines, readFailed, env, st);
      StepSkips(lines[0], env, st);
      BlankLinesOnly(lines[1..], readFailed, env, st);
    }
  }

  /** The converter never draws a request line from a blank line. */
  lemma BlankLineHasNoRequest(accepts: string -> bool, draw: nat -> Option<IdBytes>, fails: nat -> bool)
    ensures ConverterEnv(accepts, draw, fails).requestOf("").None?
  {
  }

  /** The identifiers of the records are hexadecimal, so the output reads back. */
  lemma {:induction false} RecordsReadable(lines: seq<string>, env: Env, calls: nat)
    ensures Readable(Records(lines, env, calls))
    decreases |lines|
  {
    if lines != [] {
      match env.requestOf(lines[0])
      case None =>
        RecordsReadable(lines[1..], env, calls);
      case Some(rl) =>
        RecordsReadable(lines[1..], env, calls + 1);
        match env.draw(calls)
        case None =>
        case Some(bytes) =>
          var id := IdOf(bytes);
          forall t | 0 <= t < |id| ensures id[t] != ' ' {
            assert IsLowerHex(id[t]);
          }
          var rest := Records(lines[1..], env, calls + 1);
          var rs := [Record(id, env.timestampOf(lines[0]), rl)] + rest;
          assert forall i :: 1 <= i < |rs| ==> rs[i] == rest[i - 1];
    }
  }

  /** The timestamps and request lines of records, without their identifiers. */
  function Payloads(rs: seq<Record>): (ps: seq<(int, string)>)
    ensures |ps| == |rs|
    ensures forall i :: 0 <= i < |rs| ==> ps[i] == (rs[i].timestamp, rs[i].request)
  {
    if rs == [] then [] else [(rs[0].timestamp, rs[0].request)] + Payloads(rs[1..])
  }

  /** When every read of the entropy source succeeds, the records differ from one
      source to another only in their identifiers. */
  lemma {:induction false} PayloadsIgnoreIds(lines: seq<string>, env: Env, env': Env, calls: nat, calls': nat)
    requires env'.requestOf == env.requestOf && env'.timestampOf == env.timestampOf
    requires forall n :: env.draw(n).Some? && env'.draw(n).Some?
    ensures Payloads(Records(lines, env, calls)) == Payloads(Records(lines, env', calls'))
    decreases |lines|
  {
    if lines != [] {
      match env.requestOf(lines[0])
      case None =>
        PayloadsIgnoreIds(lines[1..], env, env', calls, calls');
      case Some(rl) =>
        PayloadsIgnoreIds(lines[1..], env, env', calls + 1, calls' + 1);
        RecordsConvert(lines, env, calls, rl, env.draw(calls).value);
        RecordsConvert(lines, env', calls', rl, env'.draw(calls').value);
    }
  }

  /** Without a failed write, the segments a run appends read back as its records. */
  lemma OutputReadsBack(lines: seq<string>, readFailed: bool, env: Env, st: State)
    requires WritesSucceed(env.fails, |st.out|, Records(lines, env, st.calls))
    ensures
      var o := Run(lines, readFailed, env, st);
      ParseFrames(o.state.out[|st.out|..]) == Some(Records(lines, env, st.calls))
  {
    var rs := Records(lines, env, st.calls);
    RunWithoutWriteFailure(lines, readFailed, env, st);
    RecordsReadable(lines, env, st.calls);
    FramesParse(rs);
    assert (st.out + Frames(rs))[|st.out|..] == Frames(rs);
  }

  /** A Combined Log Format line,
      `127.0.0.1 - - [01/Oct/2025:12:30:11 +0000] "GET /api/v1/users HTTP/1.1" 200 512 "-" "curl/8.0"`,
      assembled from its host fields, its bracketed stamp, its quoted request and the
      fields after it. */
  const SampleHost: string := "127.0.0.1 - - "
  const SampleStamp: StampMatch := StampMatch("01/Oct/2025:12:30:11", "+0000")
  const SampleRequest: Request := Request("GET", "/api/v1/users", "HTTP/1.1")
  const SampleTail: string := " 200 512 \"-\" \"curl/8.0\""
  const SampleLine: string := SampleHost + Bracketed(SampleStamp) + " " + Quoted(SampleRequest) + SampleTail

  lemma AtMiddle(x: string, y: string, z: string)
    ensures Scan.At(x + y + z, |x|, y)
  {
    var s := x + y + z;
    assert s[|x|..|x| + |y|] == y;
    Scan.AtSlice(s, |x|, y);
  }

  lemma BeforeMiddle(x: string, y: string, z: string, c: char, j: nat)
    requires c !in x && j < |x|
    ensures (x + y + z)[j] != c
  {
    assert (x + y + z)[j] == x[j];
  }

  /** No stamp starts inside a prefix without a `[`. */
  lemma NoStampBefore(x: string, y: string, z: string, j: nat, m: StampMatch)
    requires '[' !in x && j < |x|
    ensures !Timestamp.Matches(x + y + z, j, m)
  {
    BeforeMiddle(x, y, z, '[', j);
    assert Bracketed(m)[0] == '[';
  }

  /** No quoted request starts inside a prefix without a `"`. */
  lemma NoRequestBefore(x: string, y: string, z: string, j: nat, r: Request)
    requires '"' !in x && j < |x|
    ensures !RequestLine.Matches(x + y + z, j, r)
  {
    BeforeMiddle(x, y, z, '"', j);
    assert Quoted(r)[0] == '"';
  }

  lemma SampleHostPlain()
    ensures '[' !in SampleHost && '"' !in SampleHost
  {
  }

  lemma SampleRequestText()
    ensures Text(SampleRequest) == "GET /api/v1/users HTTP/1.1"
  {
    assert "GET" + " " + "/api/v1/users" == "GET /api/v1/users";
    assert "GET /api/v1/users" + " " == "GET /api/v1/users ";
  }

  lemma SampleNoQuoteBefore()
    ensures '"' !in SampleHost + Bracketed(SampleStamp) + " "
  {
    SampleHostPlain();
    assert '"' !in SampleStamp.stamp && '"' !in SampleStamp.zone;
    assert Bracketed(SampleStamp) == "[" + SampleStamp.stamp + " " + SampleStamp.zone + "]";
  }

  /** The request line of the sample line is its quoted request. */
  lemma SampleRequestLine(accepts: string -> bool)
    requires accepts(SampleLine)
    ensures RequestLineOf(SampleLine, accepts) == Some("GET /api/v1/users HTTP/1.1")
  {
    var before := SampleHost + Bracketed(SampleStamp) + " ";
    AtMiddle(before, Quoted(SampleRequest), SampleTail);
    SampleNoQuoteBefore();
    var k := |before|;
    forall j: nat, r': Request | j < k ensures !RequestLine.Matches(SampleLine, j, r') {
      NoRequestBefore(before, Quoted(SampleRequest), SampleTail, j, r');
    }
    assert IsMethod(SampleRequest.verb);
    assert ' ' !in SampleRequest.path && '"' !in SampleRequest.protocol;
    assert RequestLine.Matches(SampleLine, k, SampleRequest);
    RequestLineOfLeftmost(SampleLine, accepts, k, SampleRequest);
    SampleRequestText();
  }

  /** The timestamp of the sample line is 2025-10-01 12:30:11 in nanoseconds since
      the epoch. */
  lemma SampleTimestamp()
    ensures TimestampOf(SampleLine) == 1759321811000000000
  {
    var rest := " " + Quoted(SampleRequest) + SampleTail;
    assert SampleLine == SampleHost + Bracketed(SampleStamp) + rest;
    ExampleStamp();
    AtMiddle(SampleHost, Bracketed(SampleStamp), rest);
    SampleHostPlain();
    var k := |SampleHost|;
    forall j: nat, m': StampMatch | j < k ensures !Timestamp.Matches(SampleLine, j, m') {
      NoStampBefore(SampleHost, Bracketed(SampleStamp), rest, j, m');
    }
    TimestampOfLeftmost(SampleLine, k, SampleStamp);
  }

  /** The sample line alone converts to one record: a header with the drawn
      identifier and the timestamp 1759321811000000000, the request segment and the
      delimiter line. */
  lemma SampleConverted(accepts: string -> bool, draw: nat -> Option<IdBytes>, fails: nat -> bool,
                        st: State, bytes: IdBytes)
    requires accepts(SampleLine) && draw(st.calls) == Some(bytes)
    requires !fails(|st.out|) && !fails(|st.out| + 1) && !fails(|st.out| + 2)
    ensures
      var o := Run([SampleLine], false, ConverterEnv(accepts, draw, fails), st);
      && o.err.None? && o.state.count == st.count + 1
      && o.state.out == st.out + Segments(Record(IdOf(bytes), 1759321811000000000, "GET /api/v1/users HTTP/1.1"))
  {
    SampleRequestLine(accepts);
    SampleTimestamp();
    LineAlone(SampleLine, accepts, draw, fails, st, bytes);
  }

  // ---------------------------------------------------------------------------
  // The converter

  /** The output file: the segments written so far; the `n`-th write fails when
      `fails(n)`, and a failed write adds nothing. */
  class Sink {
    var out: seq<string>
    const fails: nat -> bool

    constructor (fails: nat -> bool)
      ensures out == [] && this.fails == fails
    {
      out := [];
      this.fails := fails;
    }

    method Write(segment: string) returns (ok: bool)
      modifies this
      ensures ok == !fails(|old(out)|)
      ensures out == if ok then old(out) + [segment] else old(out)
    {
      ok := !fails(|out|);
      if ok {
        out := out + [segment];
      }
    }
  }

  /** The timestamp of a line: 0 unless the stamp pattern matches and its date-time
      parses, in which case the nanoseconds of that date-time. */
  method ExtractTimestamp(line: string) returns (timestamp: int)
    ensures timestamp == TimestampOf(line)
  {
    timestamp := 0;
    var timeMatch := FindStamp(line);
    if timeMatch.Some? {
      var t := ParseStamp(timeMatch.value.1.stamp);
      if t.Some? {
        timestamp := UnixNanos(t.value);
      }
    }
  }

  /** Writes the three segments of a record to `sink`, stopping at the first write
      that fails, which is reported. */
  method WriteSegments(sink: Sink, r: Record, ghost st: State) returns (err: Option<Failure>)
    requires sink.out == st.out
    modifies sink
    ensures
      var o := WriteRecord(Segments(r), sink.fails, st);
      sink.out == o.state.out && err == o.err
  {
    err := WriteEach(sink, [Header(r.id, r.timestamp), RequestSegment(r.request), DelimiterSegment], st);
  }

  /** Writes `segs` one after another, stopping at the first write that fails; the
      part reported is that of the segment that failed. */
  method WriteEach(sink: Sink, segs: seq<string>, ghost st: State) returns (err: Option<Failure>)
    requires |segs| == 3 && sink.out == st.out
    modifies sink
    ensures
      var o := WriteRecord(segs, sink.fails, st);
      sink.out == o.state.out && err == o.err
  {
    var ok := sink.Write(segs[0]);
    if !ok {
      WriteRecordFailsAt(segs, sink.fails, st, 0);
      return Some(WriteFailed(HeaderPart));
    }
    ok := sink.Write(segs[1]);
    if !ok {
      WriteRecordFailsAt(segs, sink.fails, st, 1);
      return Some(WriteFailed(RequestPart));
    }
    ok := sink.Write(segs[2]);
    if !ok {
      WriteRecordFailsAt(segs, sink.fails, st, 2);
      return Some(WriteFailed(DelimiterPart));
    }
    WriteRecordSucceeds(segs, sink.fails, st);
    return None;
  }

  /** One pass of the conversion loop over `line`: skips it when it is empty, rejected
      by the log parser, without a request line, or when no identifier can be drawn;
      otherwise writes its record, and reports whether it was converted and the failed
      write, if any. */
  method ConvertLine(line: string, accepts: string -> bool, source: Entropy, sink: Sink, ghost count: nat)
    returns (converted: bool, err: Option<Failure>)
    modifies source, sink
    ensures Step(line, ConverterEnv(accepts, source.draw, sink.fails), State(count, old(sink.out), old(source.calls)))
              == Outcome(State(if converted then count + 1 else count, sink.out, source.calls), err)
  {
    ghost var env := ConverterEnv(accepts, source.draw, sink.fails);
    ghost var st := State(count, sink.out, source.calls);
    if line == "" || !accepts(line) {
      StepSkips(line, env, st);
      return false, None;
    }
    var found := Find(line);
    if found.None? {
      StepSkips(line, env, st);
      return false, None;
    }
    var requestLine := Text(found.value.1);
    var timestamp := ExtractTimestamp(line);
    assert env.requestOf(line) == Some(requestLine) && env.timestampOf(line) == timestamp;
    var reqId := GenerateRequestId(source);
    if reqId.None? {
      IdFailureSkips(line, env, st);
      return false, None;
    }
    ghost var bytes := source.draw(st.calls).value;
    var record := Record(reqId.value, timestamp, requestLine);
    assert record == Record(IdOf(bytes), env.timestampOf(line), requestLine);
    StepWrites(line, env, st, requestLine, bytes);
    err := WriteSegments(sink, record, st.(calls := st.calls + 1));
    converted := err.None?;
  }

  /** Converts the lines read from the input, `readFailed` telling whether reading
      stopped on an error, into records on `sink`; returns the number of converted
      lines and the failure that ended the conversion, if any. */
  method ProcessLogs(lines: seq<string>, readFailed: bool, accepts: string -> bool, source: Entropy, sink: Sink)
    returns (count: nat, err: Option<Failure>)
    modifies source, sink
    ensures Run(lines, readFailed, ConverterEnv(accepts, source.draw, sink.fails), State(0, old(sink.out), old(source.calls)))
              == Outcome(State(count, sink.out, source.calls), err)
  {
    ghost var env := ConverterEnv(accepts, source.draw, sink.fails);
    ghost var whole := Run(lines, readFailed, env, State(0, sink.out, source.calls));
    count := 0;
    var i := 0;
    while i < |lines|
      invariant 0 <= i <= |lines|
      invariant Run(lines[i..], readFailed, env, State(count, sink.out, source.calls)) == whole
    {
      RunFrom(lines, i, readFailed, env, State(count, sink.out, source.calls));
      var converted, failed := ConvertLine(lines[i], accepts, source, sink, count);
      if failed.Some? {
        return count, failed;
      }
      if converted {
        count := count + 1;
      }
      i := i + 1;
    }
    err := if readFailed then Some(ReadFailed) else None;
  }
}

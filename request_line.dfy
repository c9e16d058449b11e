/** Extraction of the quoted HTTP request line from an access-log line: the pattern
    `"(GET|POST|PUT|DELETE|HEAD|OPTIONS|PATCH) ([^ ]+) ([^"]+)"` and the leftmost
    match a regular-expression "find" returns for it. */
module RequestLine {
  import opened Wrappers
  import opened Scan

  /** The verbs the pattern admits. None is a prefix of another, and none holds a space. */
  const Methods: seq<string> := ["GET", "POST", "PUT", "DELETE", "HEAD", "OPTIONS", "PATCH"]

  predicate IsMethod(m: string) {
    m in Methods
  }

  /** The three captured groups of a match. */
  datatype Request = Request(verb: string, path: string, protocol: string)

  /** The request line the converter emits: the groups joined by single spaces. */
  function Text(r: Request): string {
    r.verb + " " + r.path + " " + r.protocol
  }

  /** The text a match covers, quotes included. */
  function Quoted(r: Request): string {
    "\"" + Text(r) + "\""
  }

  /** The pattern matches at position `i` of `s` with groups `r`: a verb, a non-empty
      path without spaces and a non-empty protocol without quotes, in quotes. */
  predicate Matches(s: string, i: nat, r: Request) {
    && IsMethod(r.verb)
    && r.path != [] && ' ' !in r.path
    && r.protocol != [] && '"' !in r.protocol
    && At(s, i, Quoted(r))
  }

  /** The scanner for one start position: the verb runs to the first space, the path
      is the maximal run of non-spaces after it, and the protocol the maximal run of
      non-quotes after that, which must be closed by a quote. */
  function MatchAt(s: string, i: nat): Option<Request> {
    if i < |s| && s[i] == '"' then
      var e1 := SpanTo(s, i + 1, ' ');
      if e1 < |s| && IsMethod(s[i + 1..e1]) then
        var e2 := SpanTo(s, e1 + 1, ' ');
        if e1 + 1 < e2 < |s| then
          var e3 := SpanTo(s, e2 + 1, '"');
          if e2 + 1 < e3 < |s| then Some(Request(s[i + 1..e1], s[e1 + 1..e2], s[e2 + 1..e3]))
          else None
        else None
      else None
    else None
  }

  /** The leftmost match in the line, with its start position. */
  function Find(s: string): Option<(nat, Request)> {
    FirstFrom(s, 0, MatchAt)
  }

  lemma MethodsHaveNoSpace(m: string)
    requires IsMethod(m)
    ensures ' ' !in m && m != []
  {
  }

  /** The scanner finds exactly the matches the pattern defines: a start position
      admits at most one match, and the scanner reports it. */
  lemma MatchAtIff(s: string, i: nat, r: Request)
    ensures MatchAt(s, i) == Some(r) <==> Matches(s, i, r)
  {
    if MatchAt(s, i) == Some(r) {
      MatchAtSound(s, i);
    }
    if Matches(s, i, r) {
      MatchAtComplete(s, i, r);
    }
  }

  /** Where the pieces of a match lie: the quoted text at `i` is the opening quote, the
      verb, a space, the path, a space, the protocol and the closing quote, end to end. */
  lemma QuotedAt(s: string, i: nat, r: Request, b: nat, c: nat, d: nat)
    requires b == i + 1 + |r.verb| && c == b + 1 + |r.path| && d == c + 1 + |r.protocol|
    ensures
      At(s, i, Quoted(r)) <==>
        && i < |s| && s[i] == '"' && At(s, i + 1, r.verb) && b < |s| && s[b] == ' '
        && At(s, b + 1, r.path) && c < |s| && s[c] == ' '
        && At(s, c + 1, r.protocol) && d < |s| && s[d] == '"'
  {
    var inner := r.verb + " " + r.path;
    var t := Text(r);
    assert t == inner + " " + r.protocol && |inner| == b - i - 1 + 1 + |r.path|;
    assert Quoted(r) == "\"" + (t + "\"");
    AtFirst(s, i, '"', t + "\"");
    AtLast(s, i + 1, t, '"', d);
    AtSep(s, i + 1, inner, ' ', r.protocol, c);
    AtSep(s, i + 1, r.verb, ' ', r.path, b);
  }

  lemma MatchAtSound(s: string, i: nat)
    requires MatchAt(s, i).Some?
    ensures Matches(s, i, MatchAt(s, i).value)
  {
    var e1 := SpanTo(s, i + 1, ' ');
    var e2 := SpanTo(s, e1 + 1, ' ');
    var e3 := SpanTo(s, e2 + 1, '"');
    assert MatchAt(s, i) == Some(Request(s[i + 1..e1], s[e1 + 1..e2], s[e2 + 1..e3]));
    SoundOfSpans(s, i, e1, e2, e3);
  }

  /** Three runs the scanner accepts make a match of the pattern. */
  lemma SoundOfSpans(s: string, i: nat, e1: nat, e2: nat, e3: nat)
    requires i < |s| && s[i] == '"'
    requires i + 1 <= e1 < |s| && s[e1] == ' ' && IsMethod(s[i + 1..e1])
    requires e1 + 1 < e2 < |s| && s[e2] == ' ' && forall t :: e1 + 1 <= t < e2 ==> s[t] != ' '
    requires e2 + 1 < e3 < |s| && s[e3] == '"' && forall t :: e2 + 1 <= t < e3 ==> s[t] != '"'
    ensures Matches(s, i, Request(s[i + 1..e1], s[e1 + 1..e2], s[e2 + 1..e3]))
  {
    AvoidsChar(s, e1 + 1, e2, ' ');
    AvoidsChar(s, e2 + 1, e3, '"');
    QuotedOfSlices(s, i, e1, e2, e3);
  }

  /** The quoted text of three runs delimited as the pattern requires lies where they do. */
  lemma QuotedOfSlices(s: string, i: nat, e1: nat, e2: nat, e3: nat)
    requires i < e1 < e2 < e3 < |s|
    requires s[i] == '"' && s[e1] == ' ' && s[e2] == ' ' && s[e3] == '"'
    ensures At(s, i, Quoted(Request(s[i + 1..e1], s[e1 + 1..e2], s[e2 + 1..e3])))
  {
    var r := Request(s[i + 1..e1], s[e1 + 1..e2], s[e2 + 1..e3]);
    AtOwnSlice(s, i + 1, e1);
    AtOwnSlice(s, e1 + 1, e2);
    AtOwnSlice(s, e2 + 1, e3);
    assert At(s, i + 1, r.verb) && At(s, e1 + 1, r.path) && At(s, e2 + 1, r.protocol);
    assert e1 == i + 1 + |r.verb|;
    assert e2 == e1 + 1 + |r.path|;
    assert e3 == e2 + 1 + |r.protocol|;
    QuotedAt(s, i, r, e1, e2, e3);
    assert At(s, i, Quoted(r));
  }

  lemma MatchAtComplete(s: string, i: nat, r: Request)
    requires Matches(s, i, r)
    ensures MatchAt(s, i) == Some(r)
  {
    var e1 := i + 1 + |r.verb|;
    var e2 := e1 + 1 + |r.path|;
    var e3 := e2 + 1 + |r.protocol|;
    MethodsHaveNoSpace(r.verb);
    QuotedAt(s, i, r, e1, e2, e3);
    SpanOfHeld(s, i + 1, r.verb, ' ', e1);
    SpanOfHeld(s, e1 + 1, r.path, ' ', e2);
    SpanOfHeld(s, e2 + 1, r.protocol, '"', e3);
    MatchAtOfSpans(s, i, r, e1, e2, e3);
  }

  /** The scanner's answer once the three runs it looks for are known. */
  lemma MatchAtOfSpans(s: string, i: nat, r: Request, e1: nat, e2: nat, e3: nat)
    requires i < |s| && s[i] == '"'
    requires SpanTo(s, i + 1, ' ') == e1 && e1 < |s| && s[i + 1..e1] == r.verb && IsMethod(r.verb)
    requires SpanTo(s, e1 + 1, ' ') == e2 && e1 + 1 < e2 < |s| && s[e1 + 1..e2] == r.path
    requires SpanTo(s, e2 + 1, '"') == e3 && e2 + 1 < e3 < |s| && s[e2 + 1..e3] == r.protocol
    ensures MatchAt(s, i) == Some(r)
  {
  }

  /** `Find` reports the leftmost match: a match at `k` with groups `r`, and no match
      at any earlier position. */
  lemma FindIsLeftmost(s: string, k: nat, r: Request)
    ensures Find(s) == Some((k, r)) <==>
              Matches(s, k, r) && forall j: nat, r': Request :: j < k ==> !Matches(s, j, r')
  {
    FirstFromIsLeftmost(s, 0, MatchAt);
    MatchAtIff(s, k, r);
    if Find(s) == Some((k, r)) {
      forall j: nat, r': Request | j < k ensures !Matches(s, j, r') {
        MatchAtIff(s, j, r');
      }
    }
    if Matches(s, k, r) && forall j: nat, r': Request :: j < k ==> !Matches(s, j, r') {
      assert k <= |s|;
      forall j | 0 <= j < k ensures MatchAt(s, j).None? {
        if MatchAt(s, j).Some? {
          MatchAtIff(s, j, MatchAt(s, j).value);
        }
      }
      assert Find(s).Some?;
    }
  }

  /** `Find` fails exactly when the line holds no match at all. */
  lemma FindNoneIff(s: string)
    ensures Find(s).None? <==> forall j: nat, r: Request :: !Matches(s, j, r)
  {
    FirstFromIsLeftmost(s, 0, MatchAt);
    if Find(s).None? {
      forall j: nat, r: Request ensures !Matches(s, j, r) {
        MatchAtIff(s, j, r);
        if j > |s| { assert MatchAt(s, j).None?; }
      }
    } else {
      var (k, r) := Find(s).value;
      MatchAtIff(s, k, r);
    }
  }
}

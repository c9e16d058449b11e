/** Character-level helpers shared by the two fixed patterns of the converter:
    scanning to a delimiter, decimal digits, and the leftmost-match search that
    a regular-expression "find" performs. */
module Scan {
  import opened Wrappers

  /** The least index `k >= j` at which `s` holds `c`, or `|s|` when there is none:
      the end of a maximal run of characters other than `c` starting at `j`. */
  function SpanTo(s: string, j: nat, c: char): (k: nat)
    requires j <= |s|
    ensures j <= k <= |s|
    ensures forall t :: j <= t < k ==> s[t] != c
    ensures k < |s| ==> s[k] == c
    decreases |s| - j
  {
    if j == |s| || s[j] == c then j else SpanTo(s, j + 1, c)
  }

  /** A run ending at `k` that meets the contract of `SpanTo` is the one `SpanTo` finds. */
  lemma SpanToUnique(s: string, j: nat, c: char, k: nat)
    requires j <= k <= |s|
    requires forall t :: j <= t < k ==> s[t] != c
    requires k < |s| ==> s[k] == c
    ensures SpanTo(s, j, c) == k
  {
  }

  /** `s` holds `x` starting at position `i`. */
  predicate At(s: string, i: nat, x: string)
    decreases |x|
  {
    if x == [] then i <= |s| else i < |s| && s[i] == x[0] && At(s, i + 1, x[1..])
  }

  lemma {:induction false} AtBound(s: string, i: nat, x: string)
    requires At(s, i, x)
    ensures i + |x| <= |s|
    decreases |x|
  {
    if x != [] {
      AtBound(s, i + 1, x[1..]);
    }
  }

  /** Holding `x` at `i` means that the slice of `s` there is `x`. */
  lemma {:induction false} AtSlice(s: string, i: nat, x: string)
    requires i + |x| <= |s|
    ensures At(s, i, x) <==> s[i..i + |x|] == x
    decreases |x|
  {
    if x != [] {
      AtSlice(s, i + 1, x[1..]);
      if s[i..i + |x|] == x {
        assert s[i] == x[0];
        assert s[i + 1..i + |x|] == x[1..];
      }
      if At(s, i, x) {
        assert s[i..i + |x|] == [s[i]] + s[i + 1..i + |x|];
        assert x == [x[0]] + x[1..];
      }
    }
  }

  /** A slice of `s` is held where it was cut from. */
  lemma AtOwnSlice(s: string, a: nat, b: nat)
    requires a <= b <= |s|
    ensures At(s, a, s[a..b])
  {
    AtSlice(s, a, s[a..b]);
  }

  /** Text without `c` held at `a` and followed by `c` is the run `SpanTo` finds
      from `a`. */
  lemma SpanOfHeld(s: string, a: nat, x: string, c: char, e: nat)
    requires e == a + |x|
    requires At(s, a, x) && c !in x && e < |s| && s[e] == c
    ensures s[a..e] == x && SpanTo(s, a, c) == e
  {
    AtSlice(s, a, x);
    forall t | a <= t < e ensures s[t] != c {
      assert s[t] == x[t - a];
    }
    SpanToUnique(s, a, c, e);
  }

  lemma AtChar(s: string, i: nat, c: char)
    ensures At(s, i, [c]) <==> i < |s| && s[i] == c
  {
    assert [c][1..] == [];
  }

  /** Holding a concatenation means holding its parts end to end. */
  lemma {:induction false} AtConcat(s: string, i: nat, x: string, y: string)
    ensures At(s, i, x + y) <==> At(s, i, x) && At(s, i + |x|, y)
    decreases |x|
  {
    if x == [] {
      assert x + y == y;
      if At(s, i, y) {
        AtBound(s, i, y);
      }
    } else {
      assert (x + y)[0] == x[0] && (x + y)[1..] == x[1..] + y;
      AtConcat(s, i + 1, x[1..], y);
    }
  }

  /** Holding a text that starts with `c`. */
  lemma AtFirst(s: string, i: nat, c: char, y: string)
    ensures At(s, i, [c] + y) <==> i < |s| && s[i] == c && At(s, i + 1, y)
  {
    assert ([c] + y)[0] == c && ([c] + y)[1..] == y;
  }

  /** Holding a text that ends with `c`, which then lies at `d`. */
  lemma AtLast(s: string, j: nat, x: string, c: char, d: nat)
    requires d == j + |x|
    ensures At(s, j, x + [c]) <==> At(s, j, x) && d < |s| && s[d] == c
  {
    AtConcat(s, j, x, [c]);
    AtChar(s, d, c);
  }

  /** Holding two texts separated by the character `c`, which then lies at `b`. */
  lemma AtSep(s: string, j: nat, x: string, c: char, y: string, b: nat)
    requires b == j + |x|
    ensures At(s, j, x + [c] + y) <==> At(s, j, x) && b < |s| && s[b] == c && At(s, b + 1, y)
  {
    AtConcat(s, j, x + [c], y);
    AtLast(s, j, x, c, b);
  }

  /** A stretch of `s` that avoids `c` at every index does not contain `c`. */
  lemma AvoidsChar(s: string, a: nat, b: nat, c: char)
    requires a <= b <= |s|
    requires forall t :: a <= t < b ==> s[t] != c
    ensures c !in s[a..b]
  {
  }

  predicate IsDigit(c: char) {
    '0' <= c <= '9'
  }

  predicate AllDigits(s: string) {
    forall k :: 0 <= k < |s| ==> IsDigit(s[k])
  }

  function DigitValue(c: char): (d: nat)
    requires IsDigit(c)
    ensures d < 10
  {
    (c as int) - ('0' as int)
  }

  function DigitChar(d: nat): (c: char)
    requires d < 10
    ensures IsDigit(c) && DigitValue(c) == d
  {
    ('0' as int + d) as char
  }

  lemma DigitCharOfValue(c: char)
    requires IsDigit(c)
    ensures DigitChar(DigitValue(c)) == c
  {
  }

  /** The value of a string of decimal digits, most significant first. */
  function DecimalValue(s: string): nat
    requires AllDigits(s)
  {
    if s == [] then 0 else 10 * DecimalValue(s[..|s| - 1]) + DigitValue(s[|s| - 1])
  }

  /** The leftmost position `k >= i` at which `at` finds a match, with that match:
      the search a regular-expression "find" makes when each start position admits
      at most one match. */
  function FirstFrom<T>(s: string, i: nat, at: (string, nat) -> Option<T>): (r: Option<(nat, T)>)
    requires i <= |s|
    ensures r.Some? ==> i <= r.value.0 <= |s| && at(s, r.value.0) == Some(r.value.1)
    decreases |s| - i
  {
    match at(s, i)
    case Some(x) => Some((i, x))
    case None => if i == |s| then None else FirstFrom(s, i + 1, at)
  }

  /** `FirstFrom` fails exactly when no position matches, and otherwise nothing to the
      left of the position it reports matches. */
  lemma {:induction false} FirstFromIsLeftmost<T>(s: string, i: nat, at: (string, nat) -> Option<T>)
    requires i <= |s|
    ensures FirstFrom(s, i, at).None? <==> forall j :: i <= j <= |s| ==> at(s, j).None?
    ensures FirstFrom(s, i, at).Some? ==>
              forall j :: i <= j < FirstFrom(s, i, at).value.0 ==> at(s, j).None?
    decreases |s| - i
  {
    if at(s, i).None? && i < |s| {
      FirstFromIsLeftmost(s, i + 1, at);
    }
  }
}

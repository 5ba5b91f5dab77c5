/** The JavaScript string primitives the CLI helpers are built from: `startsWith`,
    `split` with a one-character separator, `trim` and `toLowerCase`. Strings are
    sequences of Unicode scalar values. */
module JsStrings {

  /** `s.startsWith(prefix)`. */
  function StartsWith(s: string, prefix: string): (b: bool)
    ensures b <==> |prefix| <= |s| && forall i :: 0 <= i < |prefix| ==> s[i] == prefix[i]
  {
    |prefix| <= |s| && s[..|prefix|] == prefix
  }

  /** Number of occurrences of `c` in `s`. */
  function Count(s: string, c: char): nat {
    if s == [] then 0 else (if s[0] == c then 1 else 0) + Count(s[1..], c)
  }

  /** `s.split(sep)`: the pieces between the occurrences of `sep`, empty pieces included,
      so there is always one piece more than there are separators. */
  function Split(s: string, sep: char): (parts: seq<string>)
    ensures |parts| == Count(s, sep) + 1
  {
    if s == [] then [[]] else SplitStep(s[0], Split(s[1..], sep), sep)
  }

  /** One character in front of the pieces of the rest: a separator opens a new, empty
      first piece; any other character joins the first piece. */
  function SplitStep(c: char, rest: seq<string>, sep: char): (parts: seq<string>)
    requires rest != []
    ensures |parts| == |rest| + (if c == sep then 1 else 0)
    ensures c == sep ==> parts[0] == [] && parts[1..] == rest
    ensures c != sep ==> parts[0] == [c] + rest[0] && parts[1..] == rest[1..]
  {
    if c == sep then [[]] + rest else [[c] + rest[0]] + rest[1..]
  }

  /** No piece holds the separator. */
  lemma {:induction false} SplitOmitsSeparator(s: string, sep: char)
    ensures forall i :: 0 <= i < |Split(s, sep)| ==> sep !in Split(s, sep)[i]
  {
    if s != [] {
      var rest := Split(s[1..], sep);
      SplitOmitsSeparator(s[1..], sep);
      var parts := Split(s, sep);
      forall i | 0 <= i < |parts| ensures sep !in parts[i] {
        if s[0] == sep {
          if i > 0 {
            assert parts[i] == parts[1..][i - 1] == rest[i - 1];
          }
        } else if i > 0 {
          assert parts[i] == parts[1..][i - 1] == rest[i];
        }
      }
    }
  }

  /** `parts.join(sep)`. */
  function Join(parts: seq<string>, sep: char): string {
    if parts == [] then []
    else if |parts| == 1 then parts[0]
    else parts[0] + [sep] + Join(parts[1..], sep)
  }

  /** Joining undoes one step of splitting: the step's pieces join to the character in
      front of the joined rest. */
  lemma JoinStep(c: char, rest: seq<string>, sep: char)
    requires rest != []
    ensures Join(SplitStep(c, rest, sep), sep) == [c] + Join(rest, sep)
  {
    var parts := SplitStep(c, rest, sep);
    if c == sep {
      assert parts == [[]] + rest;
      assert [] + [sep] + Join(rest, sep) == [sep] + Join(rest, sep);
    } else if |rest| > 1 {
      var tail := Join(rest[1..], sep);
      assert |parts| > 1 && parts[1..] == rest[1..];
      assert Join(parts, sep) == ([c] + rest[0]) + [sep] + tail;
      assert Join(rest, sep) == rest[0] + [sep] + tail;
    }
  }

  /** Splitting loses nothing: joining the pieces back gives the original string. */
  lemma {:induction false} JoinSplit(s: string, sep: char)
    ensures Join(Split(s, sep), sep) == s
  {
    if s != [] {
      JoinSplit(s[1..], sep);
      JoinStep(s[0], Split(s[1..], sep), sep);
      assert [s[0]] + s[1..] == s;
    }
  }

  /** Split, one leading character at a time. */
  lemma SplitCons(c: char, t: string, sep: char)
    ensures Split([c] + t, sep) == SplitStep(c, Split(t, sep), sep)
  {
    assert ([c] + t)[1..] == t;
  }

  /** A step only touches the first piece, so pieces appended after the rest stay where
      they are. */
  lemma StepAppend(c: char, rest: seq<string>, right: seq<string>, sep: char)
    requires rest != []
    ensures SplitStep(c, rest + right, sep) == SplitStep(c, rest, sep) + right
  {
    assert (rest + right)[0] == rest[0];
    assert (rest + right)[1..] == rest[1..] + right;
    if c == sep {
      assert [[]] + (rest + right) == ([[]] + rest) + right;
    }
  }

  /** A separator splits the string into the pieces of its two sides. */
  lemma {:induction false} SplitConcat(a: string, b: string, sep: char)
    ensures Split(a + [sep] + b, sep) == Split(a, sep) + Split(b, sep)
  {
    if a == [] {
      assert a + [sep] + b == [sep] + b;
      SplitCons(sep, b, sep);
    } else {
      var t := a[1..];
      var tail := t + [sep] + b;
      assert a + [sep] + b == [a[0]] + tail;
      assert a == [a[0]] + t;
      SplitConcat(t, b, sep);
      SplitCons(a[0], tail, sep);
      SplitCons(a[0], t, sep);
      StepAppend(a[0], Split(t, sep), Split(b, sep), sep);
    }
  }

  /** A string without the separator is a single piece. */
  lemma {:induction false} SplitWithout(s: string, sep: char)
    requires sep !in s
    ensures Split(s, sep) == [s]
  {
    if s != [] {
      SplitWithout(s[1..], sep);
      assert [s[0]] + s[1..] == s;
    }
  }

  /** Joining pieces that hold no separator and splitting again gives the pieces back. */
  lemma {:induction false} SplitJoin(parts: seq<string>, sep: char)
    requires parts != []
    requires forall i :: 0 <= i < |parts| ==> sep !in parts[i]
    ensures Split(Join(parts, sep), sep) == parts
  {
    if |parts| == 1 {
      SplitWithout(parts[0], sep);
    } else {
      SplitJoin(parts[1..], sep);
      SplitConcat(parts[0], Join(parts[1..], sep), sep);
      SplitWithout(parts[0], sep);
    }
  }

  /** The code points JavaScript's `trim` removes: WhiteSpace and LineTerminator
      of the ECMAScript grammar. */
  predicate IsWhiteSpace(c: char) {
    || c == '\t' || c == '\n' || c == '\U{000B}' || c == '\U{000C}' || c == '\r'
    || c == ' ' || c == '\U{00A0}' || c == '\U{1680}'
    || ('\U{2000}' <= c <= '\U{200A}')
    || c == '\U{2028}' || c == '\U{2029}' || c == '\U{202F}' || c == '\U{205F}'
    || c == '\U{3000}' || c == '\U{FEFF}'
  }

  /** The first index at or after `from` that does not hold white space, or `|s|`. */
  function SkipWhiteSpace(s: string, from: nat): (k: nat)
    requires from <= |s|
    ensures from <= k <= |s|
    ensures forall i :: from <= i < k ==> IsWhiteSpace(s[i])
    ensures k == |s| || !IsWhiteSpace(s[k])
    decreases |s| - from
  {
    if from == |s| || !IsWhiteSpace(s[from]) then from else SkipWhiteSpace(s, from + 1)
  }

  /** The end of what is left of `s[..upto]` once its trailing white space is dropped. */
  function SkipWhiteSpaceBack(s: string, upto: nat): (k: nat)
    requires upto <= |s|
    ensures k <= upto
    ensures forall i :: k <= i < upto ==> IsWhiteSpace(s[i])
    ensures k == 0 || !IsWhiteSpace(s[k - 1])
  {
    if upto == 0 || !IsWhiteSpace(s[upto - 1]) then upto else SkipWhiteSpaceBack(s, upto - 1)
  }

  /** `s.trimStart()`: drops the leading white space. */
  function TrimStart(s: string): (r: string)
    ensures |r| <= |s| && forall i :: 0 <= i < |r| ==> r[i] == s[|s| - |r| + i]
    ensures forall i :: 0 <= i < |s| - |r| ==> IsWhiteSpace(s[i])
    ensures r == [] || !IsWhiteSpace(r[0])
  {
    s[SkipWhiteSpace(s, 0)..]
  }

  /** `s.trimEnd()`: drops the trailing white space. */
  function TrimEnd(s: string): (r: string)
    ensures |r| <= |s| && forall i :: 0 <= i < |r| ==> r[i] == s[i]
    ensures forall i :: |r| <= i < |s| ==> IsWhiteSpace(s[i])
    ensures r == [] || !IsWhiteSpace(r[|r| - 1])
  {
    s[..SkipWhiteSpaceBack(s, |s|)]
  }

  /** Nothing but white space. */
  predicate IsBlank(s: string) {
    forall i :: 0 <= i < |s| ==> IsWhiteSpace(s[i])
  }

  /** No white space at either end. */
  predicate HasTrimmedEnds(s: string) {
    s == [] || (!IsWhiteSpace(s[0]) && !IsWhiteSpace(s[|s| - 1]))
  }

  /** `s.trim()`: what is left of `s` after removing white space from both ends; it is
      empty exactly when `s` is blank. */
  function Trim(s: string): (r: string)
    ensures |r| <= |s|
    ensures HasTrimmedEnds(r)
    ensures r == [] <==> IsBlank(s)
  {
    TrimEnd(TrimStart(s))
  }

  /** Trimming adds no character: one that is not in `s` is not in its trimmed text. */
  lemma TrimKeepsOut(s: string, c: char)
    requires c !in s
    ensures c !in Trim(s)
  {
    var left := TrimStart(s);
    var r := TrimEnd(left);
    forall i | 0 <= i < |r| ensures r[i] != c {
      assert r[i] == left[i];
      assert left[i] == s[|s| - |left| + i];
    }
  }

  /** Trimming twice is trimming once. */
  lemma TrimIdempotent(s: string)
    ensures Trim(Trim(s)) == Trim(s)
  {
    var r := Trim(s);
    if r != [] {
      assert TrimStart(r) == r;
      assert TrimEnd(r) == r;
    }
  }

  /** Lower case of one character: ASCII letters, plus the two non-ASCII code points whose
      lower case is ASCII (KELVIN SIGN becomes `k`; LATIN CAPITAL LETTER I WITH DOT ABOVE
      becomes `i` followed by COMBINING DOT ABOVE). Every other character is kept: its
      lower case is either itself or non-ASCII again. */
  function LowerChar(c: char): (r: string)
    ensures 'A' <= c <= 'Z' ==> r == [(c as int - 'A' as int + 'a' as int) as char]
    ensures IsLowerFixed(c) ==> r == [c]
  {
    if 'A' <= c <= 'Z' then [(c as int + 32) as char]
    else if c == '\U{212A}' then "k"
    else if c == '\U{0130}' then "i\U{0307}"
    else [c]
  }

  /** `s.toLowerCase()`, as far as ASCII results are concerned: no upper-case ASCII
      letter survives. */
  function ToLowerCase(s: string): (r: string)
    ensures forall i :: 0 <= i < |r| ==> !('A' <= r[i] <= 'Z')
  {
    if s == [] then [] else LowerChar(s[0]) + ToLowerCase(s[1..])
  }

  /** A character `toLowerCase` leaves as it is. */
  predicate IsLowerFixed(c: char) {
    !('A' <= c <= 'Z') && c != '\U{212A}' && c != '\U{0130}'
  }

  /** Lower-casing works character by character: it distributes over concatenation. */
  lemma {:induction false} ToLowerCaseAppend(a: string, b: string)
    ensures ToLowerCase(a + b) == ToLowerCase(a) + ToLowerCase(b)
  {
    if a != [] {
      ToLowerCaseAppend(a[1..], b);
      assert (a + b)[0] == a[0];
      assert (a + b)[1..] == a[1..] + b;
    } else {
      assert a + b == b;
    }
  }

  /** On ASCII text, lower-casing turns each of `A`..`Z` into its small letter and keeps
      every other character in its place. */
  lemma {:induction false} ToLowerCaseAscii(s: string)
    requires forall i :: 0 <= i < |s| ==> s[i] < '\U{0080}'
    ensures |ToLowerCase(s)| == |s|
    ensures forall i :: 0 <= i < |s| ==>
      ToLowerCase(s)[i] == if 'A' <= s[i] <= 'Z' then (s[i] as int - 'A' as int + 'a' as int) as char else s[i]
  {
    if s != [] {
      var tail := s[1..];
      ToLowerCaseAscii(tail);
      var head := LowerChar(s[0]);
      assert |head| == 1;
      var r := ToLowerCase(s);
      assert r == head + ToLowerCase(tail);
      forall i | 0 <= i < |s|
        ensures r[i] == if 'A' <= s[i] <= 'Z' then (s[i] as int - 'A' as int + 'a' as int) as char else s[i]
      {
        if i > 0 {
          assert r[i] == ToLowerCase(tail)[i - 1];
          assert tail[i - 1] == s[i];
        }
      }
    }
  }

  /** A string with nothing to lower-case is its own lower case. */
  lemma {:induction false} ToLowerCaseFixed(s: string)
    requires forall i :: 0 <= i < |s| ==> IsLowerFixed(s[i])
    ensures ToLowerCase(s) == s
  {
    if s != [] {
      ToLowerCaseFixed(s[1..]);
      assert s == [s[0]] + s[1..];
    }
  }
}

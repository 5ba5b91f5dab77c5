/** The string and argument helpers of the extension scaffolding CLI: turning a display
    name into a directory slug, splitting a keyword list, reading the command line and
    choosing between an option, a default and a prompt's answer. */
module Create {
  import opened Wrappers
  import opened JsStrings

  // ---------------------------------------------------------------------------
  // toSlug

  /** The characters `[a-z0-9-_]` a slug may hold. */
  predicate IsSlugChar(c: char) {
    ('a' <= c <= 'z') || ('0' <= c <= '9') || c == '-' || c == '_'
  }

  /** A string made of slug characters only. */
  predicate IsSlug(s: string) {
    forall i :: 0 <= i < |s| ==> IsSlugChar(s[i])
  }

  predicate IsDisallowed(c: char) {
    !IsSlugChar(c)
  }

  /** Drops the leading disallowed characters: the rest of a run. */
  function SkipRun(s: string): (r: string)
    ensures |r| <= |s|
    ensures forall i :: 0 <= i < |s| - |r| ==> IsDisallowed(s[i])
    ensures r == [] || IsSlugChar(r[0])
  {
    if s != [] && IsDisallowed(s[0]) then SkipRun(s[1..]) else s
  }

  /** `.replace(/^-+/, "")`. */
  function StripLeadingDashes(s: string): (r: string)
    ensures |r| <= |s|
    ensures forall i :: 0 <= i < |s| - |r| ==> s[i] == '-'
    ensures r == [] || r[0] != '-'
  {
    if s != [] && s[0] == '-' then StripLeadingDashes(s[1..]) else s
  }

  /** `.replace(/-+$/, "")`. */
  function StripTrailingDashes(s: string): (r: string)
    ensures |r| <= |s|
    ensures forall i :: |r| <= i < |s| ==> s[i] == '-'
    ensures r == [] || r[|r| - 1] != '-'
  {
    if s != [] && s[|s| - 1] == '-' then StripTrailingDashes(s[..|s| - 1]) else s
  }

  /** What the three scans keep is a suffix, a suffix and a prefix of their input. */
  lemma {:induction false} SkipRunIsSuffix(s: string)
    ensures SkipRun(s) == s[|s| - |SkipRun(s)|..]
  {
    if s != [] && IsDisallowed(s[0]) {
      SkipRunIsSuffix(s[1..]);
    }
  }

  lemma {:induction false} StripLeadingIsSuffix(s: string)
    ensures StripLeadingDashes(s) == s[|s| - |StripLeadingDashes(s)|..]
  {
    if s != [] && s[0] == '-' {
      StripLeadingIsSuffix(s[1..]);
    }
  }

  lemma {:induction false} StripTrailingIsPrefix(s: string)
    ensures StripTrailingDashes(s) == s[..|StripTrailingDashes(s)|]
  {
    if s != [] && s[|s| - 1] == '-' {
      StripTrailingIsPrefix(s[..|s| - 1]);
    }
  }

  /** The slug characters other than the dash: the ones that carry the name. */
  predicate IsWordChar(c: char) {
    IsSlugChar(c) && c != '-'
  }

  const SlugLimit: nat := 64
  const FallbackSlug: string := "extension"

  /** `.replace(/[^a-z0-9-_]+/g, "-")`, read one character at a time: a dash on entering a
      run of disallowed characters and nothing more while inside it; `inRun` says whether
      the character before `s` was disallowed. */
  function ReplaceRuns(s: string, inRun: bool): (r: string)
    ensures |r| <= |s|
    ensures IsSlug(r)
  {
    if s == [] then []
    else if IsSlugChar(s[0]) then [s[0]] + ReplaceRuns(s[1..], false)
    else (if inRun then [] else "-") + ReplaceRuns(s[1..], true)
  }

  /** The regular expression's own reading: each maximal run of disallowed characters is
      matched whole and becomes one dash. */
  function RunReplacement(s: string): string
    decreases |s|
  {
    if s == [] then []
    else if IsSlugChar(s[0]) then [s[0]] + RunReplacement(s[1..])
    else "-" + RunReplacement(SkipRun(s[1..]))
  }

  lemma {:induction false} ReplaceRunsSkipsRun(s: string)
    ensures ReplaceRuns(s, true) == ReplaceRuns(SkipRun(s), false)
  {
    if s != [] && IsDisallowed(s[0]) {
      ReplaceRunsSkipsRun(s[1..]);
    }
  }

  /** The scan and the run-by-run replacement agree: one dash per run. */
  lemma {:induction false} ReplaceRunsIsRunReplacement(s: string)
    ensures ReplaceRuns(s, false) == RunReplacement(s)
    decreases |s|
  {
    if s != [] {
      if IsSlugChar(s[0]) {
        ReplaceRunsIsRunReplacement(s[1..]);
      } else {
        ReplaceRunsIsRunReplacement(SkipRun(s[1..]));
        ReplaceRunsSkipsRun(s[1..]);
      }
    }
  }

  /** The word characters of `s`, in order. */
  function WordChars(s: string): string {
    if s == [] then [] else (if IsWordChar(s[0]) then [s[0]] else []) + WordChars(s[1..])
  }

  lemma {:induction false} WordCharsAppend(a: string, b: string)
    ensures WordChars(a + b) == WordChars(a) + WordChars(b)
  {
    if a == [] {
      assert a + b == b;
    } else {
      WordCharsAppend(a[1..], b);
      assert (a + b)[0] == a[0];
      assert (a + b)[1..] == a[1..] + b;
      var h := if IsWordChar(a[0]) then [a[0]] else [];
      calc {
        WordChars(a + b);
        h + WordChars(a[1..] + b);
        h + (WordChars(a[1..]) + WordChars(b));
        (h + WordChars(a[1..])) + WordChars(b);
        WordChars(a) + WordChars(b);
      }
    }
  }

  lemma {:induction false} WordCharsStripLeading(s: string)
    ensures WordChars(StripLeadingDashes(s)) == WordChars(s)
  {
    if s != [] && s[0] == '-' {
      WordCharsStripLeading(s[1..]);
    }
  }

  /** Replacing runs loses no letter, digit or underscore and adds none: only dashes and
      disallowed characters differ. */
  lemma {:induction false} ReplaceRunsKeepsWords(s: string, inRun: bool)
    ensures WordChars(ReplaceRuns(s, inRun)) == WordChars(s)
  {
    if s != [] {
      var rest := ReplaceRuns(s[1..], !IsSlugChar(s[0]));
      var head := if IsSlugChar(s[0]) then [s[0]] else if inRun then [] else "-";
      ReplaceRunsKeepsWords(s[1..], !IsSlugChar(s[0]));
      WordCharsAppend(head, rest);
      assert s == [s[0]] + s[1..];
      WordCharsAppend([s[0]], s[1..]);
    }
  }

  /** `toSlug` as written: lower-case, replace runs, strip dashes at both ends, cut to 64
      characters, and fall back to "extension" when nothing is left. The slug keeps the
      name's word characters: all of them, in order, when the lower-cased name has some and
      fits the limit, a non-empty prefix of them otherwise, and the fallback when there are none. */
  function ToSlug(name: string): (r: string)
    ensures 0 < |r| <= SlugLimit
    ensures IsSlug(r)
    ensures r[0] != '-'
    ensures WordChars(ToLowerCase(name)) == [] ==> r == FallbackSlug
    ensures WordChars(ToLowerCase(name)) != [] ==>
      WordChars(r) != [] && WordChars(r) <= WordChars(ToLowerCase(name))
    ensures WordChars(ToLowerCase(name)) != [] && |ToLowerCase(name)| <= SlugLimit ==>
      WordChars(r) == WordChars(ToLowerCase(name))
  {
    var lower := ToLowerCase(name);
    var replaced := ReplaceRuns(lower, false);
    ReplaceRunsKeepsWords(lower, false);
    CutSlugKeepsWords(replaced);
    CutSlug(replaced)
  }

  /** The steps of `toSlug` after the replacement, as written: strip, cut, fall back. What
      is left after stripping is cut to its first 64 characters (see `CutSlugKeepsPrefix`),
      and only an empty remainder gives the fallback. */
  function CutSlug(replaced: string): (r: string)
    requires IsSlug(replaced)
    ensures 0 < |r| <= SlugLimit
    ensures IsSlug(r)
    ensures r[0] != '-'
    ensures var t := StripTrailingDashes(StripLeadingDashes(replaced));
      (t == [] ==> r == FallbackSlug) &&
      (t != [] ==> |r| == if |t| < SlugLimit then |t| else SlugLimit)
    ensures |StripTrailingDashes(StripLeadingDashes(replaced))| >= SlugLimit ==> |r| == SlugLimit
  {
    var left := StripLeadingDashes(replaced);
    var trimmed := StripTrailingDashes(left);
    var n := if |trimmed| < SlugLimit then |trimmed| else SlugLimit;
    var cut := trimmed[..n];
    StripLeadingIsSuffix(replaced);
    StripTrailingIsPrefix(left);
    SlugSuffix(replaced, |replaced| - |left|);
    SlugPrefix(left, n);
    assert cut == left[..n];
    if cut == [] then FallbackIsSlug(); FallbackSlug else cut
  }

  /** `.slice(0, 64)` keeps the beginning: a slug that is not the fallback is a prefix of the
      dash-stripped replacement. */
  lemma CutSlugKeepsPrefix(replaced: string)
    requires IsSlug(replaced)
    ensures var t := StripTrailingDashes(StripLeadingDashes(replaced));
      t != [] ==> CutSlug(replaced) <= t
  {
  }

  lemma FallbackIsSlug()
    ensures 0 < |FallbackSlug| <= SlugLimit && IsSlug(FallbackSlug)
    ensures FallbackSlug[0] != '-' && FallbackSlug[|FallbackSlug| - 1] != '-'
  {
  }

  lemma SlugSuffix(s: string, i: nat)
    requires IsSlug(s) && i <= |s|
    ensures IsSlug(s[i..])
  {
    assert forall k :: 0 <= k < |s| - i ==> s[i..][k] == s[i + k];
  }

  lemma SlugPrefix(s: string, n: nat)
    requires IsSlug(s) && n <= |s|
    ensures IsSlug(s[..n])
  {
    assert forall k :: 0 <= k < n ==> s[..n][k] == s[k];
  }

  /** The cut keeps the word characters: all of them when there are some and the
      replacement fits the limit, a non-empty prefix of them otherwise, and the fallback
      when there are none. */
  lemma CutSlugKeepsWords(replaced: string)
    requires IsSlug(replaced)
    ensures WordChars(replaced) == [] ==> CutSlug(replaced) == FallbackSlug
    ensures WordChars(replaced) != [] ==>
      WordChars(CutSlug(replaced)) != [] && WordChars(CutSlug(replaced)) <= WordChars(replaced)
    ensures WordChars(replaced) != [] && |replaced| <= SlugLimit ==>
      WordChars(CutSlug(replaced)) == WordChars(replaced)
  {
    if WordChars(replaced) != [] && |replaced| <= SlugLimit {
      ShortSlugKeepsWords(replaced);
    }
    var left := StripLeadingDashes(replaced);
    var trimmed := StripTrailingDashes(left);
    TrimDashesKeepsWords(replaced);
    if trimmed != [] {
      var r := CutSlug(replaced);
      CutSlugKeepsPrefix(replaced);
      PrefixWords(trimmed, |r|);
      assert r == trimmed[..|r|];
      StripLeadingIsSuffix(replaced);
      StripTrailingIsPrefix(left);
      assert trimmed[0] == left[0] == replaced[|replaced| - |left|];
      LeadingWord(trimmed);
      LeadingWord(r);
    }
  }

  /** A replacement within the limit is not cut: the slug is the dash-stripped replacement. */
  lemma ShortSlugKeepsWords(replaced: string)
    requires IsSlug(replaced) && WordChars(replaced) != [] && |replaced| <= SlugLimit
    ensures WordChars(CutSlug(replaced)) == WordChars(replaced)
  {
    var left := StripLeadingDashes(replaced);
    var trimmed := StripTrailingDashes(left);
    TrimDashesKeepsWords(replaced);
    assert trimmed != [];
    CutSlugKeepsPrefix(replaced);
    var r := CutSlug(replaced);
    assert |r| == |trimmed|;
    assert r == trimmed;
  }

  /** Stripping dashes at both ends keeps every word character. */
  lemma TrimDashesKeepsWords(s: string)
    ensures WordChars(StripTrailingDashes(StripLeadingDashes(s))) == WordChars(s)
  {
    WordCharsStripLeading(s);
    WordCharsStripTrailing(StripLeadingDashes(s));
  }

  lemma {:induction false} WordCharsStripTrailing(s: string)
    ensures WordChars(StripTrailingDashes(s)) == WordChars(s)
  {
    if s != [] && s[|s| - 1] == '-' {
      var init := s[..|s| - 1];
      assert s == init + ['-'];
      WordCharsAppend(init, ['-']);
      assert WordChars(['-']) == [];
      WordCharsStripTrailing(init);
    }
  }

  /** The word characters of a prefix are a prefix of the word characters. */
  lemma PrefixWords(t: string, n: nat)
    requires n <= |t|
    ensures WordChars(t[..n]) <= WordChars(t)
  {
    var x := t[..n];
    var y := t[n..];
    assert t == x + y;
    WordCharsAppend(x, y);
    var wx := WordChars(x);
    assert WordChars(t) == wx + WordChars(y);
  }

  /** A string that starts with a word character has word characters. */
  lemma LeadingWord(s: string)
    requires s != [] && IsWordChar(s[0])
    ensures WordChars(s) != [] && WordChars(s)[0] == s[0]
  {
  }

  /** `toSlug` as it was evidently meant: no dash at either end, including after the cut. */
  function ToSlugTrimmed(name: string): (r: string)
    ensures 0 < |r| <= SlugLimit
    ensures IsSlug(r)
    ensures r[0] != '-' && r[|r| - 1] != '-'
  {
    CutSlugTrimmed(ReplaceRuns(ToLowerCase(name), false))
  }

  /** The corrected steps after the replacement: strip leading dashes, cut, then strip the
      trailing dashes of what was cut. */
  function CutSlugTrimmed(replaced: string): (r: string)
    requires IsSlug(replaced)
    ensures 0 < |r| <= SlugLimit
    ensures IsSlug(r)
    ensures r[0] != '-' && r[|r| - 1] != '-'
  {
    var left := StripLeadingDashes(replaced);
    var m := if |left| < SlugLimit then |left| else SlugLimit;
    var cut := StripTrailingDashes(left[..m]);
    StripLeadingIsSuffix(replaced);
    StripTrailingIsPrefix(left[..m]);
    SlugSuffix(replaced, |replaced| - |left|);
    SlugPrefix(left, m);
    SlugPrefix(left[..m], |cut|);
    if cut == [] then FallbackIsSlug(); FallbackSlug else cut
  }

  /** The correction only strips the dashes the cut leaves at the end of the written slug. */
  lemma ToSlugTrimmedStripsTrailingDashes(name: string)
    ensures ToSlugTrimmed(name) == StripTrailingDashes(ToSlug(name))
  {
    CutSlugTrimmedStripsTrailingDashes(ReplaceRuns(ToLowerCase(name), false));
  }

  lemma CutSlugTrimmedStripsTrailingDashes(replaced: string)
    requires IsSlug(replaced)
    ensures CutSlugTrimmed(replaced) == StripTrailingDashes(CutSlug(replaced))
  {
    StripCutCommute(StripLeadingDashes(replaced));
  }

  /** On a string with no leading dash: cutting to the limit and then stripping the trailing
      dashes (with the fallback) is stripping, cutting, falling back and stripping again. */
  lemma StripCutCommute(left: string)
    requires left == [] || left[0] != '-'
    ensures var t := StripTrailingDashes(left);
      var c := t[..if |t| < SlugLimit then |t| else SlugLimit];
      var d := StripTrailingDashes(left[..if |left| < SlugLimit then |left| else SlugLimit]);
      (if d == [] then FallbackSlug else d) == StripTrailingDashes(if c == [] then FallbackSlug else c)
  {
    var t := StripTrailingDashes(left);
    var m := if |left| < SlugLimit then |left| else SlugLimit;
    StripTrailingIsPrefix(left);
    FallbackIsSlug();
    if |t| < SlugLimit {
      StripTrailingOfPrefix(left, m);
      assert t[..|t|] == t;
      StripTrailingFixed(if t == [] then FallbackSlug else t);
    } else {
      var c := t[..SlugLimit];
      assert m == SlugLimit;
      PrefixOfPrefix(left, t, SlugLimit);
      StripTrailingIsPrefix(c);
      assert c[0] != '-';
      assert StripTrailingDashes(c) != [];
    }
  }

  /** A prefix of a prefix is a prefix of the whole. */
  lemma PrefixOfPrefix(s: string, t: string, n: nat)
    requires |t| <= |s| && t == s[..|t|] && n <= |t|
    ensures t[..n] == s[..n]
  {
    forall i | 0 <= i < n ensures t[..n][i] == s[..n][i] {
      assert t[i] == s[i];
    }
  }

  /** Cutting after the last non-dash character does not change what stripping the trailing
      dashes leaves. */
  lemma StripTrailingOfPrefix(s: string, m: nat)
    requires |StripTrailingDashes(s)| <= m <= |s|
    ensures StripTrailingDashes(s[..m]) == StripTrailingDashes(s)
  {
    var t := StripTrailingDashes(s);
    StripTrailingIsPrefix(s);
    var dashes := s[|t|..m];
    assert forall i :: 0 <= i < |dashes| ==> dashes[i] == '-' by {
      forall i | 0 <= i < |dashes| ensures dashes[i] == '-' {
        assert s[|t| + i] == '-';
      }
    }
    assert s[..m] == t + dashes;
    StripTrailingPadded(t, dashes);
  }

  lemma StripTrailingFixed(t: string)
    requires t == [] || t[|t| - 1] != '-'
    ensures StripTrailingDashes(t) == t
  {
  }

  /** Stripping trailing dashes from `t` followed by dashes gives back `t`, when `t` does not
      end with a dash itself. */
  lemma {:induction false} StripTrailingPadded(t: string, dashes: string)
    requires t == [] || t[|t| - 1] != '-'
    requires forall i :: 0 <= i < |dashes| ==> dashes[i] == '-'
    ensures StripTrailingDashes(t + dashes) == t
    decreases |dashes|
  {
    if dashes == [] {
      assert t + dashes == t;
    } else {
      var shorter := dashes[..|dashes| - 1];
      assert (t + dashes)[..|t + dashes| - 1] == t + shorter;
      StripTrailingPadded(t, shorter);
    }
  }

  /** `n` copies of `c`. */
  function Repeat(c: char, n: nat): (r: string)
    ensures |r| == n && forall i :: 0 <= i < n ==> r[i] == c
  {
    if n == 0 then [] else [c] + Repeat(c, n - 1)
  }

  /** One slug character in front passes through the replacement unchanged. */
  lemma ReplaceRunsCons(c: char, t: string, inRun: bool)
    requires IsSlugChar(c)
    ensures ReplaceRuns([c] + t, inRun) == [c] + ReplaceRuns(t, false)
  {
    assert ([c] + t)[1..] == t;
  }

  lemma {:induction false} ReplaceRunsKeepsSlugPrefix(p: string, t: string)
    requires IsSlug(p)
    ensures ReplaceRuns(p + t, false) == p + ReplaceRuns(t, false)
  {
    if p == [] {
      assert p + t == t;
    } else {
      var rest := p[1..];
      assert IsSlugChar(p[0]);
      assert IsSlug(rest) by {
        forall i | 0 <= i < |rest| ensures IsSlugChar(rest[i]) {
          assert rest[i] == p[i + 1];
        }
      }
      ReplaceRunsKeepsSlugPrefix(rest, t);
      assert p + t == [p[0]] + (rest + t);
      ReplaceRunsCons(p[0], rest + t, false);
      assert p + ReplaceRuns(t, false) == [p[0]] + (rest + ReplaceRuns(t, false));
    }
  }

  /** The cut can put a dash back at the end: 63 letters, a space and a letter give a slug of
      the 63 letters and a trailing dash. */
  /** "My Ext": the capitals become small letters and the space becomes a dash. */
  lemma ToSlugExample()
    ensures ToSlug("My Ext") == "my-ext"
  {
    LowerExample();
    ReplaceExample();
    var replaced := "my-ext";
    assert StripLeadingDashes(replaced) == replaced;
    assert StripTrailingDashes(replaced) == replaced;
    CutSlugKeepsPrefix(replaced);
    assert |CutSlug(replaced)| == 6;
  }

  lemma LowerExample()
    ensures ToLowerCase("My Ext") == "my ext"
  {
    ToLowerCaseAscii("My Ext");
  }

  lemma ReplaceExample()
    ensures ReplaceRuns("my ext", false) == "my-ext"
  {
    var e := ReplaceRuns("ext", false);
    assert "ext"[1..] == "xt" && "xt"[1..] == "t" && "t"[1..] == [];
    assert e == "ext";
    assert " ext"[1..] == "ext";
    assert ReplaceRuns(" ext", false) == "-" + e;
    assert "my ext"[1..] == "y ext" && "y ext"[1..] == " ext";
    assert ReplaceRuns("y ext", false) == "y" + ReplaceRuns(" ext", false);
  }

  lemma ToSlugCanEndWithDash()
    ensures var r := ToSlug(Repeat('a', 63) + " b"); |r| == 64 && r[63] == '-'
  {
    var p := Repeat('a', 63);
    var name := p + " b";
    LongNameReplaced(p);
    CutLongSlug(p);
    assert ToSlug(name) == CutSlug(ReplaceRuns(ToLowerCase(name), false));
  }

  lemma LongNameReplaced(p: string)
    requires p == Repeat('a', 63)
    ensures ReplaceRuns(ToLowerCase(p + " b"), false) == p + "-b"
  {
    var name := p + " b";
    assert forall i :: 0 <= i < |name| ==> IsLowerFixed(name[i]) by {
      forall i | 0 <= i < |name| ensures IsLowerFixed(name[i]) {
        if i < 63 { assert name[i] == 'a'; }
      }
    }
    ToLowerCaseFixed(name);
    assert "b"[1..] == [];
    assert ReplaceRuns("b", true) == "b";
    assert " b"[1..] == "b" && !IsSlugChar(" b"[0]);
    assert "-" + "b" == "-b";
    assert ReplaceRuns(" b", false) == "-b";
    assert IsSlug(p);
    ReplaceRunsKeepsSlugPrefix(p, " b");
  }

  lemma CutLongSlug(p: string)
    requires p == Repeat('a', 63)
    ensures IsSlug(p + "-b") && CutSlug(p + "-b") == p + "-"
  {
    var replaced := p + "-b";
    assert IsSlug(replaced);
    assert replaced[0] == 'a' && replaced[|replaced| - 1] == 'b';
    assert StripLeadingDashes(replaced) == replaced;
    assert StripTrailingDashes(replaced) == replaced;
    assert replaced[..64] == p + "-";
  }

  // ---------------------------------------------------------------------------
  // toKeywords

  /** Non-empty, with no white space at either end. */
  predicate IsTrimmedWord(k: string) {
    k != [] && HasTrimmedEnds(k)
  }

  /** `.map((s) => s.trim())`. */
  function TrimAll(pieces: seq<string>): (r: seq<string>)
    ensures |r| == |pieces|
    ensures forall i :: 0 <= i < |r| ==> r[i] == Trim(pieces[i])
  {
    if pieces == [] then []
    else
      var head, rest := Trim(pieces[0]), TrimAll(pieces[1..]);
      assert forall i :: 0 < i <= |rest| ==> ([head] + rest)[i] == rest[i - 1];
      [head] + rest
  }

  /** `.filter(Boolean)` on strings: the non-empty ones, in order. */
  function NonEmpty(pieces: seq<string>): (r: seq<string>)
    ensures |r| <= |pieces|
    ensures forall i :: 0 <= i < |r| ==> r[i] != [] && r[i] in pieces
    ensures forall i :: 0 <= i < |pieces| && pieces[i] != [] ==> pieces[i] in r
  {
    if pieces == [] then []
    else (if pieces[0] == [] then [] else [pieces[0]]) + NonEmpty(pieces[1..])
  }

  lemma {:induction false} NonEmptyAppend(a: seq<string>, b: seq<string>)
    ensures NonEmpty(a + b) == NonEmpty(a) + NonEmpty(b)
  {
    if a == [] {
      assert a + b == b;
    } else {
      assert (a + b)[0] == a[0];
      assert (a + b)[1..] == a[1..] + b;
      NonEmptyAppend(a[1..], b);
    }
  }

  lemma {:induction false} TrimAllAppend(a: seq<string>, b: seq<string>)
    ensures TrimAll(a + b) == TrimAll(a) + TrimAll(b)
  {
    if a == [] {
      assert a + b == b;
    } else {
      assert (a + b)[0] == a[0];
      assert (a + b)[1..] == a[1..] + b;
      TrimAllAppend(a[1..], b);
    }
  }

  /** `toKeywords`: the comma-separated pieces, trimmed, empty ones dropped; at most one
      keyword more than there are commas. */
  function ToKeywords(input: string): (r: seq<string>)
    ensures |r| <= Count(input, ',') + 1
    ensures forall i :: 0 <= i < |r| ==> IsTrimmedWord(r[i])
  {
    NonEmpty(TrimAll(Split(input, ',')))
  }

  /** No keyword holds a comma. */
  lemma KeywordsHaveNoComma(input: string)
    ensures forall i :: 0 <= i < |ToKeywords(input)| ==> ',' !in ToKeywords(input)[i]
  {
    var pieces := Split(input, ',');
    var trimmed := TrimAll(pieces);
    SplitOmitsSeparator(input, ',');
    forall j | 0 <= j < |trimmed| ensures ',' !in trimmed[j] {
      TrimKeepsOut(pieces[j], ',');
    }
  }

  /** Keywords keep input order: those before a comma come first, those after it next. */
  lemma KeywordsConcat(a: string, b: string)
    ensures ToKeywords(a + "," + b) == ToKeywords(a) + ToKeywords(b)
  {
    assert a + "," + b == a + [','] + b;
    SplitConcat(a, b, ',');
    TrimAllAppend(Split(a, ','), Split(b, ','));
    NonEmptyAppend(TrimAll(Split(a, ',')), TrimAll(Split(b, ',')));
  }

  /** A piece without commas is one keyword, its trimmed text, or none when it is blank. */
  lemma KeywordsOfPiece(s: string)
    requires ',' !in s
    ensures ToKeywords(s) == if IsBlank(s) then [] else [Trim(s)]
  {
    SplitWithout(s, ',');
    assert TrimAll([s]) == [Trim(s)];
  }

  // ---------------------------------------------------------------------------
  // parseArgs

  /** The string options of the command line, in the order their flags are checked. */
  datatype Field = Description | Url | Author | Icon | Keywords | Media

  function FlagName(f: Field): string {
    match f
    case Description => "--description"
    case Url => "--url"
    case Author => "--author"
    case Icon => "--icon"
    case Keywords => "--keywords"
    case Media => "--media"
  }

  const FieldOrder: seq<Field> := [Description, Url, Author, Icon, Keywords, Media]

  /** Every flag is `--` and a name without `=`, and no two flags have the same length. */
  lemma FlagNameShape(f: Field)
    ensures |FlagName(f)| >= 5 && FlagName(f)[0] == '-' && FlagName(f)[1] == '-'
    ensures '=' !in FlagName(f)
    ensures forall g :: g != f ==> |FlagName(g)| != |FlagName(f)|
  {
  }

  /** `CliOptions`: `yes` and the optional string fields. */
  datatype CliOptions = CliOptions(
    yes: bool,
    name: Option<string>,
    description: Option<string>,
    url: Option<string>,
    author: Option<string>,
    icon: Option<string>,
    keywords: Option<string>,
    media: Option<string>)

  const Initial: CliOptions := CliOptions(false, None, None, None, None, None, None, None)

  function FieldValue(o: CliOptions, f: Field): Option<string> {
    match f
    case Description => o.description
    case Url => o.url
    case Author => o.author
    case Icon => o.icon
    case Keywords => o.keywords
    case Media => o.media
  }

  /** Sets one field and nothing else. */
  function WithField(o: CliOptions, f: Field, v: string): (r: CliOptions)
    ensures FieldValue(r, f) == Some(v)
    ensures forall g :: g != f ==> FieldValue(r, g) == FieldValue(o, g)
    ensures r.yes == o.yes && r.name == o.name
  {
    match f
    case Description => o.(description := Some(v))
    case Url => o.(url := Some(v))
    case Author => o.(author := Some(v))
    case Icon => o.(icon := Some(v))
    case Keywords => o.(keywords := Some(v))
    case Media => o.(media := Some(v))
  }

  /** What one command-line token asks for. */
  datatype TokenKind =
    | YesFlag                           // -y or --yes
    | FlagWithNext(field: Field)         // --flag, whose value is the next token
    | FlagInline(field: Field, value: string)   // --flag=value
    | Positional                        // anything not starting with a dash
    | Ignored                           // an unknown dash token

  /** `token.split("=", 2)[1] ?? ""`: the text between the first and the second `=`. */
  function InlineValue(token: string): (v: string)
    ensures '=' !in v
    ensures '=' !in token ==> v == []
  {
    var parts := Split(token, '=');
    SplitOmitsSeparator(token, '=');
    if '=' !in token then SplitWithout(token, '='); ""
    else if |parts| >= 2 then parts[1] else ""
  }

  /** The flag checks of `parseArgs`, tried for the fields in order. */
  function ClassifyFlag(token: string, fields: seq<Field>): (k: TokenKind)
    ensures !k.YesFlag?
    ensures k.FlagWithNext? ==> k.field in fields && token == FlagName(k.field)
    ensures k.FlagInline? ==>
      k.field in fields && StartsWith(token, FlagName(k.field) + "=") && k.value == InlineValue(token)
    ensures k.Positional? <==> !StartsWith(token, "-")
    ensures k.Ignored? ==> forall f :: f in fields ==>
      token != FlagName(f) && !StartsWith(token, FlagName(f) + "=")
  {
    FlagNameShape(if fields == [] then Url else fields[0]);
    if fields == [] then
      if !StartsWith(token, "-") then Positional else Ignored
    else if token == FlagName(fields[0]) then FlagWithNext(fields[0])
    else if StartsWith(token, FlagName(fields[0]) + "=") then FlagInline(fields[0], InlineValue(token))
    else ClassifyFlag(token, fields[1..])
  }

  function ClassifyToken(token: string): (k: TokenKind)
    ensures k.YesFlag? <==> IsYesToken(token)
    ensures k.FlagWithNext? ==> token == FlagName(k.field)
    ensures k.FlagInline? ==> StartsWith(token, FlagName(k.field) + "=") && k.value == InlineValue(token)
    ensures k.Positional? <==> !StartsWith(token, "-")
  {
    if token == "-y" || token == "--yes" then YesFlag else ClassifyFlag(token, FieldOrder)
  }

  /** The flag checks find field `f` when no other field's flag matches the token. */
  lemma {:induction false} ClassifyFlagFinds(token: string, fields: seq<Field>, f: Field)
    requires f in fields
    requires forall g :: g in fields && g != f ==>
      token != FlagName(g) && !StartsWith(token, FlagName(g) + "=")
    ensures token == FlagName(f) ==> ClassifyFlag(token, fields) == FlagWithNext(f)
    ensures token != FlagName(f) && StartsWith(token, FlagName(f) + "=") ==>
      ClassifyFlag(token, fields) == FlagInline(f, InlineValue(token))
  {
    if fields[0] != f {
      ClassifyFlagFinds(token, fields[1..], f);
    }
  }

  /** Each flag selects its own field: `--flag` takes the next token, and `--flag=value`
      carries its value inline. */
  lemma FlagTokens(f: Field, v: string)
    ensures ClassifyToken(FlagName(f)) == FlagWithNext(f)
    ensures ClassifyToken(FlagName(f) + "=" + v) == FlagInline(f, InlineValue(FlagName(f) + "=" + v))
  {
    var name := FlagName(f);
    var inline := name + "=" + v;
    FlagNameShape(f);
    assert f in FieldOrder;
    assert inline[|name|] == '=';
    forall g | g != f
      ensures name != FlagName(g) && !StartsWith(name, FlagName(g) + "=")
      ensures inline != FlagName(g) && !StartsWith(inline, FlagName(g) + "=")
    {
      FlagNameShape(g);
      var other := FlagName(g);
      if |other| < |name| {
        assert (other + "=")[|other|] == '=' && name[|other|] != '=' && inline[|other|] == name[|other|];
      } else {
        assert other[|name|] != '=';
      }
    }
    assert name != "-y" && name != "--yes";
    assert inline != "-y" && inline != "--yes";
    ClassifyFlagFinds(name, FieldOrder, f);
    ClassifyFlagFinds(inline, FieldOrder, f);
    assert StartsWith(inline, name + "=") by {
      assert inline[..|name| + 1] == name + "=";
    }
  }

  /** The positional rule: `if (!out.name) out.name = token`, where an empty name counts
      as unset. */
  function WithName(o: CliOptions, token: string): (r: CliOptions)
    ensures o.name.None? || o.name == Some("") ==> r.name == Some(token)
    ensures o.name.Some? && o.name.value != "" ==> r == o
    ensures r == o.(name := r.name)
  {
    if o.name.None? || o.name == Some("") then o.(name := Some(token)) else o
  }

  /** The index of the token examined after the one at `i`: a `--flag` swallows the next
      token, whatever it is. */
  function Advance(args: seq<string>, i: nat): (j: nat)
    requires i < |args|
    ensures i < j <= |args|
    ensures ClassifyToken(args[i]).FlagWithNext? ==> j == (if i + 1 < |args| then i + 2 else |args|)
    ensures !ClassifyToken(args[i]).FlagWithNext? ==> j == i + 1
  {
    match ClassifyToken(args[i])
    case FlagWithNext(_) => if i + 1 < |args| then i + 2 else |args|
    case _ => i + 1
  }

  /** What the token at `i` does to the options. */
  function Apply(args: seq<string>, i: nat, o: CliOptions): (r: CliOptions)
    requires i < |args|
    ensures r.yes == (o.yes || IsYesToken(args[i]))
    ensures forall f ::
      FieldValue(r, f) == (if Assigns(args, i, f) then Some(AssignedValue(args, i)) else FieldValue(o, f))
    ensures r.name == if ClassifyToken(args[i]).Positional? then WithName(o, args[i]).name else o.name
  {
    match ClassifyToken(args[i])
    case YesFlag => o.(yes := true)
    case FlagWithNext(f) => if i + 1 < |args| then WithField(o, f, args[i + 1]) else o
    case FlagInline(f, v) => WithField(o, f, v)
    case Positional => WithName(o, args[i])
    case Ignored => o
  }

  /** The options after examining the tokens from `i` on, starting from `o`. */
  function ParseFrom(args: seq<string>, i: nat, o: CliOptions): (r: CliOptions)
    ensures o.yes ==> r.yes
    ensures o.name.Some? ==> r.name.Some?
    ensures forall f :: FieldValue(o, f).Some? ==> FieldValue(r, f).Some?
    decreases |args| - i
  {
    if i >= |args| then o else ParseFrom(args, Advance(args, i), Apply(args, i, o))
  }

  /** The positions of the tokens the loop examines (the others are flag values). */
  function Heads(args: seq<string>, i: nat): (h: set<nat>)
    ensures forall k :: k in h ==> i <= k < |args|
    decreases |args| - i
  {
    if i >= |args| then {} else {i} + Heads(args, Advance(args, i))
  }

  /** `parseArgs`: walks the tokens once, left to right. */
  method ParseArgs(args: seq<string>) returns (out: CliOptions)
    ensures out == ParseFrom(args, 0, Initial)
  {
    out := Initial;
    var i := 0;
    while i < |args|
      invariant i <= |args|
      invariant ParseFrom(args, i, out) == ParseFrom(args, 0, Initial)
      decreases |args| - i
    {
      var token := args[i];
      match ClassifyToken(token) {
        case YesFlag =>
          assert Apply(args, i, out) == out.(yes := true) && Advance(args, i) == i + 1;
          out := out.(yes := true);
          i := i + 1;
        case FlagWithNext(f) =>
          if i + 1 < |args| {
            assert Apply(args, i, out) == WithField(out, f, args[i + 1]) && Advance(args, i) == i + 2;
            out := WithField(out, f, args[i + 1]);
            i := i + 2;
          } else {
            assert Apply(args, i, out) == out && Advance(args, i) == |args|;
            i := |args|;
          }
        case FlagInline(f, v) =>
          assert Apply(args, i, out) == WithField(out, f, v) && Advance(args, i) == i + 1;
          out := WithField(out, f, v);
          i := i + 1;
        case Positional =>
          assert Apply(args, i, out) == WithName(out, token) && Advance(args, i) == i + 1;
          if out.name.None? || out.name == Some("") {
            out := out.(name := Some(token));
          }
          i := i + 1;
        case Ignored =>
          assert Apply(args, i, out) == out && Advance(args, i) == i + 1;
          i := i + 1;
      }
    }
  }

  predicate IsYesToken(t: string) {
    t == "-y" || t == "--yes"
  }

  /** `yes` ends up true exactly when it already was or an examined token is -y or --yes. */
  lemma {:induction false} ParseYes(args: seq<string>, i: nat, o: CliOptions)
    ensures ParseFrom(args, i, o).yes <==>
      o.yes || exists k :: k in Heads(args, i) && IsYesToken(args[k])
    decreases |args| - i
  {
    if i < |args| {
      var j := Advance(args, i);
      ParseYes(args, j, Apply(args, i, o));
      if exists k :: k in Heads(args, i) && IsYesToken(args[k]) {
        var k :| k in Heads(args, i) && IsYesToken(args[k]);
        if k != i {
          assert k in Heads(args, j);
        }
      }
    }
  }

  /** The token at `k` sets field `f`: `--flag=value`, or `--flag` with a token after it. */
  predicate Assigns(args: seq<string>, k: nat, f: Field) {
    k < |args| &&
    match ClassifyToken(args[k])
    case FlagWithNext(g) => g == f && k + 1 < |args|
    case FlagInline(g, _) => g == f
    case _ => false
  }

  /** The value the token at `k` gives its field. */
  function AssignedValue(args: seq<string>, k: nat): string
    requires k < |args|
  {
    match ClassifyToken(args[k])
    case FlagInline(_, v) => v
    case _ => if k + 1 < |args| then args[k + 1] else ""
  }

  /** A field no examined token sets keeps its value; a trailing `--flag` sets nothing. */
  lemma {:induction false} ParseUnassigned(args: seq<string>, i: nat, o: CliOptions, f: Field)
    requires forall k :: k in Heads(args, i) ==> !Assigns(args, k, f)
    ensures FieldValue(ParseFrom(args, i, o), f) == FieldValue(o, f)
    decreases |args| - i
  {
    if i < |args| {
      assert i in Heads(args, i);
      ParseUnassigned(args, Advance(args, i), Apply(args, i, o), f);
    }
  }

  /** Repeated flags: the last examined token that sets a field decides its value. */
  lemma {:induction false} ParseLastWins(args: seq<string>, i: nat, o: CliOptions, f: Field, k: nat)
    requires k in Heads(args, i) && Assigns(args, k, f)
    requires forall k' :: k' in Heads(args, i) && k' > k ==> !Assigns(args, k', f)
    ensures FieldValue(ParseFrom(args, i, o), f) == Some(AssignedValue(args, k))
    decreases |args| - i
  {
    var j := Advance(args, i);
    if k == i {
      ParseUnassigned(args, j, Apply(args, i, o), f);
    } else {
      assert k in Heads(args, j);
      ParseLastWins(args, j, Apply(args, i, o), f, k);
    }
  }

  /** A non-empty name is never replaced: later positionals are ignored. */
  lemma {:induction false} ParseKeepsName(args: seq<string>, i: nat, o: CliOptions)
    requires o.name.Some? && o.name.value != ""
    ensures ParseFrom(args, i, o).name == o.name
    decreases |args| - i
  {
    if i < |args| {
      ParseKeepsName(args, Advance(args, i), Apply(args, i, o));
    }
  }

  /** `--flag=value`: only the text up to the next `=` is kept. */
  lemma InlineValueUpToEquals(flag: string, v: string)
    requires '=' !in flag
    ensures InlineValue(flag + "=" + v) == Split(v, '=')[0]
  {
    SplitConcat(flag, v, '=');
    SplitWithout(flag, '=');
    assert flag + "=" + v == flag + ['='] + v;
  }

  /** A `--flag` followed by a dash token takes it as its value, and -y is then not seen. */
  lemma FlagSwallowsDashToken()
    ensures ParseFrom(["--url", "-y"], 0, Initial) == Initial.(url := Some("-y"))
  {
    assert ClassifyToken("--url") == FlagWithNext(Url);
  }

  // ---------------------------------------------------------------------------
  // askOr

  /** What `prompt` resolves to once the user has typed `typed`: the trimmed answer, or the
      default when that is empty. */
  function PromptAnswer(typed: string, default: string): (r: string)
    ensures IsBlank(typed) ==> r == default
    ensures !IsBlank(typed) ==> r == Trim(typed) && IsTrimmedWord(r)
    ensures r == [] ==> default == []
  {
    var ans := Trim(typed);
    if |ans| > 0 then ans else default
  }

  /** `askOr`: an explicit option wins; otherwise non-interactive mode takes the default and
      interactive mode the prompt's answer. What the user types is a parameter, since the
      prompt reads standard input. */
  function AskOr(option: Option<string>, question: string, default: string,
                 nonInteractive: bool, typed: string): (r: string)
    ensures option.Some? ==> r == option.value
    ensures option.None? && nonInteractive ==> r == default
    ensures option.None? && !nonInteractive ==> r == PromptAnswer(typed, default)
    ensures option.None? && !nonInteractive && !IsBlank(typed) ==> r == Trim(typed)
    ensures option.None? && default != [] ==> r != []
  {
    if option.Some? then option.value
    else if nonInteractive then default
    else PromptAnswer(typed, default)
  }

  /** An empty or blank answer takes the default, whatever the mode. */
  lemma BlankAnswerTakesDefault(question: string, default: string, nonInteractive: bool,
                                typed: string)
    requires IsBlank(typed)
    ensures AskOr(None, question, default, nonInteractive, typed) == default
  {
  }
}

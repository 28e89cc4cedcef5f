/**
 * The product service's file-name normaliser: the part before the last dot is
 * reduced to `[a-z0-9_-]` with no doubled underscore, and the extension is
 * lower-cased.
 */
module Sanitize {
  import opened Ascii
  import opened FileValidator

  /** `[a-zA-Z0-9_-]`: what the second replacement keeps. */
  predicate IsWordChar(c: char) { IsUpper(c) || IsLower(c) || IsDigit(c) || c == '_' || c == '-' }

  /** `[a-z0-9_-]`: what a sanitized name is made of. */
  predicate IsSafeNameChar(c: char) { IsLower(c) || IsDigit(c) || c == '_' || c == '-' }

  predicate AllSafe(s: string) { forall k :: 0 <= k < |s| ==> IsSafeNameChar(s[k]) }

  predicate NoDoubleUnderscore(s: string) {
    forall k :: 0 <= k < |s| - 1 ==> !(s[k] == '_' && s[k + 1] == '_')
  }

  predicate AtMostOneDot(s: string) {
    forall j, k :: 0 <= j < |s| && 0 <= k < |s| && s[j] == '.' && s[k] == '.' ==> j == k
  }

  /** The two character classes whose runs the normaliser collapses: `\s+` and `_{2,}`. */
  datatype RunClass = WhiteSpace | Underscore

  predicate InRun(cls: RunClass, c: char) {
    match cls
    case WhiteSpace => IsSpace(c)
    case Underscore => c == '_'
  }

  /** Drops the leading characters of the class. */
  function SkipRun(s: string, cls: RunClass): (r: string)
    ensures |r| <= |s| && r == s[|s| - |r|..]
    ensures r == [] || !InRun(cls, r[0])
    decreases |s|
  {
    if |s| > 0 && InRun(cls, s[0]) then SkipRun(s[1..], cls) else s
  }

  /** Replaces every maximal run of characters of the class by one underscore: the global
      replacements `/\s+/g` and, since a lone underscore replaced by an underscore is unchanged,
      `/_{2,}/g` as well. */
  function CollapseRuns(s: string, cls: RunClass): (r: string)
    ensures |s| > 0 ==> |r| > 0 && r[0] == (if InRun(cls, s[0]) then '_' else s[0])
    decreases |s|
  {
    if |s| == 0 then []
    else if InRun(cls, s[0]) then "_" + CollapseRuns(SkipRun(s[1..], cls), cls)
    else [s[0]] + CollapseRuns(s[1..], cls)
  }

  /** Every character of `r` is an underscore or a character of `src` outside the class, and no
      two characters of the class stand side by side in `r`. */
  predicate CollapsedFrom(r: string, src: string, cls: RunClass) {
    && (forall k :: 0 <= k < |r| ==> r[k] == '_' || (r[k] in src && !InRun(cls, r[k])))
    && (forall k :: 0 <= k < |r| - 1 ==> !(InRun(cls, r[k]) && InRun(cls, r[k + 1])))
  }

  /** The step of the shape proof: an admissible first character before a collapsed rest. */
  lemma ConsCollapsed(x: char, rest: string, t: string, s: string, cls: RunClass)
    requires CollapsedFrom(rest, t, cls)
    requires forall c :: c in t ==> c in s
    requires x == '_' || (x in s && !InRun(cls, x))
    requires |rest| > 0 && InRun(cls, x) ==> !InRun(cls, rest[0])
    ensures CollapsedFrom([x] + rest, s, cls)
  {
    var r := [x] + rest;
    forall k | 0 < k < |r|
      ensures r[k] == '_' || (r[k] in s && !InRun(cls, r[k]))
    {
      assert r[k] == rest[k - 1];
    }
    forall k | 0 <= k < |r| - 1
      ensures !(InRun(cls, r[k]) && InRun(cls, r[k + 1]))
    {
      assert r[k + 1] == rest[k];
      if k > 0 {
        assert r[k] == rest[k - 1];
      }
    }
  }

  /** Every character left after skipping a run behind the first character was in the text. */
  lemma SkipRunKeepsMembers(s: string, cls: RunClass)
    requires |s| > 0
    ensures forall c :: c in SkipRun(s[1..], cls) ==> c in s
  {
    var t := SkipRun(s[1..], cls);
    forall c | c in t
      ensures c in s
    {
      var j :| 0 <= j < |t| && t[j] == c;
      assert c == s[|s| - |t| + j];
    }
  }

  /** Every character CollapseRuns emits is an underscore or a character of the input outside
      the runs, and no two characters of the class survive side by side. */
  lemma {:induction false} CollapseRunsShape(s: string, cls: RunClass)
    ensures CollapsedFrom(CollapseRuns(s, cls), s, cls)
    decreases |s|
  {
    if |s| > 0 {
      if InRun(cls, s[0]) {
        var t := SkipRun(s[1..], cls);
        CollapseRunsShape(t, cls);
        SkipRunKeepsMembers(s, cls);
        ConsCollapsed('_', CollapseRuns(t, cls), t, s, cls);
        assert CollapseRuns(s, cls) == ['_'] + CollapseRuns(t, cls);
      } else {
        CollapseRunsShape(s[1..], cls);
        assert forall c :: c in s[1..] ==> c in s;
        ConsCollapsed(s[0], CollapseRuns(s[1..], cls), s[1..], s, cls);
      }
    }
  }

  /** The reference reading of replacing every maximal run of the class by `_`, one character
      at a time: a character outside the class is kept; one of the class becomes `_` when it
      starts a run, that is when the character before it (`afterRun`) is not of the class, and
      vanishes otherwise. */
  function RunPieces(s: string, cls: RunClass, afterRun: bool): string
    decreases |s|
  {
    if |s| == 0 then ""
    else
      var piece := if !InRun(cls, s[0]) then [s[0]] else if afterRun then "" else "_";
      piece + RunPieces(s[1..], cls, InRun(cls, s[0]))
  }

  /** Inside a run the reference emits nothing until the run ends. */
  lemma {:induction false} RunPiecesAfterRun(s: string, cls: RunClass)
    ensures RunPieces(s, cls, true) == RunPieces(SkipRun(s, cls), cls, false)
    decreases |s|
  {
    if |s| > 0 && InRun(cls, s[0]) {
      RunPiecesAfterRun(s[1..], cls);
    }
  }

  /** CollapseRuns is the reference reading: each character outside the class kept in place, and
      each maximal run of the class replaced by one underscore where it starts. */
  lemma {:induction false} CollapseRunsSpec(s: string, cls: RunClass)
    ensures CollapseRuns(s, cls) == RunPieces(s, cls, false)
    decreases |s|
  {
    if |s| > 0 {
      if InRun(cls, s[0]) {
        RunPiecesAfterRun(s[1..], cls);
        CollapseRunsSpec(SkipRun(s[1..], cls), cls);
      } else {
        CollapseRunsSpec(s[1..], cls);
      }
    }
  }

  /** `replace(/[^a-zA-Z0-9_-]/g, '')`: keeps the word characters, in order. */
  function KeepWordChars(s: string): (r: string)
    decreases |s|
  {
    if |s| == 0 then []
    else (if IsWordChar(s[0]) then [s[0]] else []) + KeepWordChars(s[1..])
  }

  /** KeepWordChars leaves only word characters, and every word character of the input. */
  lemma {:induction false} KeepWordCharsShape(s: string)
    ensures forall k :: 0 <= k < |KeepWordChars(s)| ==> IsWordChar(KeepWordChars(s)[k])
    ensures forall k :: 0 <= k < |s| && IsWordChar(s[k]) ==> s[k] in KeepWordChars(s)
    decreases |s|
  {
    if |s| > 0 {
      KeepWordCharsShape(s[1..]);
      forall k | 0 <= k < |s| && IsWordChar(s[k])
        ensures s[k] in KeepWordChars(s)
      {
        if k > 0 {
          assert s[k] == s[1..][k - 1];
        }
      }
    }
  }

  /** KeepWordChars is a filter: it works character by character, keeping a word character and
      dropping any other, and the pieces stay in input order. */
  lemma KeepWordCharsFilter(a: string, b: string, c: char)
    ensures KeepWordChars([c]) == (if IsWordChar(c) then [c] else [])
    ensures KeepWordChars(a + b) == KeepWordChars(a) + KeepWordChars(b)
  {
    assert [c][1..] == [];
    KeepWordCharsAppend(a, b);
  }

  lemma {:induction false} KeepWordCharsAppend(a: string, b: string)
    ensures KeepWordChars(a + b) == KeepWordChars(a) + KeepWordChars(b)
    decreases |a|
  {
    if |a| == 0 {
      assert a + b == b;
    } else {
      var ab := a + b;
      assert ab[0] == a[0];
      assert ab[1..] == a[1..] + b;
      KeepWordCharsAppend(a[1..], b);
      var piece := if IsWordChar(a[0]) then [a[0]] else [];
      assert KeepWordChars(ab) == piece + (KeepWordChars(a[1..]) + KeepWordChars(b));
      assert KeepWordChars(a) == piece + KeepWordChars(a[1..]);
    }
  }

  /** The name part of `sanitizeFilename`: white-space runs become `_`, everything outside
      `[a-zA-Z0-9_-]` is dropped, underscore runs collapse, and the result is lower-cased. */
  function SanitizeName(name: string): string {
    ToLower(CollapseRuns(KeepWordChars(CollapseRuns(name, WhiteSpace)), Underscore))
  }

  /** The part before the last dot, or the whole name when that dot is missing or first. */
  function NamePart(filename: string): string {
    var i := LastIndexOf(filename, '.');
    if i > 0 then filename[..i] else filename
  }

  /** The part from the last dot on, or nothing when that dot is missing or first. */
  function ExtensionPart(filename: string): string {
    var i := LastIndexOf(filename, '.');
    if i > 0 then filename[i..] else ""
  }

  /** `sanitizeFilename`: sanitize the name part, lower-case the extension part. */
  function SanitizeFilename(filename: string): string {
    SanitizeName(NamePart(filename)) + ToLower(ExtensionPart(filename))
  }

  /** A sanitized name consists of `[a-z0-9_-]` only and never holds two underscores in a row. */
  lemma {:induction false} SanitizeNameShape(name: string)
    ensures AllSafe(SanitizeName(name))
    ensures NoDoubleUnderscore(SanitizeName(name))
  {
    var w := KeepWordChars(CollapseRuns(name, WhiteSpace));
    KeepWordCharsShape(CollapseRuns(name, WhiteSpace));
    var u := CollapseRuns(w, Underscore);
    CollapseRunsShape(w, Underscore);
    forall k | 0 <= k < |u|
      ensures IsWordChar(u[k])
    {
      if u[k] != '_' {
        var c := u[k];
        assert c in w;
        var j :| 0 <= j < |w| && w[j] == c;
      }
    }
    var r := ToLower(u);
    forall k | 0 <= k < |r|
      ensures IsSafeNameChar(r[k])
    {
      LowerCharFixesNonLetters(u[k]);
    }
    forall k | 0 <= k < |r| - 1
      ensures !(r[k] == '_' && r[k + 1] == '_')
    {
      LowerCharFixesNonLetters(u[k]);
      LowerCharFixesNonLetters(u[k + 1]);
      assert !(InRun(Underscore, u[k]) && InRun(Underscore, u[k + 1]));
    }
  }

  /** Text without characters of the class passes through CollapseRuns unchanged. */
  lemma {:induction false} CollapseRunsNothingToCollapse(s: string, cls: RunClass)
    requires forall k :: 0 <= k < |s| ==> !InRun(cls, s[k])
    ensures CollapseRuns(s, cls) == s
    decreases |s|
  {
    if |s| > 0 {
      CollapseRunsNothingToCollapse(s[1..], cls);
    }
  }

  /** Text without a doubled underscore passes through the underscore collapse unchanged. */
  lemma {:induction false} CollapseUnderscoresIdle(s: string)
    requires NoDoubleUnderscore(s)
    ensures CollapseRuns(s, Underscore) == s
    decreases |s|
  {
    if |s| > 0 {
      assert NoDoubleUnderscore(s[1..]);
      CollapseUnderscoresIdle(s[1..]);
      if s[0] == '_' {
        assert SkipRun(s[1..], Underscore) == s[1..];
      }
    }
  }

  /** Text of word characters only passes through KeepWordChars unchanged. */
  lemma {:induction false} KeepWordCharsIdle(s: string)
    requires forall k :: 0 <= k < |s| ==> IsWordChar(s[k])
    ensures KeepWordChars(s) == s
    decreases |s|
  {
    if |s| > 0 {
      KeepWordCharsIdle(s[1..]);
    }
  }

  /** Sanitizing a sanitized name changes nothing. */
  lemma {:induction false} SanitizeNameIdempotent(name: string)
    ensures SanitizeName(SanitizeName(name)) == SanitizeName(name)
  {
    var m := SanitizeName(name);
    SanitizeNameShape(name);
    CollapseRunsNothingToCollapse(m, WhiteSpace);
    KeepWordCharsIdle(m);
    CollapseUnderscoresIdle(m);
    assert ToLower(m) == m;
  }

  /** The text after the last dot holds no dot. */
  lemma AfterLastDot(filename: string)
    requires LastIndexOf(filename, '.') >= 0
    ensures NoDot(filename[LastIndexOf(filename, '.') + 1..])
  {
    var i := LastIndexOf(filename, '.');
    var rest := filename[i + 1..];
    forall k | 0 <= k < |rest|
      ensures rest[k] != '.'
    {
      assert rest[k] == filename[i + 1 + k];
    }
  }

  /** Lower-casing a dot followed by dot-free text keeps exactly one dot, at the front. */
  lemma LowerExtensionDots(rest: string)
    requires NoDot(rest)
    ensures ToLower("." + rest) == "." + ToLower(rest)
    ensures NoDot(ToLower(rest))
  {
    ToLowerAppend(".", rest);
    forall k | 0 <= k < |rest|
      ensures ToLower(rest)[k] != '.'
    {
      LowerCharFixesNonLetters(rest[k]);
    }
  }

  /** The split is made at the last dot only when that dot is not the first character: the
      output is then the sanitized name, a dot and the lower-cased text after the last dot, and
      otherwise the whole input is sanitized as a name. */
  lemma SanitizeFilenameSplit(filename: string)
    ensures var i := LastIndexOf(filename, '.');
      i > 0 ==> SanitizeFilename(filename)
                == SanitizeName(filename[..i]) + "." + ToLower(filename[i + 1..])
    ensures LastIndexOf(filename, '.') <= 0 ==> SanitizeFilename(filename) == SanitizeName(filename)
  {
    if LastIndexOf(filename, '.') > 0 {
      SanitizeSplitAtDot(filename);
    } else {
      assert ExtensionPart(filename) == "";
      assert SanitizeFilename(filename) == SanitizeName(filename) + ToLower("");
    }
  }

  /** Split at the last dot: the sanitized name, the dot, and the lower-cased rest. */
  lemma SanitizeSplitAtDot(filename: string)
    requires LastIndexOf(filename, '.') > 0
    ensures SanitizeFilename(filename) == SanitizeName(filename[..LastIndexOf(filename, '.')])
      + "." + ToLower(filename[LastIndexOf(filename, '.') + 1..])
  {
    var i := LastIndexOf(filename, '.');
    var rest := filename[i + 1..];
    assert NamePart(filename) == filename[..i];
    assert ExtensionPart(filename) == "." + rest;
    JoinLowerExtension(SanitizeName(filename[..i]), rest);
  }

  /** A name followed by a lower-cased dotted extension is the name, a dot and the lower-cased
      rest. */
  lemma JoinLowerExtension(n: string, rest: string)
    ensures n + ToLower("." + rest) == n + "." + ToLower(rest)
  {
    ToLowerAppend(".", rest);
    assert ToLower(".") == ".";
    assert n + ("." + ToLower(rest)) == n + "." + ToLower(rest);
  }

  /** A safe name followed by one dot and dot-free text holds its only dot right after the name. */
  lemma DotAfterName(n: string, e: string)
    requires AllSafe(n) && NoDot(e)
    ensures AtMostOneDot(n + "." + e)
    ensures forall k :: 0 <= k < |n + "." + e| && (n + "." + e)[k] == '.' ==>
      AllSafe((n + "." + e)[..k]) && (n + "." + e)[k..] == "." + e
  {
    var out := n + "." + e;
    forall k | 0 <= k < |out|
      ensures out[k] == '.' ==> k == |n|
    {
      if k < |n| {
        assert out[k] == n[k];
      } else if k > |n| {
        assert out[k] == e[k - |n| - 1];
      }
    }
    assert out[..|n|] == n;
    assert out[|n|..] == "." + e;
  }

  /** The output holds at most one dot, and only where the extension starts: everything before
      it is `[a-z0-9_-]`, and from it on is the lower-cased text from the last dot of the input. */
  lemma {:induction false} SanitizeFilenameDots(filename: string)
    ensures AtMostOneDot(SanitizeFilename(filename))
    ensures var out := SanitizeFilename(filename);
      forall k :: 0 <= k < |out| && out[k] == '.' ==>
        && LastIndexOf(filename, '.') > 0
        && AllSafe(out[..k])
        && out[k..] == "." + ToLower(filename[LastIndexOf(filename, '.') + 1..])
    ensures LastIndexOf(filename, '.') <= 0 ==> AllSafe(SanitizeFilename(filename))
  {
    var i := LastIndexOf(filename, '.');
    SanitizeFilenameSplit(filename);
    if i > 0 {
      SanitizeNameShape(filename[..i]);
      AfterLastDot(filename);
      LowerExtensionDots(filename[i + 1..]);
      DotAfterName(SanitizeName(filename[..i]), ToLower(filename[i + 1..]));
    } else {
      SanitizeNameShape(filename);
    }
  }

  lemma ImageExtensionsAreSafe(e: string)
    requires e in ImageExtensions
    ensures AllSafe(e)
  {
  }

  /** Lower-casing does not move the last dot. */
  lemma LastIndexOfLower(s: string)
    ensures LastIndexOf(ToLower(s), '.') == LastIndexOf(s, '.')
  {
    var i := LastIndexOf(s, '.');
    var low := ToLower(s);
    forall k | 0 <= k < |s|
      ensures (low[k] == '.') == (s[k] == '.')
    {
      LowerCharFixesNonLetters(s[k]);
    }
    LastIndexOfIsLastOccurrence(low, '.', i);
  }

  /** When the name is split at its last dot, the lower-cased text after it is the last segment
      the image check judged. */
  lemma LastSegmentAfterSplit(filename: string)
    requires LastIndexOf(filename, '.') >= 0
    ensures ToLower(filename[LastIndexOf(filename, '.') + 1..]) == LastSegment(filename)
  {
    LastSegmentOfLower(filename);
    ToLowerSuffix(filename, LastIndexOf(filename, '.') + 1);
  }

  /** The last segment is the lower-cased name from just past the input's last dot. */
  lemma LastSegmentOfLower(filename: string)
    ensures LastSegment(filename) == ToLower(filename)[LastIndexOf(filename, '.') + 1..]
  {
    LastIndexOfLower(filename);
  }

  /** A safe name, a dot and a safe extension use only `[a-z0-9_.-]`, and end with the extension. */
  lemma SafeWithExtension(n: string, e: string)
    requires AllSafe(n) && AllSafe(e)
    ensures forall k :: 0 <= k < |n + "." + e| ==>
      IsSafeNameChar((n + "." + e)[k]) || (n + "." + e)[k] == '.'
    ensures EndsWith(n + "." + e, "." + e)
  {
    var out := n + "." + e;
    forall k | 0 <= k < |out|
      ensures IsSafeNameChar(out[k]) || out[k] == '.'
    {
      if k < |n| {
        assert out[k] == n[k];
      } else if k > |n| {
        assert out[k] == e[k - |n| - 1];
      }
    }
    assert out[|n|..] == "." + e;
  }

  /** A name accepted by the image check sanitizes to `[a-z0-9_.-]` with at most one dot; when
      it kept an extension, that extension is the accepted one. */
  lemma {:induction false} SanitizedImageNameIsSafe(filename: string)
    requires ValidateImageFile(filename).Pass?
    ensures AtMostOneDot(SanitizeFilename(filename))
    ensures forall k :: 0 <= k < |SanitizeFilename(filename)| ==>
      IsSafeNameChar(SanitizeFilename(filename)[k]) || SanitizeFilename(filename)[k] == '.'
    ensures LastIndexOf(filename, '.') > 0 ==> EndsWith(SanitizeFilename(filename), "." + LastSegment(filename))
    ensures LastSegment(filename) in ImageExtensions
  {
    var i := LastIndexOf(filename, '.');
    SanitizeFilenameDots(filename);
    if i > 0 {
      var ext := LastSegment(filename);
      SanitizeFilenameSplit(filename);
      LastSegmentAfterSplit(filename);
      SanitizeNameShape(filename[..i]);
      ImageExtensionsAreSafe(ext);
      SafeWithExtension(SanitizeName(filename[..i]), ext);
    }
  }
}

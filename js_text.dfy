/** The JavaScript string primitives the core relies on: `trim`, the regex class
    `\s`, `split` on a regex that matches a run of delimiter characters,
    `Array.prototype.join` and `toLowerCase` (ASCII letters only).
    The functions follow the JavaScript definitions; their properties are
    stated as lemmas beside them. */
module JsText {

  /** A character that `String.prototype.trim` removes and that `\s` matches:
      ECMAScript's WhiteSpace and LineTerminator code points. */
  predicate IsSpace(c: char) {
    || c == '\t' || c == '\n' || c == '\U{000B}' || c == '\U{000C}' || c == '\r'
    || c == ' ' || c == '\U{00A0}' || c == '\U{1680}'
    || ('\U{2000}' <= c <= '\U{200A}')
    || c == '\U{2028}' || c == '\U{2029}' || c == '\U{202F}' || c == '\U{205F}'
    || c == '\U{3000}' || c == '\U{FEFF}'
  }

  /** Every character is whitespace (`s.trim().length === 0`). */
  predicate IsBlank(s: string) {
    forall i :: 0 <= i < |s| ==> IsSpace(s[i])
  }

  /** Neither begins nor ends with whitespace. */
  predicate IsTrimmed(s: string) {
    s == [] || (!IsSpace(s[0]) && !IsSpace(s[|s| - 1]))
  }

  /** `small` occurs as a contiguous piece of `big`. */
  ghost predicate Infix(small: string, big: string) {
    exists i :: 0 <= i <= |big| && small <= big[i..]
  }

  /** `s.trimStart()` */
  function TrimStart(s: string): string {
    if s != [] && IsSpace(s[0]) then TrimStart(s[1..]) else s
  }

  /** `s.trimEnd()` */
  function TrimEnd(s: string): string {
    if s != [] && IsSpace(s[|s| - 1]) then TrimEnd(s[..|s| - 1]) else s
  }

  /** `s.trim()` */
  function Trim(s: string): string {
    TrimEnd(TrimStart(s))
  }

  /** `TrimStart` removes exactly the longest whitespace prefix. */
  lemma {:induction false} TrimStartSpec(s: string)
    ensures |TrimStart(s)| <= |s|
    ensures TrimStart(s) == s[|s| - |TrimStart(s)|..]
    ensures TrimStart(s) == [] || !IsSpace(TrimStart(s)[0])
    ensures forall i :: 0 <= i < |s| - |TrimStart(s)| ==> IsSpace(s[i])
  {
    if s != [] && IsSpace(s[0]) {
      TrimStartSpec(s[1..]);
      forall i | 0 <= i < |s| - |TrimStart(s)| ensures IsSpace(s[i]) {
        if i > 0 { assert s[i] == s[1..][i - 1]; }
      }
    }
  }

  /** `TrimEnd` removes exactly the longest whitespace suffix. */
  lemma {:induction false} TrimEndSpec(s: string)
    ensures |TrimEnd(s)| <= |s|
    ensures TrimEnd(s) == s[..|TrimEnd(s)|]
    ensures TrimEnd(s) == [] || !IsSpace(TrimEnd(s)[|TrimEnd(s)| - 1])
    ensures forall i :: |TrimEnd(s)| <= i < |s| ==> IsSpace(s[i])
  {
    if s != [] && IsSpace(s[|s| - 1]) {
      TrimEndSpec(s[..|s| - 1]);
      forall i | |TrimEnd(s)| <= i < |s| ensures IsSpace(s[i]) {
        if i < |s| - 1 { assert s[i] == s[..|s| - 1][i]; }
      }
    }
  }

  /** `Trim(s)` is the window `s[a..b]` with only whitespace outside it. */
  lemma TrimWindow(s: string) returns (a: nat, b: nat)
    ensures a <= b <= |s| && Trim(s) == s[a..b]
    ensures forall i :: 0 <= i < a ==> IsSpace(s[i])
    ensures forall i :: b <= i < |s| ==> IsSpace(s[i])
  {
    var u := TrimStart(s);
    TrimStartSpec(s);
    TrimEndSpec(u);
    a := |s| - |u|;
    b := a + |TrimEnd(u)|;
    forall i | b <= i < |s| ensures IsSpace(s[i]) {
      assert s[i] == u[i - a];
    }
  }

  /** The result of `trim` has no whitespace at either end, and is empty
      exactly when the input is blank. */
  lemma TrimFacts(s: string)
    ensures IsTrimmed(Trim(s))
    ensures Trim(s) == [] <==> IsBlank(s)
  {
    var u := TrimStart(s);
    TrimStartSpec(s);
    TrimEndSpec(u);
    var a, b := TrimWindow(s);
    if Trim(s) != [] {
      assert Trim(s)[0] == u[0];
    }
  }

  /** Trimming is idempotent. */
  lemma TrimIdempotent(s: string)
    ensures Trim(Trim(s)) == Trim(s)
  {
    TrimFacts(s);
  }

  lemma {:induction false} TrimEndPadded(t: string, pad: string)
    requires IsTrimmed(t) && IsBlank(pad)
    ensures TrimEnd(t + pad) == t
    decreases |pad|
  {
    if pad == [] {
      assert t + pad == t;
    } else {
      var x := t + pad;
      assert x[|x| - 1] == pad[|pad| - 1];
      assert x[..|x| - 1] == t + pad[..|pad| - 1];
      TrimEndPadded(t, pad[..|pad| - 1]);
    }
  }

  /** A trimmed string followed by whitespace trims back to itself. */
  lemma TrimPadded(t: string, pad: string)
    requires IsTrimmed(t) && IsBlank(pad)
    ensures Trim(t + pad) == t
  {
    if t == [] {
      assert t + pad == pad;
      TrimFacts(pad);
    } else {
      assert (t + pad)[0] == t[0];
      TrimEndPadded(t, pad);
    }
  }

  lemma SliceOfMiddle(a: string, s: string, b: string, i: nat, j: nat)
    requires i <= j <= |s|
    ensures (a + s + b)[|a| + i..|a| + j] == s[i..j]
  {
    var x := a + s + b;
    forall n | 0 <= n < j - i ensures x[|a| + i..|a| + j][n] == s[i..j][n] {
      assert x[|a| + i + n] == s[i + n];
    }
  }

  /** A piece that begins and ends with non-whitespace lies inside the trimmed text. */
  lemma TrimSpans(x: string, lo: nat, hi: nat)
    requires lo < hi <= |x| && !IsSpace(x[lo]) && !IsSpace(x[hi - 1])
    ensures Infix(x[lo..hi], Trim(x))
  {
    var a, b := TrimWindow(x);
    assert a <= lo && hi <= b;
    assert Trim(x)[lo - a..][..hi - lo] == x[lo..hi] by {
      forall n | 0 <= n < hi - lo ensures Trim(x)[lo - a..][..hi - lo][n] == x[lo..hi][n] {
        assert Trim(x)[lo - a + n] == x[lo + n];
      }
    }
  }

  /** The trimmed text of a non-blank piece survives trimming of any text around it. */
  lemma TrimKeepsCore(a: string, s: string, b: string)
    requires !IsBlank(s)
    ensures Infix(Trim(s), Trim(a + s + b))
  {
    TrimFacts(s);
    var i, j := TrimWindow(s);
    var x := a + s + b;
    SliceOfMiddle(a, s, b, i, j);
    assert x[|a| + i] == s[i] && x[|a| + j - 1] == s[j - 1];
    TrimSpans(x, |a| + i, |a| + j);
  }

  /** A prefix that begins with non-whitespace stays a prefix of the trimmed text
      when non-blank text follows it. */
  lemma PrefixSurvivesTrim(p: string, q: string)
    requires p != [] && !IsSpace(p[0]) && !IsBlank(q)
    ensures p <= Trim(p + q)
  {
    var x := p + q;
    var j :| 0 <= j < |q| && !IsSpace(q[j]);
    assert x[0] == p[0] && x[|p| + j] == q[j];
    var a, b := TrimWindow(x);
    assert a == 0 && |p| + j < b;
    assert Trim(x)[..|p|] == x[..|p|] == p;
  }

  /** A piece stays inside a text that grows at the end. */
  lemma InfixAppend(s: string, x: string, y: string)
    requires Infix(s, x)
    ensures Infix(s, x + y)
  {
    var i :| 0 <= i <= |x| && s <= x[i..];
    assert (x + y)[i..] == x[i..] + y;
  }

  /** A text contains each piece it is assembled from. */
  lemma InfixMiddle(a: string, s: string, b: string)
    ensures Infix(s, a + s + b)
  {
    assert (a + s + b)[|a|..] == s + b;
  }

  /** Trimming both a non-blank piece and a text containing it keeps the containment. */
  lemma InfixTrim(s: string, x: string)
    requires Infix(s, x) && !IsBlank(s)
    ensures Infix(Trim(s), Trim(x))
  {
    var i :| 0 <= i <= |x| && s <= x[i..];
    assert x == x[..i] + s + x[i + |s|..];
    TrimKeepsCore(x[..i], s, x[i + |s|..]);
  }

  lemma BlankConcat(a: string, b: string)
    ensures IsBlank(a + b) <==> IsBlank(a) && IsBlank(b)
  {
    if IsBlank(a) && IsBlank(b) {
      forall i | 0 <= i < |a + b| ensures IsSpace((a + b)[i]) {
        assert (a + b)[i] == if i < |a| then a[i] else b[i - |a|];
      }
    }
    if IsBlank(a + b) {
      forall i | 0 <= i < |a| ensures IsSpace(a[i]) { assert a[i] == (a + b)[i]; }
      forall i | 0 <= i < |b| ensures IsSpace(b[i]) { assert b[i] == (a + b)[|a| + i]; }
    }
  }

  /** The characters a `split` regex treats as delimiters. */
  datatype Delimiter =
    | SentenceEnd  // `/[.!?]+/`
    | Whitespace   // `/\s+/`

  predicate IsDelimiter(d: Delimiter, c: char) {
    match d
    case SentenceEnd => c == '.' || c == '!' || c == '?'
    case Whitespace => IsSpace(c)
  }

  predicate FreeOf(s: string, d: Delimiter) {
    forall i :: 0 <= i < |s| ==> !IsDelimiter(d, s[i])
  }

  /** Index of the first delimiter, or `|s|` when there is none. */
  function FirstDelimiter(s: string, d: Delimiter): (i: nat)
    ensures i <= |s|
  {
    if s == [] || IsDelimiter(d, s[0]) then 0 else 1 + FirstDelimiter(s[1..], d)
  }

  /** What follows the run of delimiters `s` begins with. */
  function SkipRun(s: string, d: Delimiter): string {
    if s != [] && IsDelimiter(d, s[0]) then SkipRun(s[1..], d) else s
  }

  lemma {:induction false} FirstDelimiterSpec(s: string, d: Delimiter)
    ensures forall k :: 0 <= k < FirstDelimiter(s, d) ==> !IsDelimiter(d, s[k])
    ensures FirstDelimiter(s, d) < |s| ==> IsDelimiter(d, s[FirstDelimiter(s, d)])
  {
    if s != [] && !IsDelimiter(d, s[0]) {
      FirstDelimiterSpec(s[1..], d);
      forall k | 0 <= k < FirstDelimiter(s, d) ensures !IsDelimiter(d, s[k]) {
        if k > 0 { assert s[k] == s[1..][k - 1]; }
      }
    }
  }

  /** The first delimiter is where a delimiter-free prefix ends at a delimiter. */
  lemma {:induction false} FirstDelimiterAt(s: string, d: Delimiter, m: nat)
    requires m < |s| && IsDelimiter(d, s[m])
    requires forall k :: 0 <= k < m ==> !IsDelimiter(d, s[k])
    ensures FirstDelimiter(s, d) == m
  {
    if m > 0 {
      FirstDelimiterAt(s[1..], d, m - 1);
    }
  }

  /** A delimiter-free text has no first delimiter. */
  lemma {:induction false} FirstDelimiterOfFree(s: string, d: Delimiter)
    requires FreeOf(s, d)
    ensures FirstDelimiter(s, d) == |s|
  {
    if s != [] {
      FirstDelimiterOfFree(s[1..], d);
    }
  }

  /** `SkipRun` drops exactly the longest prefix of delimiters. */
  lemma {:induction false} SkipRunSpec(s: string, d: Delimiter)
    ensures |SkipRun(s, d)| <= |s|
    ensures SkipRun(s, d) == s[|s| - |SkipRun(s, d)|..]
    ensures SkipRun(s, d) == [] || !IsDelimiter(d, SkipRun(s, d)[0])
    ensures forall k :: 0 <= k < |s| - |SkipRun(s, d)| ==> IsDelimiter(d, s[k])
  {
    if s != [] && IsDelimiter(d, s[0]) {
      SkipRunSpec(s[1..], d);
      forall k | 0 <= k < |s| - |SkipRun(s, d)| ensures IsDelimiter(d, s[k]) {
        if k > 0 { assert s[k] == s[1..][k - 1]; }
      }
    }
  }

  /** `s.split(re)` for a regex `re` matching a maximal run of delimiters: the
      delimiter-free pieces between runs, with an empty piece before a leading
      run and after a trailing run, and `[""]` for the empty string. */
  function Split(s: string, d: Delimiter): (pieces: seq<string>)
    ensures |pieces| >= 1
    decreases |s|
  {
    var i := FirstDelimiter(s, d);
    if i == |s| then [s]
    else
      SkipRunSpec(s[i + 1..], d);
      [s[..i]] + Split(SkipRun(s[i + 1..], d), d)
  }

  /** Every piece of a split is free of delimiters. */
  lemma {:induction false} SplitPiecesFree(s: string, d: Delimiter)
    ensures forall k :: 0 <= k < |Split(s, d)| ==> FreeOf(Split(s, d)[k], d)
    decreases |s|
  {
    var i := FirstDelimiter(s, d);
    if i < |s| {
      var rest := SkipRun(s[i + 1..], d);
      SkipRunSpec(s[i + 1..], d);
      SplitPiecesFree(rest, d);
      PrefixFree(s, d);
      ConsFree(s[..i], Split(rest, d), d);
    } else {
      PrefixFree(s, d);
      assert s[..i] == s;
    }
  }

  /** The text before the first delimiter is free of delimiters. */
  lemma PrefixFree(s: string, d: Delimiter)
    ensures FreeOf(s[..FirstDelimiter(s, d)], d)
  {
    FirstDelimiterSpec(s, d);
  }

  /** Adding a free piece in front of free pieces keeps them all free. */
  lemma ConsFree(x: string, ys: seq<string>, d: Delimiter)
    requires FreeOf(x, d)
    requires forall k :: 0 <= k < |ys| ==> FreeOf(ys[k], d)
    ensures forall k :: 0 <= k < |[x] + ys| ==> FreeOf(([x] + ys)[k], d)
  {
    forall k | 0 <= k < |[x] + ys|
      ensures FreeOf(([x] + ys)[k], d)
    {
      if k > 0 {
        assert ([x] + ys)[k] == ys[k - 1];
      }
    }
  }

  /** The characters of `s` that are not delimiters, in order. */
  function Content(s: string, d: Delimiter): (r: string)
    ensures |r| <= |s|
  {
    if s == [] then [] else (if IsDelimiter(d, s[0]) then [] else [s[0]]) + Content(s[1..], d)
  }

  /** The pieces laid end to end. */
  function Concat(pieces: seq<string>): string {
    if pieces == [] then [] else pieces[0] + Concat(pieces[1..])
  }

  lemma {:induction false} ContentAppend(a: string, b: string, d: Delimiter)
    ensures Content(a + b, d) == Content(a, d) + Content(b, d)
  {
    if a == [] {
      assert a + b == b;
    } else {
      assert (a + b)[1..] == a[1..] + b;
      ContentAppend(a[1..], b, d);
    }
  }

  lemma {:induction false} ContentOfFree(s: string, d: Delimiter)
    requires FreeOf(s, d)
    ensures Content(s, d) == s
  {
    if s != [] {
      assert FreeOf(s[1..], d) by {
        forall i | 0 <= i < |s[1..]| ensures !IsDelimiter(d, s[1..][i]) { assert s[1..][i] == s[i + 1]; }
      }
      ContentOfFree(s[1..], d);
    }
  }

  lemma {:induction false} ContentOfSkipRun(s: string, d: Delimiter)
    ensures Content(SkipRun(s, d), d) == Content(s, d)
  {
    if s != [] && IsDelimiter(d, s[0]) {
      ContentOfSkipRun(s[1..], d);
    }
  }

  /** Cutting at a delimiter after a delimiter-free prefix keeps the prefix and
      drops the delimiter. */
  lemma ContentAround(s: string, i: nat, d: Delimiter)
    requires i < |s| && IsDelimiter(d, s[i]) && FreeOf(s[..i], d)
    ensures Content(s, d) == s[..i] + Content(s[i + 1..], d)
  {
    assert s == s[..i] + [s[i]] + s[i + 1..];
    ContentAppend(s[..i] + [s[i]], s[i + 1..], d);
    ContentAppend(s[..i], [s[i]], d);
    ContentOfFree(s[..i], d);
    assert Content([s[i]], d) == [] by { assert [s[i]][1..] == []; }
  }

  lemma ConcatCons(x: string, ys: seq<string>)
    ensures Concat([x] + ys) == x + Concat(ys)
  {
    assert ([x] + ys)[1..] == ys;
  }

  /** A split loses nothing but delimiters: the pieces laid end to end are the
      text with its delimiter characters removed. */
  lemma {:induction false} SplitKeepsContent(s: string, d: Delimiter)
    ensures Concat(Split(s, d)) == Content(s, d)
    decreases |s|
  {
    var i := FirstDelimiter(s, d);
    PrefixFree(s, d);
    if i == |s| {
      assert s[..i] == s;
      ContentOfFree(s, d);
      ConcatCons(s, []);
    } else {
      var rest := SkipRun(s[i + 1..], d);
      SkipRunSpec(s[i + 1..], d);
      SplitKeepsContent(rest, d);
      ContentOfSkipRun(s[i + 1..], d);
      FirstDelimiterSpec(s, d);
      ContentAround(s, i, d);
      ConcatCons(s[..i], Split(rest, d));
    }
  }

  /** A non-empty piece free of whitespace: what `split(/\s+/)` yields for trimmed text. */
  predicate IsWord(w: string) {
    w != [] && FreeOf(w, Whitespace)
  }

  /** Skipping a leading run keeps a last character that is not a delimiter. */
  lemma {:induction false} SkipRunKeepsLast(t: string, d: Delimiter)
    requires t != [] && !IsDelimiter(d, t[|t| - 1])
    ensures SkipRun(t, d) != [] && SkipRun(t, d)[|SkipRun(t, d)| - 1] == t[|t| - 1]
  {
    if IsDelimiter(d, t[0]) {
      SkipRunKeepsLast(t[1..], d);
    }
  }

  /** Splitting a trimmed, non-empty text on whitespace runs yields no empty piece. */
  lemma {:induction false} SplitTrimmedNonEmpty(s: string)
    requires s != [] && IsTrimmed(s)
    ensures forall k :: 0 <= k < |Split(s, Whitespace)| ==> Split(s, Whitespace)[k] != []
    decreases |s|
  {
    var d := Whitespace;
    var i := FirstDelimiter(s, d);
    FirstDelimiterSpec(s, d);
    if i < |s| {
      assert 0 < i < |s| - 1;
      var t := s[i + 1..];
      assert t[|t| - 1] == s[|s| - 1];
      SkipRunKeepsLast(t, d);
      var rest := SkipRun(t, d);
      SkipRunSpec(t, d);
      SplitTrimmedNonEmpty(rest);
      assert Split(s, d) == [s[..i]] + Split(rest, d);
    }
  }

  /** Splitting a trimmed, non-empty text on whitespace runs yields only words. */
  lemma SplitTrimmedYieldsWords(s: string)
    requires s != [] && IsTrimmed(s)
    ensures forall k :: 0 <= k < |Split(s, Whitespace)| ==> IsWord(Split(s, Whitespace)[k])
  {
    SplitPiecesFree(s, Whitespace);
    SplitTrimmedNonEmpty(s);
  }

  /** `xs.join(sep)` */
  function Join(xs: seq<string>, sep: string): string {
    if |xs| == 0 then ""
    else if |xs| == 1 then xs[0]
    else xs[0] + sep + Join(xs[1..], sep)
  }

  /** A join begins with the first piece and ends with the last one. */
  lemma {:induction false} JoinEnds(xs: seq<string>, sep: string)
    requires |xs| > 0
    ensures xs[0] <= Join(xs, sep)
    ensures |xs[|xs| - 1]| <= |Join(xs, sep)|
    ensures Join(xs, sep)[|Join(xs, sep)| - |xs[|xs| - 1]|..] == xs[|xs| - 1]
  {
    if |xs| > 1 {
      var rest := Join(xs[1..], sep);
      JoinEnds(xs[1..], sep);
      assert xs[1..][|xs[1..]| - 1] == xs[|xs| - 1];
      var r := xs[0] + sep + rest;
      assert r[|r| - |rest|..] == rest;
    }
  }

  /** Words joined by single spaces make a trimmed, non-empty text. */
  lemma JoinWordsTrimmed(ws: seq<string>)
    requires |ws| >= 1
    requires forall k :: 0 <= k < |ws| ==> IsWord(ws[k])
    ensures Join(ws, " ") != [] && IsTrimmed(Join(ws, " "))
  {
    JoinEnds(ws, " ");
    var j, last := Join(ws, " "), ws[|ws| - 1];
    assert j[0] == ws[0][0];
    assert j[|j| - 1] == j[|j| - |last|..][|last| - 1] == last[|last| - 1];
  }

  /** Splitting at a single delimiter that follows a delimiter-free piece. */
  lemma SplitAtSeparator(w: string, sep: char, rest: string, d: Delimiter)
    requires FreeOf(w, d) && IsDelimiter(d, sep)
    requires rest != [] && !IsDelimiter(d, rest[0])
    ensures Split(w + [sep] + rest, d) == [w] + Split(rest, d)
  {
    var s := w + [sep] + rest;
    forall k | 0 <= k < |w| ensures !IsDelimiter(d, s[k]) { assert s[k] == w[k]; }
    assert s[|w|] == sep;
    FirstDelimiterAt(s, d, |w|);
    assert s[|w| + 1..] == rest;
    assert s[..|w|] == w;
  }

  /** Splitting non-empty, delimiter-free pieces joined by one delimiter gives
      the pieces back. */
  lemma {:induction false} SplitJoinOn(ws: seq<string>, d: Delimiter, sep: char)
    requires |ws| >= 1 && IsDelimiter(d, sep)
    requires forall k :: 0 <= k < |ws| ==> ws[k] != [] && FreeOf(ws[k], d)
    ensures Split(Join(ws, [sep]), d) == ws
  {
    if |ws| == 1 {
      FirstDelimiterOfFree(ws[0], d);
    } else {
      var rest := Join(ws[1..], [sep]);
      assert Join(ws, [sep]) == ws[0] + [sep] + rest;
      JoinEnds(ws[1..], [sep]);
      assert rest[0] == ws[1][0];
      SplitAtSeparator(ws[0], sep, rest, d);
      SplitJoinOn(ws[1..], d, sep);
    }
  }

  /** Splitting words joined by single spaces gives the words back. */
  lemma SplitJoin(ws: seq<string>)
    requires |ws| >= 1
    requires forall k :: 0 <= k < |ws| ==> IsWord(ws[k])
    ensures Split(Join(ws, " "), Whitespace) == ws
  {
    SplitJoinOn(ws, Whitespace, ' ');
  }

  /** A single lower-cased ASCII letter; other characters are unchanged. */
  function LowerAscii(c: char): char {
    if 'A' <= c <= 'Z' then (c as int + 32) as char else c
  }

  /** `s.toLowerCase()` restricted to ASCII letters. */
  function ToLowerAscii(s: string): (r: string)
    ensures |r| == |s|
    ensures forall i :: 0 <= i < |s| ==> r[i] == LowerAscii(s[i])
  {
    seq(|s|, i requires 0 <= i < |s| => LowerAscii(s[i]))
  }
}

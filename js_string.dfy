/** The JavaScript string built-ins the watchdog view relies on, stated over
    `string` (a sequence of Unicode scalar values): `trim`, `split` on a
    single character, `split(/\s+/)`, `join`, and the two regular-expression
    replacements that reduce a URL to a domain. */
module JsString {

  /** ECMAScript LineTerminator code points. */
  predicate IsLineTerminator(c: char) {
    c == '\n' || c == '\r' || c == '\U{2028}' || c == '\U{2029}'
  }

  /** ECMAScript WhiteSpace and LineTerminator code points: what `trim`
      removes, what `\s` matches and what `parseInt` skips. */
  predicate IsWhiteSpace(c: char) {
    || c == '\t' || c == '\U{B}' || c == '\U{C}' || c == ' ' || c == '\U{A0}'
    || c == '\U{FEFF}' || c == '\U{1680}' || ('\U{2000}' <= c <= '\U{200A}')
    || c == '\U{202F}' || c == '\U{205F}' || c == '\U{3000}'
    || IsLineTerminator(c)
  }

  predicate NoLineTerminator(s: string) {
    forall i | 0 <= i < |s| :: !IsLineTerminator(s[i])
  }

  predicate NoWhiteSpace(s: string) {
    forall i | 0 <= i < |s| :: !IsWhiteSpace(s[i])
  }

  /** A string with no white space at either end. */
  predicate IsTrimmed(s: string) {
    s == [] || (!IsWhiteSpace(s[0]) && !IsWhiteSpace(s[|s| - 1]))
  }

  // ---------------------------------------------------------------- trim

  function TrimStart(s: string): (r: string)
    ensures |r| <= |s| && r == s[|s| - |r|..]
    ensures r == [] || !IsWhiteSpace(r[0])
  {
    if s != [] && IsWhiteSpace(s[0]) then TrimStart(s[1..]) else s
  }

  /** What `TrimStart` removes is white space only. */
  lemma {:induction false} TrimStartRemovesWhiteSpace(s: string)
    ensures AllWhiteSpace(s[..|s| - |TrimStart(s)|])
    decreases |s|
  {
    if s != [] && IsWhiteSpace(s[0]) {
      TrimStartRemovesWhiteSpace(s[1..]);
      assert s[..|s| - |TrimStart(s)|] == [s[0]] + s[1..][..|s| - 1 - |TrimStart(s[1..])|];
    }
  }

  function TrimEnd(s: string): (r: string)
    ensures |r| <= |s| && r == s[..|r|]
    ensures r == [] || !IsWhiteSpace(r[|r| - 1])
  {
    if s != [] && IsWhiteSpace(s[|s| - 1]) then TrimEnd(s[..|s| - 1]) else s
  }

  /** What `TrimEnd` removes is white space only. */
  lemma {:induction false} TrimEndRemovesWhiteSpace(s: string)
    ensures AllWhiteSpace(s[|TrimEnd(s)|..])
    decreases |s|
  {
    if s != [] && IsWhiteSpace(s[|s| - 1]) {
      var init := s[..|s| - 1];
      TrimEndRemovesWhiteSpace(init);
      assert s[|TrimEnd(s)|..] == init[|TrimEnd(init)|..] + [s[|s| - 1]];
    }
  }

  /** `String.prototype.trim`. */
  function Trim(s: string): (r: string)
    ensures IsTrimmed(r)
  {
    var t := TrimStart(s);
    var r := TrimEnd(t);
    assert r == [] || !IsWhiteSpace(r[0]) by {
      if r != [] { assert r[0] == t[0]; }
    }
    r
  }

  /** Trimming adds no character. */
  lemma TrimLacks(s: string, c: char)
    requires c !in s
    ensures c !in Trim(s)
  {
    assert c !in TrimStart(s);
  }

  lemma TrimStartOfTrimmed(s: string)
    requires s == [] || !IsWhiteSpace(s[0])
    ensures TrimStart(s) == s
  {
  }

  lemma TrimEndOfTrimmed(s: string)
    requires s == [] || !IsWhiteSpace(s[|s| - 1])
    ensures TrimEnd(s) == s
  {
  }

  /** Trimming changes nothing exactly when there is no white space at an end. */
  lemma TrimFixedPoint(s: string)
    ensures Trim(s) == s <==> IsTrimmed(s)
  {
    if IsTrimmed(s) {
      TrimStartOfTrimmed(s);
      TrimEndOfTrimmed(s);
    }
  }

  lemma TrimIdempotent(s: string)
    ensures Trim(Trim(s)) == Trim(s)
  {
    TrimFixedPoint(Trim(s));
  }

  /** `TrimStart` removes everything from a string of white space only. */
  lemma {:induction false} TrimStartAllWhiteSpace(s: string)
    requires AllWhiteSpace(s)
    ensures TrimStart(s) == []
    decreases |s|
  {
    if s != [] {
      assert AllWhiteSpace(s[1..]) by {
        assert forall i | 0 <= i < |s| - 1 :: s[1..][i] == s[i + 1];
      }
      TrimStartAllWhiteSpace(s[1..]);
    }
  }

  /** `TrimStart` keeps every character from the first one that is not
      white space. */
  lemma {:induction false} TrimStartKeeps(s: string, k: nat)
    requires k < |s| && !IsWhiteSpace(s[k])
    ensures |TrimStart(s)| >= |s| - k
    decreases k
  {
    if IsWhiteSpace(s[0]) {
      TrimStartKeeps(s[1..], k - 1);
    }
  }

  /** `TrimEnd` keeps every character up to the last one that is not white
      space. */
  lemma {:induction false} TrimEndKeeps(s: string, k: nat)
    requires k < |s| && !IsWhiteSpace(s[k])
    ensures |TrimEnd(s)| > k
    decreases |s|
  {
    if IsWhiteSpace(s[|s| - 1]) {
      TrimEndKeeps(s[..|s| - 1], k);
    }
  }

  /** Trimming keeps a string that holds something other than white space
      non-empty. */
  lemma TrimNonEmpty(s: string, k: nat)
    requires k < |s| && !IsWhiteSpace(s[k])
    ensures Trim(s) != []
  {
    TrimStartKeeps(s, k);
    var t := TrimStart(s);
    var n := |s| - |t|;
    assert t[k - n] == s[k];
    TrimEndKeeps(t, k - n);
  }

  /** Trimming leaves nothing exactly when the string is white space only. */
  lemma TrimEmpty(s: string)
    ensures Trim(s) == [] <==> AllWhiteSpace(s)
  {
    if AllWhiteSpace(s) {
      TrimStartAllWhiteSpace(s);
    } else {
      var k :| 0 <= k < |s| && !IsWhiteSpace(s[k]);
      TrimNonEmpty(s, k);
    }
  }

  /** White space in front of a string that starts with something else is
      exactly what `TrimStart` removes. */
  lemma {:induction false} TrimStartPrefix(pre: string, s: string)
    requires AllWhiteSpace(pre)
    requires s == [] || !IsWhiteSpace(s[0])
    ensures TrimStart(pre + s) == s
    decreases |pre|
  {
    if pre == [] {
      assert pre + s == s;
    } else {
      assert (pre + s)[1..] == pre[1..] + s;
      TrimStartPrefix(pre[1..], s);
    }
  }

  /** Every character of `s` is white space. */
  predicate AllWhiteSpace(s: string) {
    forall i | 0 <= i < |s| :: IsWhiteSpace(s[i])
  }

  /** White space in front of any string is removed with the string's own
      leading white space. */
  lemma {:induction false} TrimStartSkips(pre: string, s: string)
    requires AllWhiteSpace(pre)
    ensures TrimStart(pre + s) == TrimStart(s)
    decreases |pre|
  {
    if pre == [] {
      assert pre + s == s;
    } else {
      assert (pre + s)[1..] == pre[1..] + s;
      TrimStartSkips(pre[1..], s);
    }
  }

  /** `TrimEnd` only reaches into the last part of a string when that part
      holds something other than white space. */
  lemma {:induction false} TrimEndAppend(a: string, b: string)
    requires exists i :: 0 <= i < |b| && !IsWhiteSpace(b[i])
    ensures TrimEnd(a + b) == a + TrimEnd(b)
    decreases |b|
  {
    var k :| 0 <= k < |b| && !IsWhiteSpace(b[k]);
    if IsWhiteSpace(b[|b| - 1]) {
      assert k < |b| - 1;
      var b' := b[..|b| - 1];
      assert b'[k] == b[k];
      assert (a + b)[..|a + b| - 1] == a + b';
      TrimEndAppend(a, b');
    } else {
      assert (a + b)[|a + b| - 1] == b[|b| - 1];
    }
  }

  /** White space after a string that ends with something else is exactly
      what `TrimEnd` removes. */
  lemma {:induction false} TrimEndSuffix(s: string, post: string)
    requires AllWhiteSpace(post)
    requires s == [] || !IsWhiteSpace(s[|s| - 1])
    ensures TrimEnd(s + post) == s
    decreases |post|
  {
    if post == [] {
      assert s + post == s;
    } else {
      var init := post[..|post| - 1];
      assert (s + post)[..|s + post| - 1] == s + init;
      assert (s + post)[|s + post| - 1] == post[|post| - 1];
      TrimEndSuffix(s, init);
    }
  }

  /** Trimming a trimmed string padded with white space on both sides gives
      the string back. */
  lemma TrimPadded(lead: string, m: string, trail: string)
    requires AllWhiteSpace(lead) && AllWhiteSpace(trail)
    requires IsTrimmed(m)
    ensures Trim(lead + m + trail) == m
  {
    if m == [] {
      assert AllWhiteSpace(lead + m + trail) by {
        assert forall i | |lead| <= i < |lead + m + trail| :: (lead + m + trail)[i] == trail[i - |lead|];
      }
      TrimEmpty(lead + m + trail);
    } else {
      assert lead + m + trail == lead + (m + trail);
      TrimStartPrefix(lead, m + trail);
      TrimEndSuffix(m, trail);
    }
  }

  // ---------------------------------------------------------------- split / join

  /** The position of the first `c` in `s`. */
  function IndexOf(s: string, c: char): (i: nat)
    requires c in s
    ensures i < |s| && s[i] == c && c !in s[..i]
  {
    if s[0] == c then 0 else IndexOf(s[1..], c) + 1
  }

  /** `Array.prototype.join` with a one-character separator. */
  function Join(parts: seq<string>, sep: char): string {
    if |parts| == 0 then []
    else if |parts| == 1 then parts[0]
    else parts[0] + [sep] + Join(parts[1..], sep)
  }

  /** `String.prototype.split` on a one-character separator (the regular
      expressions `/\n/` and `/\t/`, and the string `'.'`). */
  function Split(s: string, sep: char): (parts: seq<string>)
    ensures |parts| >= 1
    ensures sep !in s ==> parts == [s]
    ensures sep in s ==> parts[0] == s[..IndexOf(s, sep)]
    decreases |s|
  {
    if sep in s then
      var i := IndexOf(s, sep);
      [s[..i]] + Split(s[i + 1..], sep)
    else [s]
  }

  /** No piece holds the separator. */
  lemma {:induction false} SplitPartsLackSeparator(s: string, sep: char)
    ensures forall i | 0 <= i < |Split(s, sep)| :: sep !in Split(s, sep)[i]
    decreases |s|
  {
    if sep in s {
      var k := IndexOf(s, sep);
      var tail := Split(s[k + 1..], sep);
      SplitPartsLackSeparator(s[k + 1..], sep);
      var parts := Split(s, sep);
      assert parts == [s[..k]] + tail;
      forall j | 0 <= j < |parts| ensures sep !in parts[j] {
        if j > 0 { assert parts[j] == tail[j - 1]; }
      }
    }
  }

  /** Joining the pieces with the separator gives back the string. */
  lemma {:induction false} SplitJoinsBack(s: string, sep: char)
    ensures Join(Split(s, sep), sep) == s
    decreases |s|
  {
    if sep in s {
      var k := IndexOf(s, sep);
      var rest := s[k + 1..];
      SplitJoinsBack(rest, sep);
      assert Split(s, sep) == [s[..k]] + Split(rest, sep);
      JoinCons(s[..k], Split(rest, sep), sep);
      assert s == s[..k] + [sep] + rest;
    }
  }

  /** Joining a first piece in front of at least one more. */
  lemma JoinCons(head: string, tail: seq<string>, sep: char)
    requires |tail| >= 1
    ensures Join([head] + tail, sep) == head + [sep] + Join(tail, sep)
  {
    var p := [head] + tail;
    assert p[0] == head && p[1..] == tail;
  }

  /** The pieces hold no separator, and joining them with it gives back the
      string. */
  lemma SplitParts(s: string, sep: char)
    ensures forall i | 0 <= i < |Split(s, sep)| :: sep !in Split(s, sep)[i]
    ensures Join(Split(s, sep), sep) == s
  {
    SplitPartsLackSeparator(s, sep);
    SplitJoinsBack(s, sep);
  }

  /** Splitting adds no character. */
  lemma {:induction false} SplitLacks(s: string, sep: char, c: char)
    requires c !in s
    ensures forall i | 0 <= i < |Split(s, sep)| :: c !in Split(s, sep)[i]
    decreases |s|
  {
    if sep in s {
      var k := IndexOf(s, sep);
      SplitLacks(s[k + 1..], sep, c);
      assert c !in s[..k];
      assert Split(s, sep) == [s[..k]] + Split(s[k + 1..], sep);
    }
  }

  /** Splitting after a separator-free first piece yields that piece first. */
  lemma SplitCons(a: string, sep: char, b: string)
    requires sep !in a
    ensures Split(a + [sep] + b, sep) == [a] + Split(b, sep)
  {
    var s := a + [sep] + b;
    assert s[|a|] == sep;
    var i := IndexOf(s, sep);
    assert s[..i] == a;
    assert s[i + 1..] == b;
  }

  /** `split` undoes `join` when no piece holds the separator. */
  lemma {:induction false} SplitJoin(parts: seq<string>, sep: char)
    requires |parts| >= 1
    requires forall i | 0 <= i < |parts| :: sep !in parts[i]
    ensures Split(Join(parts, sep), sep) == parts
    decreases |parts|
  {
    if |parts| > 1 {
      SplitJoin(parts[1..], sep);
      SplitCons(parts[0], sep, Join(parts[1..], sep));
      assert Join(parts, sep) == parts[0] + [sep] + Join(parts[1..], sep);
      assert [parts[0]] + parts[1..] == parts;
    }
  }

  /** Joining adds no character but the separator. */
  lemma {:induction false} JoinLacks(parts: seq<string>, sep: char, c: char)
    requires c != sep
    requires forall i | 0 <= i < |parts| :: c !in parts[i]
    ensures c !in Join(parts, sep)
    decreases |parts|
  {
    if |parts| > 1 {
      JoinLacks(parts[1..], sep, c);
    }
  }

  /** Joining one more piece appends the separator and that piece. */
  lemma {:induction false} JoinSnoc(parts: seq<string>, x: string, sep: char)
    requires |parts| >= 1
    ensures Join(parts + [x], sep) == Join(parts, sep) + [sep] + x
    decreases |parts|
  {
    if |parts| == 1 {
      assert (parts + [x])[1..] == [x];
    } else {
      assert (parts + [x])[1..] == parts[1..] + [x];
      JoinSnoc(parts[1..], x, sep);
    }
  }

  /** Trimming a join whose first piece starts with something other than
      white space, and whose last piece holds something other than white
      space, trims only the end of the last piece. */
  lemma TrimOfJoin(init: seq<string>, last: string, sep: char)
    requires |init| >= 1 && init[0] != [] && !IsWhiteSpace(init[0][0])
    requires exists i :: 0 <= i < |last| && !IsWhiteSpace(last[i])
    ensures Trim(Join(init + [last], sep)) == Join(init, sep) + [sep] + TrimEnd(last)
  {
    JoinSnoc(init, last, sep);
    JoinStartsWith(init, sep);
    var pre := Join(init, sep) + [sep];
    var j := pre + last;
    assert j[0] == init[0][0];
    TrimStartOfTrimmed(j);
    TrimEndAppend(pre, last);
  }

  /** Joining non-empty trimmed pieces gives a trimmed string. */
  lemma {:induction false} JoinTrimmed(parts: seq<string>, sep: char)
    requires |parts| >= 1
    requires forall i | 0 <= i < |parts| :: parts[i] != [] && IsTrimmed(parts[i])
    ensures Join(parts, sep) != [] && IsTrimmed(Join(parts, sep))
    decreases |parts|
  {
    if |parts| > 1 {
      JoinTrimmed(parts[1..], sep);
      var j := Join(parts, sep);
      var rest := Join(parts[1..], sep);
      assert j == parts[0] + [sep] + rest;
      assert j[0] == parts[0][0];
      assert j[|j| - 1] == rest[|rest| - 1];
    }
  }

  // ---------------------------------------------------------------- split(/\s+/)

  /** The position of the first white-space character of `s`, or `|s|`. */
  function WhiteSpaceIndex(s: string): (i: nat)
    ensures i <= |s| && NoWhiteSpace(s[..i])
    ensures i < |s| ==> IsWhiteSpace(s[i])
  {
    if s == [] || IsWhiteSpace(s[0]) then 0 else WhiteSpaceIndex(s[1..]) + 1
  }

  /** The end of the white-space run that starts at `k`. */
  function RunEnd(s: string, k: nat): (j: nat)
    requires k <= |s|
    ensures k <= j <= |s|
    ensures forall i | k <= i < j :: IsWhiteSpace(s[i])
    ensures j < |s| ==> !IsWhiteSpace(s[j])
    decreases |s| - k
  {
    if k < |s| && IsWhiteSpace(s[k]) then RunEnd(s, k + 1) else k
  }

  /** `String.prototype.split(/\s+/)`: the pieces between maximal runs of
      white space (an empty string gives `[""]`). */
  function SplitWhiteSpace(s: string): (parts: seq<string>)
    ensures |parts| >= 1
    ensures forall i | 0 <= i < |parts| :: NoWhiteSpace(parts[i])
    decreases |s|
  {
    var k := WhiteSpaceIndex(s);
    if k == |s| then [s]
    else [s[..k]] + SplitWhiteSpace(s[RunEnd(s, k)..])
  }

  /** On a trimmed, non-empty string every piece is non-empty. */
  lemma {:induction false} SplitWhiteSpaceTrimmed(s: string)
    requires s != [] && IsTrimmed(s)
    ensures forall i | 0 <= i < |SplitWhiteSpace(s)| :: SplitWhiteSpace(s)[i] != []
    decreases |s|
  {
    var k := WhiteSpaceIndex(s);
    if k < |s| {
      var j := RunEnd(s, k);
      assert k > 0;
      assert j < |s|;
      var t := s[j..];
      assert t[|t| - 1] == s[|s| - 1];
      SplitWhiteSpaceTrimmed(t);
    }
  }

  /** `split(/\s+/)` undoes joining non-empty, white-space-free tokens with
      single spaces. */
  lemma {:induction false} SplitWhiteSpaceJoin(tokens: seq<string>)
    requires |tokens| >= 1
    requires forall i | 0 <= i < |tokens| :: tokens[i] != [] && NoWhiteSpace(tokens[i])
    ensures SplitWhiteSpace(Join(tokens, ' ')) == tokens
    decreases |tokens|
  {
    var s := Join(tokens, ' ');
    if |tokens| == 1 {
      assert WhiteSpaceIndex(s) == |s|;
    } else {
      var t0 := tokens[0];
      var rest := Join(tokens[1..], ' ');
      assert s == t0 + [' '] + rest;
      assert rest[..|tokens[1]|] == tokens[1] by { JoinStartsWith(tokens[1..], ' '); }
      assert s[|t0|] == ' ';
      assert forall i | 0 <= i < |t0| :: s[i] == t0[i];
      var k := WhiteSpaceIndex(s);
      assert k == |t0|;
      assert s[k + 1] == rest[0] == tokens[1][0];
      assert RunEnd(s, k + 1) == k + 1;
      assert RunEnd(s, k) == k + 1;
      assert s[..k] == t0;
      assert s[k + 1..] == rest;
      SplitWhiteSpaceJoin(tokens[1..]);
    }
  }

  /** A join starts with its first piece. */
  lemma {:induction false} JoinStartsWith(parts: seq<string>, sep: char)
    requires |parts| >= 1
    ensures |parts[0]| <= |Join(parts, sep)|
    ensures Join(parts, sep)[..|parts[0]|] == parts[0]
  {
    if |parts| > 1 {
      var j := Join(parts, sep);
      assert j == parts[0] + ([sep] + Join(parts[1..], sep));
    }
  }

  /** The tokens joined by arbitrary non-empty runs of white space: the
      general shape of a text that `trim().split(/\s+/)` reads back. */
  function JoinRuns(tokens: seq<string>, seps: seq<string>): string
    requires |tokens| == |seps| + 1
    decreases |seps|
  {
    if seps == [] then tokens[0] else tokens[0] + seps[0] + JoinRuns(tokens[1..], seps[1..])
  }

  /** A join of non-empty, white-space-free tokens starts with its first
      token and ends with its last, so it has no white space at either end. */
  lemma {:induction false} JoinRunsTrimmed(tokens: seq<string>, seps: seq<string>)
    requires |tokens| == |seps| + 1
    requires forall i | 0 <= i < |tokens| :: tokens[i] != [] && NoWhiteSpace(tokens[i])
    ensures JoinRuns(tokens, seps) != [] && IsTrimmed(JoinRuns(tokens, seps))
    ensures JoinRuns(tokens, seps)[0] == tokens[0][0]
    decreases |seps|
  {
    if seps != [] {
      var rest := JoinRuns(tokens[1..], seps[1..]);
      JoinRunsTrimmed(tokens[1..], seps[1..]);
      var s := JoinRuns(tokens, seps);
      assert s == tokens[0] + (seps[0] + rest);
      assert s[|s| - 1] == rest[|rest| - 1];
    }
  }

  /** The first white space of `a + b` is at `|a|` when `a` has none and `b`
      starts with some. */
  lemma {:induction false} WhiteSpaceIndexAt(a: string, b: string)
    requires NoWhiteSpace(a)
    requires b == [] || IsWhiteSpace(b[0])
    ensures WhiteSpaceIndex(a + b) == |a|
    decreases |a|
  {
    if a == [] {
      assert a + b == b;
    } else {
      assert (a + b)[1..] == a[1..] + b;
      WhiteSpaceIndexAt(a[1..], b);
    }
  }

  /** A run of `n` white-space characters at `k` followed by something else
      ends at `k + n`. */
  lemma {:induction false} RunEndAt(s: string, k: nat, n: nat)
    requires k + n <= |s|
    requires forall i | k <= i < k + n :: IsWhiteSpace(s[i])
    requires k + n < |s| ==> !IsWhiteSpace(s[k + n])
    ensures RunEnd(s, k) == k + n
    decreases n
  {
    if n > 0 {
      RunEndAt(s, k + 1, n - 1);
    }
  }

  /** `split(/\s+/)` cuts a token off at the run of white space after it. */
  lemma SplitWhiteSpaceStep(t0: string, sep: string, rest: string)
    requires t0 != [] && NoWhiteSpace(t0)
    requires sep != [] && AllWhiteSpace(sep)
    requires rest != [] && !IsWhiteSpace(rest[0])
    ensures SplitWhiteSpace(t0 + sep + rest) == [t0] + SplitWhiteSpace(rest)
  {
    var s := t0 + sep + rest;
    assert s == t0 + (sep + rest);
    WhiteSpaceIndexAt(t0, sep + rest);
    var k := |t0|;
    assert s[k + |sep|] == rest[0];
    assert forall i | k <= i < k + |sep| :: s[i] == sep[i - k];
    RunEndAt(s, k, |sep|);
    assert s[..k] == t0;
    assert s[k + |sep|..] == rest;
  }

  /** `split(/\s+/)` undoes joining non-empty, white-space-free tokens with
      any non-empty runs of white space. */
  lemma {:induction false} SplitWhiteSpaceRuns(tokens: seq<string>, seps: seq<string>)
    requires |tokens| == |seps| + 1
    requires forall i | 0 <= i < |tokens| :: tokens[i] != [] && NoWhiteSpace(tokens[i])
    requires forall i | 0 <= i < |seps| :: seps[i] != [] && AllWhiteSpace(seps[i])
    ensures SplitWhiteSpace(JoinRuns(tokens, seps)) == tokens
    decreases |seps|
  {
    if seps == [] {
      WhiteSpaceIndexAt(tokens[0], []);
      assert tokens[0] + [] == tokens[0];
    } else {
      var rest := JoinRuns(tokens[1..], seps[1..]);
      JoinRunsTrimmed(tokens[1..], seps[1..]);
      SplitWhiteSpaceStep(tokens[0], seps[0], rest);
      SplitWhiteSpaceRuns(tokens[1..], seps[1..]);
      assert tokens == [tokens[0]] + tokens[1..];
    }
  }

  // ---------------------------------------------------------------- URL to domain

  /** `c` equals the lower-case ASCII character `p` ignoring case, as the
      `i` flag compares them. */
  predicate SameIgnoringCase(c: char, p: char) {
    c == p || ('a' <= p <= 'z' && c as int == p as int - 32)
  }

  predicate HasPrefixIgnoringCase(s: string, p: string) {
    |p| <= |s| && forall i | 0 <= i < |p| :: SameIgnoringCase(s[i], p[i])
  }

  /** `replace(/^https?:\/\//i, '')`. */
  function StripScheme(s: string): (r: string)
    ensures |r| <= |s| && r == s[|s| - |r|..]
  {
    if HasPrefixIgnoringCase(s, "https://") then s[8..]
    else if HasPrefixIgnoringCase(s, "http://") then s[7..]
    else s
  }

  /** The scheme is removed exactly when the string starts with `http://` or
      `https://` in any case, and what is removed ends in `://`. */
  lemma StripSchemeRemovesScheme(s: string)
    ensures StripScheme(s) == s <==> !HasPrefixIgnoringCase(s, "https://") && !HasPrefixIgnoringCase(s, "http://")
    ensures var n := |s| - |StripScheme(s)|;
            StripScheme(s) != s ==> (n == 7 || n == 8) && s[n - 3..n] == "://"
  {
  }

  /** `replace(/\/.*$/, '')`: the match starts at the first '/' that is
      followed by no line terminator (`.` does not match one and `$` has no
      `m` flag), and runs to the end. */
  function CutPath(s: string): (r: string)
    ensures |r| <= |s| && r == s[..|r|]
  {
    if s == [] then []
    else if s[0] == '/' && NoLineTerminator(s[1..]) then []
    else [s[0]] + CutPath(s[1..])
  }

  /** On a single line, `CutPath` keeps exactly what comes before the first
      '/'. */
  lemma {:induction false} CutPathStopsAtSlash(s: string)
    requires NoLineTerminator(s)
    ensures '/' !in CutPath(s)
    ensures CutPath(s) == s || s[|CutPath(s)|] == '/'
    decreases |s|
  {
    if s != [] && !(s[0] == '/') {
      assert NoLineTerminator(s[1..]);
      CutPathStopsAtSlash(s[1..]);
    }
  }

  /** A string with no '/' is left alone by `CutPath`. */
  lemma {:induction false} CutPathNoSlash(s: string)
    requires '/' !in s
    ensures CutPath(s) == s
  {
    if s != [] {
      assert '/' !in s[1..];
      CutPathNoSlash(s[1..]);
    }
  }

  /** A string with no '/' carries no scheme. */
  lemma StripSchemeNoSlash(s: string)
    requires '/' !in s
    ensures StripScheme(s) == s
  {
    if |s| > 6 {
      assert s[5] in s && s[6] in s;
      assert !SameIgnoringCase(s[5], '/') && !SameIgnoringCase(s[6], '/');
    }
  }

  /** `url.replace(/^https?:\/\//i, '').replace(/\/.*$/, '').trim()`. */
  function Domain(url: string): (d: string)
    ensures IsTrimmed(d)
  {
    Trim(CutPath(StripScheme(url)))
  }

  /** The domain of a single-line URL holds no '/'. */
  lemma DomainHasNoSlash(url: string)
    requires NoLineTerminator(url)
    ensures '/' !in Domain(url)
  {
    var t := StripScheme(url);
    assert NoLineTerminator(t) by {
      assert forall i | 0 <= i < |t| :: t[i] == url[|url| - |t| + i];
    }
    CutPathStopsAtSlash(t);
    TrimLacks(CutPath(t), '/');
  }

  /** Reducing a URL to its domain adds no character. */
  lemma DomainLacks(url: string, c: char)
    requires c !in url
    ensures c !in Domain(url)
  {
    assert c !in StripScheme(url);
    assert c !in CutPath(StripScheme(url));
    TrimLacks(CutPath(StripScheme(url)), c);
  }

  /** Reducing a line-terminator-free URL to its domain is idempotent. */
  lemma DomainIdempotent(url: string)
    requires NoLineTerminator(url)
    ensures Domain(Domain(url)) == Domain(url)
  {
    var d := Domain(url);
    DomainHasNoSlash(url);
    StripSchemeNoSlash(d);
    CutPathNoSlash(d);
    TrimIdempotent(CutPath(StripScheme(url)));
  }
}

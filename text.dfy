/** String routines of the validator: JavaScript's `\s` whitespace, the private
    `trim`, the word split behind WORDS_MIN / WORDS_MAX, and a hand-coded
    recognizer for the fixed e-mail pattern behind EMAIL. */
module Text {

  /** JavaScript's `\s` class (ECMAScript WhiteSpace and LineTerminator). */
  predicate IsSpace(c: char): (b: bool)
    ensures c == ' ' || c == '\t' || c == '\n' || c == '\r' ==> b
    ensures b ==> !IsLetter(c) && !IsDigit(c)
  {
    c == '\t' || c == '\n' || c == '\U{000B}' || c == '\U{000C}' || c == '\r' || c == ' '
    || c == '\U{00A0}' || c == '\U{1680}' || ('\U{2000}' <= c <= '\U{200A}')
    || c == '\U{2028}' || c == '\U{2029}' || c == '\U{202F}' || c == '\U{205F}'
    || c == '\U{3000}' || c == '\U{FEFF}'
  }

  /** The character class of the word-split pattern:
      space / , . ! ? + | ( ) & [ ] CR LF (no tab). */
  predicate IsSeparator(c: char): (b: bool)
    ensures c == ' ' || c == '\n' || c == '\r' ==> b
    ensures c == '\t' ==> !b
    ensures b ==> !IsLetter(c) && !IsDigit(c)
  {
    c == ' ' || c == '/' || c == ',' || c == '.' || c == '!' || c == '?' || c == '+'
    || c == '|' || c == '(' || c == ')' || c == '&' || c == '[' || c == ']'
    || c == '\r' || c == '\n'
  }

  // ---------------------------------------------------------------------------
  // length

  /** JavaScript's `s.length`: UTF-16 code units, so a character above U+FFFF
      (a surrogate pair) counts two. */
  function Utf16Length(s: string): (n: nat)
    ensures |s| <= n <= 2 * |s|
  {
    if s == [] then 0
    else Utf16Length(s[..|s| - 1]) + (if s[|s| - 1] <= '\U{FFFF}' then 1 else 2)
  }

  /** Without characters above U+FFFF the JavaScript length is the character count. */
  lemma {:induction false} Utf16LengthBmp(s: string)
    requires forall i :: 0 <= i < |s| ==> s[i] <= '\U{FFFF}'
    ensures Utf16Length(s) == |s|
  {
    if s != [] {
      Utf16LengthBmp(s[..|s| - 1]);
    }
  }

  /** The JavaScript length of a concatenation is the sum of the lengths. */
  lemma {:induction false} Utf16LengthAppend(a: string, b: string)
    ensures Utf16Length(a + b) == Utf16Length(a) + Utf16Length(b)
    decreases |b|
  {
    if b == [] {
      assert a + b == a;
    } else {
      var b' := b[..|b| - 1];
      assert (a + b)[..|a + b| - 1] == a + b';
      Utf16LengthAppend(a, b');
    }
  }

  /** One character outside the Basic Multilingual Plane has length two. */
  lemma Utf16LengthAstral()
    ensures Utf16Length("\U{1F600}") == 2
  {
    assert "\U{1F600}"[..0] == "";
  }

  // ---------------------------------------------------------------------------
  // trim

  /** Neither the first nor the last character is whitespace. */
  predicate NoEdgeSpace(s: string) {
    s == [] || (!IsSpace(s[0]) && !IsSpace(s[|s| - 1]))
  }

  /** `input.replace(/^\s+/, '')`: the longest suffix that does not start with whitespace. */
  function TrimStart(s: string): (r: string)
    ensures |r| <= |s| && r == s[|s| - |r|..]
    ensures forall i :: 0 <= i < |s| - |r| ==> IsSpace(s[i])
    ensures r == [] || !IsSpace(r[0])
  {
    if s != [] && IsSpace(s[0]) then
      var r := TrimStart(s[1..]);
      assert forall i :: 1 <= i < |s| ==> s[i] == s[1..][i - 1];
      r
    else s
  }

  /** The longest prefix that does not end with whitespace. */
  function TrimEnd(s: string): (r: string)
    ensures |r| <= |s| && r == s[..|r|]
    ensures forall i :: |r| <= i < |s| ==> IsSpace(s[i])
    ensures r == [] || !IsSpace(r[|r| - 1])
  {
    if s != [] && IsSpace(s[|s| - 1]) then TrimEnd(s[..|s| - 1]) else s
  }

  /** What `trim` returns. */
  function Trimmed(s: string): string {
    TrimEnd(TrimStart(s))
  }

  /** When position i holds the last non-whitespace character, TrimEnd cuts just after it. */
  lemma TrimEndAt(t: string, i: nat)
    requires i < |t| && !IsSpace(t[i])
    requires forall k :: i < k < |t| ==> IsSpace(t[k])
    ensures TrimEnd(t) == t[..i + 1]
  {
  }

  /** The private `trim` helper: strip leading whitespace, then scan backwards
      for the last non-whitespace character and cut after it. */
  method Trim(s: string) returns (input: string)
    ensures input == Trimmed(s)
  {
    input := TrimStart(s);
    ghost var stripped := input;
    var i := |input| - 1;
    while i >= 0
      invariant -1 <= i < |input|
      invariant input == stripped
      invariant forall k :: i < k < |input| ==> IsSpace(input[k])
    {
      if !IsSpace(input[i]) {
        TrimEndAt(input, i);
        input := input[..i + 1];
        break;
      }
      i := i - 1;
    }
  }

  /** r is s[i..j], and everything outside that slice is whitespace. */
  ghost predicate TrimSliceOf(s: string, r: string, i: int, j: int) {
    0 <= i <= j <= |s| && r == s[i..j]
    && (forall k :: 0 <= k < i ==> IsSpace(s[k]))
    && (forall k :: j <= k < |s| ==> IsSpace(s[k]))
  }

  lemma TrimmedNoEdge(s: string)
    ensures NoEdgeSpace(Trimmed(s))
  {
    var t := TrimStart(s);
    var r := TrimEnd(t);
    if r != [] {
      assert r[0] == t[0];
    }
  }

  /** Cutting whitespace from the end of a suffix t of s that only whitespace
      precedes leaves a slice of s with only whitespace outside it. */
  lemma SliceOfSlice(s: string, t: string, r: string, i: nat)
    requires i <= |s| && t == s[i..]
    requires forall k :: 0 <= k < i ==> IsSpace(s[k])
    requires |r| <= |t| && r == t[..|r|]
    requires forall k :: |r| <= k < |t| ==> IsSpace(t[k])
    ensures TrimSliceOf(s, r, i, i + |r|)
  {
    forall k | i + |r| <= k < |s|
      ensures IsSpace(s[k])
    {
      assert s[k] == t[k - i];
    }
  }

  /** trim returns a contiguous slice of its input with no whitespace at either
      edge, and everything it removed is whitespace. */
  lemma TrimmedSlice(s: string)
    ensures NoEdgeSpace(Trimmed(s))
    ensures exists i, j :: TrimSliceOf(s, Trimmed(s), i, j)
  {
    TrimmedNoEdge(s);
    var t := TrimStart(s);
    SliceOfSlice(s, t, TrimEnd(t), |s| - |t|);
  }

  /** A string already free of edge whitespace is returned unchanged. */
  lemma TrimmedFixed(s: string)
    requires NoEdgeSpace(s)
    ensures Trimmed(s) == s
  {
  }

  /** trim is idempotent. */
  lemma TrimIdempotent(s: string)
    ensures Trimmed(Trimmed(s)) == Trimmed(s)
  {
    TrimmedSlice(s);
    TrimmedFixed(Trimmed(s));
  }

  // ---------------------------------------------------------------------------
  // word split

  /** No character of s is a separator. */
  predicate NoSeparator(s: string) {
    forall i :: 0 <= i < |s| ==> !IsSeparator(s[i])
  }

  /** The index of the first separator in s, or |s| when there is none. */
  function FirstSeparator(s: string): (k: nat)
    ensures k <= |s|
  {
    if s == [] || IsSeparator(s[0]) then 0 else 1 + FirstSeparator(s[1..])
  }

  /** FirstSeparator stops at a separator and passes over none. */
  lemma {:induction false} FirstSeparatorSpec(s: string)
    ensures FirstSeparator(s) < |s| ==> IsSeparator(s[FirstSeparator(s)])
    ensures forall i :: 0 <= i < FirstSeparator(s) ==> !IsSeparator(s[i])
  {
    if s != [] && !IsSeparator(s[0]) {
      FirstSeparatorSpec(s[1..]);
      assert forall i :: 1 <= i < |s| ==> s[i] == s[1..][i - 1];
    }
  }

  /** FirstSeparator is determined by these two properties. */
  lemma {:induction false} FirstSeparatorIs(s: string, k: nat)
    requires k <= |s| && (k < |s| ==> IsSeparator(s[k]))
    requires forall i :: 0 <= i < k ==> !IsSeparator(s[i])
    ensures FirstSeparator(s) == k
  {
    if k > 0 {
      assert !IsSeparator(s[0]);
      assert forall i :: 0 <= i < k - 1 ==> s[1..][i] == s[i + 1];
      FirstSeparatorIs(s[1..], k - 1);
    }
  }

  /** The length of the run of separators at the front of s. */
  function SeparatorRun(s: string): (k: nat)
    ensures k <= |s|
  {
    if s != [] && IsSeparator(s[0]) then 1 + SeparatorRun(s[1..]) else 0
  }

  /** SeparatorRun covers separators only and stops before a non-separator. */
  lemma {:induction false} SeparatorRunSpec(s: string)
    ensures forall i :: 0 <= i < SeparatorRun(s) ==> IsSeparator(s[i])
    ensures SeparatorRun(s) < |s| ==> !IsSeparator(s[SeparatorRun(s)])
  {
    if s != [] && IsSeparator(s[0]) {
      SeparatorRunSpec(s[1..]);
      assert forall i :: 1 <= i < |s| ==> s[i] == s[1..][i - 1];
    }
  }

  /** SeparatorRun is determined by these two properties. */
  lemma {:induction false} SeparatorRunIs(s: string, k: nat)
    requires k <= |s|
    requires forall i :: 0 <= i < k ==> IsSeparator(s[i])
    requires k < |s| ==> !IsSeparator(s[k])
    ensures SeparatorRun(s) == k
  {
    if k > 0 {
      assert IsSeparator(s[0]);
      assert forall i :: 0 <= i < k - 1 ==> s[1..][i] == s[i + 1];
      SeparatorRunIs(s[1..], k - 1);
    }
  }

  /** `s.split(word_split_pattern)`: the chunks between maximal separator runs,
      found left to right; a leading or trailing run yields an empty chunk and
      the empty string splits into one empty chunk. */
  function Split(s: string): (chunks: seq<string>)
    ensures |chunks| >= 1
    decreases |s|
  {
    var i := FirstSeparator(s);
    if i == |s| then [s]
    else
      var j := i + SeparatorRun(s[i..]);
      [s[..i]] + Split(s[j..])
  }

  /** Split yields at least one chunk, and no chunk contains a separator. */
  lemma {:induction false} SplitChunks(s: string)
    ensures |Split(s)| >= 1
    ensures forall k :: 0 <= k < |Split(s)| ==> NoSeparator(Split(s)[k])
    decreases |s|
  {
    var i := FirstSeparator(s);
    FirstSeparatorSpec(s);
    if i < |s| {
      var j := i + SeparatorRun(s[i..]);
      SplitChunks(s[j..]);
      SplitStep(s, i, j);
      var head, tail := s[..i], Split(s[j..]);
      assert NoSeparator(head);
      forall k | 0 <= k < |Split(s)|
        ensures NoSeparator(Split(s)[k])
      {
        if k > 0 {
          assert Split(s)[k] == tail[k - 1];
        }
      }
    } else {
      assert s[..i] == s;
    }
  }

  /** A maximal run of separators begins at position i. */
  predicate RunStartsAt(s: string, i: nat)
    requires i < |s|
  {
    IsSeparator(s[i]) && (i == 0 || !IsSeparator(s[i - 1]))
  }

  /** The number of positions at or after `from` where a maximal separator run begins. */
  function RunsFrom(s: string, from: nat): nat
    requires from <= |s|
    decreases |s| - from
  {
    if from == |s| then 0
    else (if RunStartsAt(s, from) then 1 else 0) + RunsFrom(s, from + 1)
  }

  /** The number of maximal separator runs in s. */
  function RunCount(s: string): nat {
    RunsFrom(s, 0)
  }

  /** The number of words WORDS_MIN / WORDS_MAX compare against: never below
      one, since even a blank value splits into one (empty) chunk. */
  function WordCount(s: string): (n: nat)
    ensures n >= 1
  {
    |Split(Trimmed(s))|
  }

  lemma {:induction false} RunsFromSkip(s: string, a: nat, b: nat)
    requires a <= b <= |s|
    requires forall k :: a <= k < b ==> !RunStartsAt(s, k)
    ensures RunsFrom(s, a) == RunsFrom(s, b)
    decreases b - a
  {
    if a < b {
      RunsFromSkip(s, a + 1, b);
    }
  }

  lemma {:induction false} RunsFromShift(s: string, j: nat, m: nat)
    requires j + m <= |s|
    requires m > 0 || j + m == |s| || !IsSeparator(s[j])
    ensures RunsFrom(s, j + m) == RunsFrom(s[j..], m)
    decreases |s| - j - m
  {
    if j + m < |s| {
      RunsFromShift(s, j, m + 1);
      assert RunStartsAt(s, j + m) == RunStartsAt(s[j..], m);
    }
  }

  lemma NoRuns(s: string)
    requires NoSeparator(s)
    ensures RunCount(s) == 0
  {
    RunsFromSkip(s, 0, |s|);
  }

  /** The first separator of s starts a run, and the positions before its end add nothing more. */
  lemma FirstRun(s: string, i: nat, j: nat)
    requires i == FirstSeparator(s) < |s|
    requires j == i + SeparatorRun(s[i..])
    ensures j <= |s| && RunCount(s) == 1 + RunsFrom(s, j)
  {
    FirstSeparatorSpec(s);
    SeparatorRunSpec(s[i..]);
    assert forall k :: 0 <= k < i ==> s[..i][k] == s[k];
    RunsFromSkip(s, 0, i);
    assert RunStartsAt(s, i);
    assert forall k :: i <= k < j ==> s[i..][k - i] == s[k];
    RunsFromSkip(s, i + 1, j);
  }

  /** Past the first separator run, the runs of s are the runs of the rest plus one. */
  lemma RunCountStep(s: string, i: nat, j: nat)
    requires i == FirstSeparator(s) < |s|
    requires j == i + SeparatorRun(s[i..])
    ensures RunCount(s) == 1 + RunCount(s[j..])
  {
    FirstRun(s, i, j);
    RunsAfter(s, i, j);
  }

  /** The runs from the end of a separator run on are the runs of the rest of the string. */
  lemma RunsAfter(s: string, i: nat, j: nat)
    requires i <= |s| && j == i + SeparatorRun(s[i..])
    ensures j <= |s| && RunsFrom(s, j) == RunCount(s[j..])
  {
    RunEnd(s, i, j);
    RunsFromShift(s, j, 0);
  }

  /** The character after a separator run is not a separator. */
  lemma RunEnd(s: string, i: nat, j: nat)
    requires i <= |s| && j == i + SeparatorRun(s[i..])
    ensures j <= |s| && (j == |s| || !IsSeparator(s[j]))
  {
    SeparatorRunSpec(s[i..]);
    assert j < |s| ==> s[j] == s[i..][j - i];
  }

  /** A string without separators has no runs and is one chunk. */
  lemma SplitCountNone(s: string)
    requires FirstSeparator(s) == |s|
    ensures |Split(s)| == 1 && RunCount(s) == 0
  {
    FirstSeparatorSpec(s);
    NoRuns(s);
  }

  /** The number of chunks is the number of maximal separator runs plus one. */
  lemma {:induction false} SplitCount(s: string)
    ensures |Split(s)| == RunCount(s) + 1
    decreases |s|
  {
    var i := FirstSeparator(s);
    if i == |s| {
      SplitCountNone(s);
    } else {
      var j := i + SeparatorRun(s[i..]);
      SplitCount(s[j..]);
      SplitStep(s, i, j);
      RunCountStep(s, i, j);
    }
  }

  /** The word count is the number of maximal separator runs in the trimmed value plus one. */
  lemma WordCountRuns(s: string)
    ensures WordCount(s) == RunCount(Trimmed(s)) + 1
  {
    SplitCount(Trimmed(s));
  }

  /** A string without separators is a single chunk. */
  lemma SplitNone(w: string)
    requires NoSeparator(w)
    ensures Split(w) == [w]
  {
    FirstSeparatorIs(w, |w|);
    assert w[..FirstSeparator(w)] == w;
  }

  /** When the first separator of s is a single space at position k, the first
      chunk ends at k and the next one starts at k + 1. */
  lemma SpaceAt(s: string, k: nat)
    requires k < |s| && s[k] == ' '
    requires forall i :: 0 <= i < k ==> !IsSeparator(s[i])
    requires k + 1 == |s| || !IsSeparator(s[k + 1])
    ensures FirstSeparator(s) == k && SeparatorRun(s[k..]) == 1
  {
    FirstSeparatorIs(s, k);
    var t := s[k..];
    assert t[0] == ' ' && (1 < |t| ==> t[1] == s[k + 1]);
    SeparatorRunIs(t, 1);
  }

  /** One step of Split on a string that contains a separator. */
  lemma SplitStep(s: string, i: nat, j: nat)
    requires i == FirstSeparator(s) < |s|
    requires j == i + SeparatorRun(s[i..])
    ensures Split(s) == [s[..i]] + Split(s[j..])
  {
  }

  /** A separator-free word, one space, and a rest that does not start with a
      separator split into the word followed by the chunks of the rest. */
  lemma SplitCons(a: string, rest: string)
    requires NoSeparator(a)
    requires rest == [] || !IsSeparator(rest[0])
    ensures Split(a + " " + rest) == [a] + Split(rest)
  {
    var s := a + " " + rest;
    assert forall i :: 0 <= i < |a| ==> s[i] == a[i];
    SpaceAt(s, |a|);
    SplitStep(s, |a|, |a| + 1);
    assert s[..|a|] == a && s[|a| + 1..] == rest;
  }

  /** Two separator-free words joined by one space split into those two words. */
  lemma SplitTwo(a: string, b: string)
    requires NoSeparator(a) && NoSeparator(b) && b != []
    ensures Split(a + " " + b) == [a, b]
  {
    SplitCons(a, b);
    SplitNone(b);
  }

  /** Three separator-free words joined by single spaces split into those three words. */
  lemma SplitThree(a: string, b: string, c: string)
    requires NoSeparator(a) && NoSeparator(b) && NoSeparator(c) && b != [] && c != []
    ensures Split(a + " " + (b + " " + c)) == [a, b, c]
  {
    SplitCons(a, b + " " + c);
    SplitTwo(b, c);
  }

  /** On a string without edge whitespace the word count is the number of chunks. */
  lemma WordCountUntrimmed(s: string)
    requires NoEdgeSpace(s)
    ensures WordCount(s) == |Split(s)|
  {
    TrimmedFixed(s);
  }

  /** Three separator-free words joined by single spaces count as three words. */
  lemma WordCountThree(a: string, b: string, c: string)
    requires NoSeparator(a) && NoSeparator(b) && NoSeparator(c) && b != [] && c != []
    requires NoEdgeSpace(a + " " + (b + " " + c))
    ensures WordCount(a + " " + (b + " " + c)) == 3
  {
    SplitThree(a, b, c);
    WordCountUntrimmed(a + " " + (b + " " + c));
  }

  /** Two separator-free words joined by a single space count as two words. */
  lemma WordCountTwo(a: string, b: string)
    requires NoSeparator(a) && NoSeparator(b) && b != []
    requires NoEdgeSpace(a + " " + b)
    ensures WordCount(a + " " + b) == 2
  {
    SplitTwo(a, b);
    WordCountUntrimmed(a + " " + b);
  }

  /** The word count of "one two three" is 3. */
  lemma WordCountOneTwoThree()
    ensures WordCount("one two three") == 3
  {
    assert "one" + " " + ("two" + " " + "three") == "one two three";
    WordCountThree("one", "two", "three");
  }

  /** The word count of "one two" is 2. */
  lemma WordCountOneTwo()
    ensures WordCount("one two") == 2
  {
    assert "one" + " " + "two" == "one two";
    WordCountTwo("one", "two");
  }

  /** The empty string still counts as one word. */
  lemma WordCountEmpty()
    ensures WordCount("") == 1
  {
  }

  // ---------------------------------------------------------------------------
  // e-mail shape

  predicate IsLetter(c: char) { 'a' <= c <= 'z' || 'A' <= c <= 'Z' }

  predicate IsDigit(c: char) { '0' <= c <= '9' }

  /** `[a-zA-Z0-9._-]` */
  predicate IsLocalChar(c: char) { IsLetter(c) || IsDigit(c) || c == '.' || c == '_' || c == '-' }

  /** `[a-zA-Z0-9.-]` */
  predicate IsDomainChar(c: char) { IsLetter(c) || IsDigit(c) || c == '.' || c == '-' }

  predicate AllLocal(s: string) { forall i :: 0 <= i < |s| ==> IsLocalChar(s[i]) }

  predicate AllDomain(s: string) { forall i :: 0 <= i < |s| ==> IsDomainChar(s[i]) }

  predicate AllLetters(s: string) { forall i :: 0 <= i < |s| ==> IsLetter(s[i]) }

  /** The index of the first occurrence of c in s, or |s| when there is none. */
  function IndexOf(s: string, c: char): (k: nat)
    ensures k <= |s|
    ensures k < |s| ==> s[k] == c
    ensures forall i :: 0 <= i < k ==> s[i] != c
  {
    if s == [] || s[0] == c then 0 else 1 + IndexOf(s[1..], c)
  }

  /** d, the text after the '@', is a non-empty domain, then '.', then exactly n letters. */
  predicate EndsWithTld(d: string, n: nat) {
    n + 2 <= |d| && d[|d| - n - 1] == '.'
    && AllLetters(d[|d| - n..]) && AllDomain(d[..|d| - n - 1])
  }

  /** The recognizer for `^[a-zA-Z0-9._-]+@[a-zA-Z0-9.-]+\.[a-zA-Z]{2,4}$`:
      split at the first '@', then try each length of the final letter run. */
  predicate IsEmail(s: string): (b: bool)
    ensures b ==> 6 <= |s|
  {
    var at := IndexOf(s, '@');
    0 < at < |s| && AllLocal(s[..at])
    && (EndsWithTld(s[at + 1..], 2) || EndsWithTld(s[at + 1..], 3) || EndsWithTld(s[at + 1..], 4))
  }

  /** The pattern read declaratively: '@' at position `at` and the final '.' at
      position `dot` cut s into a non-empty local part, a non-empty domain and
      2 to 4 trailing letters. */
  ghost predicate EmailParts(s: string, at: int, dot: int) {
    0 < at && at + 1 < dot && dot + 3 <= |s| <= dot + 5
    && s[at] == '@' && s[dot] == '.'
    && (forall i :: 0 <= i < at ==> IsLocalChar(s[i]))
    && (forall i :: at < i < dot ==> IsDomainChar(s[i]))
    && (forall i :: dot < i < |s| ==> IsLetter(s[i]))
  }

  /** Whatever the recognizer accepts has the shape the pattern describes. */
  lemma EmailSound(s: string)
    requires IsEmail(s)
    ensures exists at, dot :: EmailParts(s, at, dot)
  {
    var at := IndexOf(s, '@');
    var d := s[at + 1..];
    var n := if EndsWithTld(d, 2) then 2 else if EndsWithTld(d, 3) then 3 else 4;
    var dot := |s| - n - 1;
    forall i | 0 <= i < at
      ensures IsLocalChar(s[i])
    {
      assert s[..at][i] == s[i];
    }
    forall i | at < i < dot
      ensures IsDomainChar(s[i])
    {
      assert d[..|d| - n - 1][i - at - 1] == s[i];
    }
    forall i | dot < i < |s|
      ensures IsLetter(s[i])
    {
      assert d[|d| - n..][i - dot - 1] == s[i];
    }
    assert EmailParts(s, at, dot);
  }

  /** IndexOf finds position k when c first occurs there. */
  lemma IndexOfAt(s: string, c: char, k: nat)
    requires k < |s| && s[k] == c
    requires forall i :: 0 <= i < k ==> s[i] != c
    ensures IndexOf(s, c) == k
  {
  }

  /** IndexOf reaches the end when c does not occur. */
  lemma IndexOfNone(s: string, c: char)
    requires forall i :: 0 <= i < |s| ==> s[i] != c
    ensures IndexOf(s, c) == |s|
  {
  }

  /** The text after the '@' of a well-shaped string ends in its top-level part. */
  lemma TldOf(s: string, at: int, dot: int)
    requires EmailParts(s, at, dot)
    ensures EndsWithTld(s[at + 1..], |s| - dot - 1)
  {
    var d := s[at + 1..];
    var n := |s| - dot - 1;
    var tld, domain := d[|d| - n..], d[..|d| - n - 1];
    forall i | 0 <= i < |tld|
      ensures IsLetter(tld[i])
    {
      assert tld[i] == s[dot + 1 + i];
    }
    forall i | 0 <= i < |domain|
      ensures IsDomainChar(domain[i])
    {
      assert domain[i] == s[at + 1 + i];
    }
  }

  /** Whatever has the shape the pattern describes, the recognizer accepts. */
  lemma EmailComplete(s: string, at: int, dot: int)
    requires EmailParts(s, at, dot)
    ensures IsEmail(s)
  {
    forall i | 0 <= i < at
      ensures s[i] != '@'
    {
      assert IsLocalChar(s[i]);
    }
    IndexOfAt(s, '@', at);
    TldOf(s, at, dot);
    var n := |s| - dot - 1;
    assert 2 <= n <= 4;
    forall i | 0 <= i < at
      ensures IsLocalChar(s[..at][i])
    {
      assert s[..at][i] == s[i];
    }
  }

  /** The recognizer accepts exactly the strings the pattern describes. */
  lemma EmailRecognizer(s: string)
    ensures IsEmail(s) <==> exists at, dot :: EmailParts(s, at, dot)
  {
    if IsEmail(s) {
      EmailSound(s);
    }
    if exists at, dot :: EmailParts(s, at, dot) {
      var at, dot :| EmailParts(s, at, dot);
      EmailComplete(s, at, dot);
    }
  }

  /** Every accepted string has exactly one '@', a non-empty local part over
      `[A-Za-z0-9._-]`, a non-empty domain over `[A-Za-z0-9.-]`, and ends in '.'
      followed by 2 to 4 ASCII letters. */
  lemma EmailFeatures(s: string)
    requires IsEmail(s)
    ensures exists at, dot :: EmailParts(s, at, dot)
                              && (forall i :: 0 <= i < |s| && i != at ==> s[i] != '@')
  {
    EmailRecognizer(s);
    var at, dot :| EmailParts(s, at, dot);
    forall i | 0 <= i < |s| && i != at
      ensures s[i] != '@'
    {
      if i < at { assert IsLocalChar(s[i]); }
      else if i < dot { assert IsDomainChar(s[i]); }
      else if i > dot { assert IsLetter(s[i]); }
    }
  }

  /** "a@b.com" is accepted. */
  lemma EmailAccepts()
    ensures IsEmail("a@b.com")
  {
    var s := "a@b.com";
    assert IndexOf(s, '@') == 1;
    assert s[..1] == "a" && s[2..] == "b.com";
    assert "b.com"[2..] == "com" && "b.com"[..1] == "b";
    assert EndsWithTld("b.com", 3);
  }

  /** "not-an-email" is rejected: it has no '@'. */
  lemma EmailRejects()
    ensures !IsEmail("not-an-email")
  {
    var s := "not-an-email";
    assert forall i :: 0 <= i < |s| ==> s[i] != '@';
    IndexOfNone(s, '@');
  }
}

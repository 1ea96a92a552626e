/**
 * The single line pattern of the dump filter,
 *
 *   ([\w|_]+)\s+\(0[x|X]([0-9|a-z|A-Z]+),\s+"([\w|_]+)"\)
 *
 * written out by hand over ASCII text. The character classes keep the
 * pattern's literal `|` members: `|` belongs to the word class, to the radix
 * mark `[x|X]` and to the digit class, and the digit class admits every ASCII
 * letter, not only `a`-`f`.
 *
 * `IsMatch` is the pattern read declaratively: positions that cut a piece of
 * the line into the pattern's parts. `MatchBounds` computes the cut greedily,
 * and is proved to find a match exactly when one exists and to find the only
 * one. `Captures` is the leftmost-start search of the regex engine.
 */
module LinePattern {
  import opened Wrappers

  predicate IsAsciiLetter(c: char) { 'a' <= c <= 'z' || 'A' <= c <= 'Z' }

  predicate IsAsciiDigit(c: char) { '0' <= c <= '9' }

  /** `[\w|_]` on ASCII text: letters, digits, `_`, and the literal `|`. */
  predicate IsWordChar(c: char) { IsAsciiLetter(c) || IsAsciiDigit(c) || c == '_' || c == '|' }

  /** `\s` on ASCII text: space, tab, line feed, vertical tab, form feed, carriage return. */
  predicate IsSpaceChar(c: char) {
    c == ' ' || c == '\t' || c == '\n' || c == '\U{B}' || c == '\U{C}' || c == '\r'
  }

  /** `[x|X]`: `x`, `X`, and the literal `|`. */
  predicate IsRadixMark(c: char) { c == 'x' || c == 'X' || c == '|' }

  /** `[0-9|a-z|A-Z]`: every ASCII digit and letter, and the literal `|`. */
  predicate IsDigitClassChar(c: char) { IsAsciiDigit(c) || IsAsciiLetter(c) || c == '|' }

  /** The three classes the pattern repeats with `+`. */
  datatype CharClass = Word | Space | DigitClass

  predicate InClass(k: CharClass, c: char) {
    match k
    case Word => IsWordChar(c)
    case Space => IsSpaceChar(c)
    case DigitClass => IsDigitClassChar(c)
  }

  /** Every character of s[lo..hi] is in class k. */
  ghost predicate AllInRange(k: CharClass, s: string, lo: nat, hi: nat) {
    lo <= hi <= |s| && forall p :: lo <= p < hi ==> InClass(k, s[p])
  }

  /** Where a greedy repetition of class k that starts at i stops. */
  function RunEnd(s: string, i: nat, k: CharClass): (j: nat)
    requires i <= |s|
    ensures i <= j <= |s|
    decreases |s| - i
  {
    if i < |s| && InClass(k, s[i]) then RunEnd(s, i + 1, k) else i
  }

  /** The greedy repetition stops at the end of the longest run of class k from i. */
  lemma {:induction false} RunEndIsLongestRun(s: string, i: nat, k: CharClass)
    requires i <= |s|
    ensures forall p :: i <= p < RunEnd(s, i, k) ==> InClass(k, s[p])
    ensures RunEnd(s, i, k) == |s| || !InClass(k, s[RunEnd(s, i, k)])
    decreases |s| - i
  {
    if i < |s| && InClass(k, s[i]) {
      RunEndIsLongestRun(s, i + 1, k);
    }
  }

  /**
   * The cut points of one match. With `start` the match's first position:
   * group 1 is s[start..directiveEnd]; whitespace runs up to `open`, where
   * `(`, `0` and the radix mark stand; group 2 is s[open + 3..digitsEnd];
   * a `,` and whitespace run up to `quote`, the opening `"`; group 3 is
   * s[quote + 1..nameEnd]; then `"` and `)` close the match.
   */
  datatype Bounds = Bounds(directiveEnd: nat, open: nat, digitsEnd: nat, quote: nat, nameEnd: nat)

  /** The pattern matches the text of s that begins at `start`, cut as b says. */
  ghost predicate IsMatch(s: string, start: nat, b: Bounds) {
    HeadMatches(s, start, b) && TailMatches(s, b)
  }

  /** Group 1, whitespace, `(0` and the radix mark, and group 2, as b cuts them. */
  ghost predicate HeadMatches(s: string, start: nat, b: Bounds) {
    && start < b.directiveEnd && AllInRange(Word, s, start, b.directiveEnd)
    && b.directiveEnd < b.open && AllInRange(Space, s, b.directiveEnd, b.open)
    && b.open + 3 < b.digitsEnd && AllInRange(DigitClass, s, b.open + 3, b.digitsEnd)
    && s[b.open] == '(' && s[b.open + 1] == '0' && IsRadixMark(s[b.open + 2])
  }

  /** The `,` after group 2, whitespace, and the quoted group 3 closed by `)`, as b cuts them. */
  ghost predicate TailMatches(s: string, b: Bounds) {
    && b.digitsEnd < |s| && s[b.digitsEnd] == ','
    && b.digitsEnd + 1 < b.quote && AllInRange(Space, s, b.digitsEnd + 1, b.quote)
    && b.quote < |s| && s[b.quote] == '"'
    && b.quote + 1 < b.nameEnd && AllInRange(Word, s, b.quote + 1, b.nameEnd)
    && b.nameEnd + 1 < |s| && s[b.nameEnd] == '"' && s[b.nameEnd + 1] == ')'
  }

  /** The match that starts at `start`, found by taking every repetition greedily. */
  function MatchBounds(s: string, start: nat): Option<Bounds>
    requires start <= |s|
  {
    var directiveEnd := RunEnd(s, start, Word);
    var open := RunEnd(s, directiveEnd, Space);
    if directiveEnd == start || open == directiveEnd || open + 3 >= |s| then None
    else if s[open] != '(' || s[open + 1] != '0' || !IsRadixMark(s[open + 2]) then None
    else
      var digitsEnd := RunEnd(s, open + 3, DigitClass);
      if digitsEnd == open + 3 || digitsEnd == |s| then None
      else MatchTail(s, directiveEnd, open, digitsEnd)
  }

  /** The rest of the greedy match, once group 2 ends at digitsEnd. */
  function MatchTail(s: string, directiveEnd: nat, open: nat, digitsEnd: nat): Option<Bounds>
    requires digitsEnd < |s|
  {
    if s[digitsEnd] != ',' then None
    else
      var quote := RunEnd(s, digitsEnd + 1, Space);
      if quote == digitsEnd + 1 || quote == |s| || s[quote] != '"' then None
      else
        var nameEnd := RunEnd(s, quote + 1, Word);
        if nameEnd == quote + 1 || nameEnd + 1 >= |s| || s[nameEnd] != '"' || s[nameEnd + 1] != ')' then None
        else Some(Bounds(directiveEnd, open, digitsEnd, quote, nameEnd))
  }

  /** A maximal run of class k from i, given by its end j, is the run RunEnd finds. */
  lemma RunEndIsMaximalRun(s: string, i: nat, k: CharClass, j: nat)
    requires i <= j <= |s|
    requires forall p :: i <= p < j ==> InClass(k, s[p])
    requires j == |s| || !InClass(k, s[j])
    ensures RunEnd(s, i, k) == j
  {
    RunEndIsLongestRun(s, i, k);
  }

  /** What the greedy matcher finds is a match. */
  lemma MatchBoundsSound(s: string, start: nat)
    requires start <= |s| && MatchBounds(s, start).Some?
    ensures IsMatch(s, start, MatchBounds(s, start).value)
  {
    var b := MatchBounds(s, start).value;
    RunEndIsLongestRun(s, start, Word);
    RunEndIsLongestRun(s, b.directiveEnd, Space);
    RunEndIsLongestRun(s, b.open + 3, DigitClass);
    MatchTailSound(s, b.directiveEnd, b.open, b.digitsEnd);
  }

  /** What the tail matcher finds keeps the cut it was given and matches the tail of the pattern. */
  lemma MatchTailSound(s: string, directiveEnd: nat, open: nat, digitsEnd: nat)
    requires digitsEnd < |s| && MatchTail(s, directiveEnd, open, digitsEnd).Some?
    ensures var b := MatchTail(s, directiveEnd, open, digitsEnd).value;
      b.directiveEnd == directiveEnd && b.open == open && b.digitsEnd == digitsEnd && TailMatches(s, b)
  {
    var b := MatchTail(s, directiveEnd, open, digitsEnd).value;
    RunEndIsLongestRun(s, digitsEnd + 1, Space);
    RunEndIsLongestRun(s, b.quote + 1, Word);
  }

  /**
   * Every way of cutting a match at `start` is the one MatchBounds finds:
   * the pattern's pieces are each followed by a character outside their class,
   * so the greedy runs are forced and the match at a start is unique.
   */
  lemma MatchBoundsComplete(s: string, start: nat, b: Bounds)
    requires IsMatch(s, start, b)
    ensures MatchBounds(s, start) == Some(b)
  {
    RunEndIsMaximalRun(s, start, Word, b.directiveEnd);
    RunEndIsMaximalRun(s, b.directiveEnd, Space, b.open);
    RunEndIsMaximalRun(s, b.open + 3, DigitClass, b.digitsEnd);
    MatchTailComplete(s, b);
  }

  /** Every cut of the tail of the pattern is the one the tail matcher finds. */
  lemma MatchTailComplete(s: string, b: Bounds)
    requires TailMatches(s, b)
    ensures MatchTail(s, b.directiveEnd, b.open, b.digitsEnd) == Some(b)
  {
    RunEndIsMaximalRun(s, b.digitsEnd + 1, Space, b.quote);
    RunEndIsMaximalRun(s, b.quote + 1, Word, b.nameEnd);
  }

  /** No cut of the text at `start` matches the pattern. */
  ghost predicate NoMatchAt(s: string, start: nat) {
    forall b: Bounds :: !IsMatch(s, start, b)
  }

  /** The greedy matcher fails at `start` exactly when the pattern cannot match there. */
  lemma MatchBoundsNone(s: string, start: nat)
    requires start <= |s|
    ensures MatchBounds(s, start).None? <==> NoMatchAt(s, start)
  {
    if MatchBounds(s, start).None? {
      forall b: Bounds | IsMatch(s, start, b) ensures false {
        MatchBoundsComplete(s, start, b);
      }
    } else {
      MatchBoundsSound(s, start);
    }
  }

  /**
   * The greedy matcher reports a cut of the text at `start` exactly when that
   * cut matches the pattern: the match at a start is unique.
   */
  lemma MatchBoundsExactly(s: string, start: nat, b: Bounds)
    requires start <= |s|
    ensures MatchBounds(s, start) == Some(b) <==> IsMatch(s, start, b)
  {
    if MatchBounds(s, start) == Some(b) {
      MatchBoundsSound(s, start);
    }
    if IsMatch(s, start, b) {
      MatchBoundsComplete(s, start, b);
    }
  }

  /** The three capture groups of a match: directive keyword, address digits, symbol name. */
  datatype Groups = Groups(directive: string, digits: string, name: string)

  function GroupsOf(s: string, start: nat, b: Bounds): Groups
    requires IsMatch(s, start, b)
  {
    Groups(s[start..b.directiveEnd], s[b.open + 3..b.digitsEnd], s[b.quote + 1..b.nameEnd])
  }

  /** Each group is non-empty and made of its class: word characters, digit-class characters, word characters. */
  lemma GroupsInClass(s: string, start: nat, b: Bounds)
    requires IsMatch(s, start, b)
    ensures var g := GroupsOf(s, start, b);
      && |g.directive| > 0 && (forall p :: 0 <= p < |g.directive| ==> IsWordChar(g.directive[p]))
      && |g.digits| > 0 && (forall p :: 0 <= p < |g.digits| ==> IsDigitClassChar(g.digits[p]))
      && |g.name| > 0 && (forall p :: 0 <= p < |g.name| ==> IsWordChar(g.name[p]))
  {
    var g := GroupsOf(s, start, b);
    assert forall p :: 0 <= p < |g.directive| ==> g.directive[p] == s[start + p];
    assert forall p :: 0 <= p < |g.digits| ==> g.digits[p] == s[b.open + 3 + p];
    assert forall p :: 0 <= p < |g.name| ==> g.name[p] == s[b.quote + 1 + p];
  }

  /** A match at `start` and none at any earlier position: the match the regex engine reports. */
  ghost predicate IsLeftmost(s: string, start: nat, b: Bounds) {
    IsMatch(s, start, b) && forall j: nat :: j < start ==> NoMatchAt(s, j)
  }

  /** Search from position i onward, trying each start in turn. */
  function FindFrom(s: string, i: nat): (r: Option<(nat, Bounds)>)
    requires i <= |s|
    ensures r.Some? ==> i <= r.value.0 <= |s|
    decreases |s| - i
  {
    match MatchBounds(s, i)
    case Some(b) => Some((i, b))
    case None => if i == |s| then None else FindFrom(s, i + 1)
  }

  /**
   * The search reports the first start at or after i where the pattern
   * matches, with that match, or nothing when it matches at no such start.
   */
  lemma FindFromIsFirstMatch(s: string, i: nat)
    requires i <= |s|
    ensures var r := FindFrom(s, i);
      && (r.Some? ==> IsMatch(s, r.value.0, r.value.1))
      && (r.Some? ==> forall j: nat :: i <= j < r.value.0 ==> NoMatchAt(s, j))
      && (r.None? ==> forall j: nat :: i <= j <= |s| ==> NoMatchAt(s, j))
  {
    if FindFrom(s, i).Some? {
      FindFromFound(s, i);
    } else {
      FindFromMissed(s, i);
    }
  }

  lemma {:induction false} FindFromFound(s: string, i: nat)
    requires i <= |s| && FindFrom(s, i).Some?
    ensures IsMatch(s, FindFrom(s, i).value.0, FindFrom(s, i).value.1)
    ensures forall j: nat :: i <= j < FindFrom(s, i).value.0 ==> NoMatchAt(s, j)
    decreases |s| - i
  {
    if MatchBounds(s, i).Some? {
      assert FindFrom(s, i) == Some((i, MatchBounds(s, i).value));
      MatchBoundsSound(s, i);
    } else {
      assert FindFrom(s, i) == FindFrom(s, i + 1);
      FindFromFound(s, i + 1);
      MatchBoundsNone(s, i);
    }
  }

  lemma {:induction false} FindFromMissed(s: string, i: nat)
    requires i <= |s| && FindFrom(s, i).None?
    ensures forall j: nat :: i <= j <= |s| ==> NoMatchAt(s, j)
    decreases |s| - i
  {
    MatchBoundsNone(s, i);
    if i < |s| {
      FindFromMissed(s, i + 1);
    }
  }

  /** `Regex::captures` with this pattern: the groups of the leftmost match, if the line has one. */
  function Captures(s: string): Option<Groups> {
    FindFromIsFirstMatch(s, 0);
    match FindFrom(s, 0)
    case None => None
    case Some((start, b)) => Some(GroupsOf(s, start, b))
  }

  /** A line has captures exactly when the pattern matches somewhere in it. */
  lemma CapturesExactlyWhenMatched(s: string)
    ensures Captures(s).None? <==> forall j: nat :: j <= |s| ==> NoMatchAt(s, j)
  {
    FindFromIsFirstMatch(s, 0);
    if FindFrom(s, 0).Some? {
      assert !NoMatchAt(s, FindFrom(s, 0).value.0);
    }
  }

  /** The groups `Captures` reports are non-empty and each made of its class. */
  lemma CapturedGroupsInClass(s: string)
    requires Captures(s).Some?
    ensures var g := Captures(s).value;
      && |g.directive| > 0 && (forall p :: 0 <= p < |g.directive| ==> IsWordChar(g.directive[p]))
      && |g.digits| > 0 && (forall p :: 0 <= p < |g.digits| ==> IsDigitClassChar(g.digits[p]))
      && |g.name| > 0 && (forall p :: 0 <= p < |g.name| ==> IsWordChar(g.name[p]))
  {
    FindFromIsFirstMatch(s, 0);
    var (start, b) := FindFrom(s, 0).value;
    GroupsInClass(s, start, b);
  }

  /** What `Captures` reports are the groups of a leftmost match. */
  lemma CapturesAreLeftmost(s: string)
    requires Captures(s).Some?
    ensures exists start: nat, b: Bounds :: IsLeftmost(s, start, b) && Captures(s).value == GroupsOf(s, start, b)
  {
    FindFromIsFirstMatch(s, 0);
    var (start, b) := FindFrom(s, 0).value;
    assert IsLeftmost(s, start, b);
  }

  /** The leftmost match is the one reported, whatever matches follow it. */
  lemma LeftmostIsReported(s: string, start: nat, b: Bounds)
    requires IsLeftmost(s, start, b)
    ensures Captures(s) == Some(GroupsOf(s, start, b))
  {
    MatchBoundsComplete(s, start, b);
    MatchBoundsNone(s, start);
    assert !NoMatchAt(s, start);
    FindFromIsFirstMatch(s, 0);
    var r := FindFrom(s, 0);
    assert r.Some?;
    var (k, bk) := r.value;
    assert !NoMatchAt(s, k);
    assert k == start;
    MatchBoundsComplete(s, k, bk);
  }

  /** `captures` yields g exactly when g are the groups of the leftmost match. */
  lemma CapturesExactly(s: string, g: Groups)
    ensures Captures(s) == Some(g) <==>
      exists start: nat, b: Bounds :: IsLeftmost(s, start, b) && g == GroupsOf(s, start, b)
  {
    if Captures(s) == Some(g) {
      CapturesAreLeftmost(s);
    }
    if exists start: nat, b: Bounds :: IsLeftmost(s, start, b) && g == GroupsOf(s, start, b) {
      var start: nat, b: Bounds :| IsLeftmost(s, start, b) && g == GroupsOf(s, start, b);
      LeftmostIsReported(s, start, b);
    }
  }

  /**
   * The line the pattern describes, with one space wherever it asks for
   * whitespace: `directive (0<mark><digits>, "<name>")`.
   */
  function PatternLine(directive: string, mark: char, digits: string, name: string): string {
    directive + [' ', '(', '0', mark] + digits + [',', ' ', '"'] + name + ['"', ')']
  }

  /** Where the pattern cuts a `PatternLine`. */
  function PatternBounds(directive: string, digits: string, name: string): Bounds {
    var digitsEnd := |directive| + 4 + |digits|;
    Bounds(|directive|, |directive| + 1, digitsEnd, digitsEnd + 2, digitsEnd + 3 + |name|)
  }

  /** Parts drawn from the pattern's classes give a `PatternLine` the pattern matches from its first character. */
  lemma PatternLineMatches(directive: string, mark: char, digits: string, name: string)
    requires |directive| > 0 && forall p :: 0 <= p < |directive| ==> IsWordChar(directive[p])
    requires IsRadixMark(mark)
    requires |digits| > 0 && forall p :: 0 <= p < |digits| ==> IsDigitClassChar(digits[p])
    requires |name| > 0 && forall p :: 0 <= p < |name| ==> IsWordChar(name[p])
    ensures IsMatch(PatternLine(directive, mark, digits, name), 0, PatternBounds(directive, digits, name))
  {
    var s := PatternLine(directive, mark, digits, name);
    var b := PatternBounds(directive, digits, name);
    var o := |directive|;
    assert AllInRange(Word, s, 0, o) by {
      forall p | 0 <= p < o ensures InClass(Word, s[p]) {
        assert s[p] == directive[p];
      }
    }
    assert AllInRange(DigitClass, s, b.open + 3, b.digitsEnd) by {
      forall p | b.open + 3 <= p < b.digitsEnd ensures InClass(DigitClass, s[p]) {
        assert s[p] == digits[p - (o + 4)];
      }
    }
    assert AllInRange(Word, s, b.quote + 1, b.nameEnd) by {
      forall p | b.quote + 1 <= p < b.nameEnd ensures InClass(Word, s[p]) {
        assert s[p] == name[p - (b.quote + 1)];
      }
    }
    assert s[o] == ' ' && s[o + 1] == '(' && s[o + 2] == '0' && s[o + 3] == mark;
    assert s[b.digitsEnd] == ',' && s[b.digitsEnd + 1] == ' ' && s[b.quote] == '"';
    assert s[b.nameEnd] == '"' && s[b.nameEnd + 1] == ')';
  }

  /** The captures of a `PatternLine` are its directive, its digits and its name. */
  lemma PatternLineCaptures(directive: string, mark: char, digits: string, name: string)
    requires |directive| > 0 && forall p :: 0 <= p < |directive| ==> IsWordChar(directive[p])
    requires IsRadixMark(mark)
    requires |digits| > 0 && forall p :: 0 <= p < |digits| ==> IsDigitClassChar(digits[p])
    requires |name| > 0 && forall p :: 0 <= p < |name| ==> IsWordChar(name[p])
    ensures Captures(PatternLine(directive, mark, digits, name)) == Some(Groups(directive, digits, name))
  {
    var s := PatternLine(directive, mark, digits, name);
    var b := PatternBounds(directive, digits, name);
    PatternLineMatches(directive, mark, digits, name);
    PatternLineGroups(directive, mark, digits, name);
    assert IsLeftmost(s, 0, b);
    LeftmostIsReported(s, 0, b);
  }

  /** The groups of that cut are the parts the line was built from. */
  lemma PatternLineGroups(directive: string, mark: char, digits: string, name: string)
    requires IsMatch(PatternLine(directive, mark, digits, name), 0, PatternBounds(directive, digits, name))
    ensures GroupsOf(PatternLine(directive, mark, digits, name), 0, PatternBounds(directive, digits, name))
      == Groups(directive, digits, name)
  {
    var s := PatternLine(directive, mark, digits, name);
    var b := PatternBounds(directive, digits, name);
    assert s[0..b.directiveEnd] == directive;
    assert s[b.open + 3..b.digitsEnd] == digits;
    assert s[b.quote + 1..b.nameEnd] == name;
  }
}

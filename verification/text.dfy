/** The handful of Python string operations the chatbot's memory logic is
    built from: `lower`, `title`, `strip`, substring `in`, `split` (with and
    without a split limit) and `join`, plus the `xs[-n:]` suffix slice.

    Case mapping is modelled over ASCII letters only; every other character is
    left as it is and counts as uncased. `strip` uses Python's full set of
    whitespace characters.
 */
module Text {

  import opened Results

  // ---------------------------------------------------------------------------
  // Characters
  // ---------------------------------------------------------------------------

  /** Python's `str.isspace` for one character. */
  predicate IsSpace(c: char) {
    || ('\t' <= c <= '\r')
    || ('\U{1C}' <= c <= '\U{20}')
    || c == '\U{85}' || c == '\U{A0}' || c == '\U{1680}'
    || ('\U{2000}' <= c <= '\U{200A}')
    || c == '\U{2028}' || c == '\U{2029}' || c == '\U{202F}' || c == '\U{205F}'
    || c == '\U{3000}'
  }

  predicate IsUpper(c: char) { 'A' <= c <= 'Z' }

  predicate IsLower(c: char) { 'a' <= c <= 'z' }

  /** A character that has a case; `title` restarts a word after any other character. */
  predicate IsCased(c: char) { IsUpper(c) || IsLower(c) }

  function LowerChar(c: char): (d: char)
    ensures !IsUpper(d)
    ensures IsCased(d) == IsCased(c)
  {
    if IsUpper(c) then (c as int + 32) as char else c
  }

  function UpperChar(c: char): (d: char)
    ensures !IsLower(d)
    ensures IsCased(d) == IsCased(c)
  {
    if IsLower(c) then (c as int - 32) as char else c
  }

  // ---------------------------------------------------------------------------
  // lower, title
  // ---------------------------------------------------------------------------

  /** `s.lower()`: every character mapped on its own, length kept. No
      upper-case letter is left, every other character is kept, and letters
      stay letters. */
  function Lower(s: string): (r: string)
    ensures |r| == |s|
    ensures forall i :: 0 <= i < |s| ==> r[i] == LowerChar(s[i])
    ensures forall i :: 0 <= i < |r| ==> !IsUpper(r[i])
    ensures forall i :: 0 <= i < |s| ==> !IsUpper(s[i]) ==> r[i] == s[i]
    ensures forall i :: 0 <= i < |s| ==> IsCased(r[i]) == IsCased(s[i])
  {
    seq(|s|, i requires 0 <= i < |s| => LowerChar(s[i]))
  }

  /** How `title` maps one character: lower-case inside a word, upper-case at its start. */
  function TitleChar(afterCased: bool, c: char): char {
    if afterCased then LowerChar(c) else UpperChar(c)
  }

  /** The left-to-right scan behind `title`, which remembers only whether the
      previous input character was cased. */
  function TitleFrom(afterCased: bool, s: string): (r: string)
    ensures |r| == |s|
    ensures |s| > 0 ==> r[0] == TitleChar(afterCased, s[0])
    ensures forall i :: 0 < i < |s| ==> r[i] == TitleChar(IsCased(s[i - 1]), s[i])
    decreases |s|
  {
    if s == [] then [] else [TitleChar(afterCased, s[0])] + TitleFrom(IsCased(s[0]), s[1..])
  }

  /** `s.title()`: a character is upper-cased exactly when the character
      before it in the input is not cased (or it is the first one), and
      lower-cased otherwise. */
  function Title(s: string): (r: string)
    ensures |r| == |s|
    ensures forall i :: 0 <= i < |s| ==> r[i] == TitleChar(i > 0 && IsCased(s[i - 1]), s[i])
  {
    TitleFrom(false, s)
  }

  /** `title` does not depend on the case of its input: the user's casing of
      their name is lost, so the stored name is the same whether or not the
      message was lower-cased first. */
  lemma {:induction false} TitleIgnoresCase(s: string)
    ensures Title(Lower(s)) == Title(s)
  {
    var l := Lower(s);
    forall i | 0 <= i < |s|
      ensures Title(l)[i] == Title(s)[i]
    {
      assert l[i] == LowerChar(s[i]);
      assert i > 0 ==> l[i - 1] == LowerChar(s[i - 1]);
    }
  }

  // ---------------------------------------------------------------------------
  // strip
  // ---------------------------------------------------------------------------

  predicate AllSpace(s: string) {
    forall i :: 0 <= i < |s| ==> IsSpace(s[i])
  }

  /** Number of whitespace characters at the front of `s`. */
  function LeadingSpaces(s: string): (n: nat)
    ensures n <= |s|
    ensures AllSpace(s[..n])
    ensures n < |s| ==> !IsSpace(s[n])
    decreases |s|
  {
    if s == [] || !IsSpace(s[0]) then 0
    else
      var k := LeadingSpaces(s[1..]);
      assert s[..k + 1] == [s[0]] + s[1..][..k];
      k + 1
  }

  /** Number of whitespace characters at the end of `s`. */
  function TrailingSpaces(s: string): (n: nat)
    ensures n <= |s|
    ensures AllSpace(s[|s| - n..])
    ensures n < |s| ==> !IsSpace(s[|s| - n - 1])
    decreases |s|
  {
    if s == [] || !IsSpace(s[|s| - 1]) then 0
    else
      var t := s[..|s| - 1];
      var k := TrailingSpaces(t);
      assert s[|s| - (k + 1)..] == t[|t| - k..] + [s[|s| - 1]];
      k + 1
  }

  /** `s.strip()`: the part of `s` left after removing whitespace from both
      ends. It is empty exactly when `s` is all whitespace; otherwise it starts
      and ends with a non-space character, and only whitespace was removed. */
  function Strip(s: string): (r: string)
    ensures r == [] <==> AllSpace(s)
    ensures r != [] ==> !IsSpace(r[0]) && !IsSpace(r[|r| - 1])
    ensures LeadingSpaces(s) + |r| <= |s|
    ensures r == s[LeadingSpaces(s)..LeadingSpaces(s) + |r|]
    ensures AllSpace(s[LeadingSpaces(s) + |r|..])
  {
    var a := LeadingSpaces(s);
    var t := s[a..];
    var b := TrailingSpaces(t);
    StripShape(s, a, t, b);
    t[..|t| - b]
  }

  /** What is left after cutting `a` leading and then `b` trailing whitespace
      characters, with `a` and `b` as large as possible. */
  lemma StripShape(s: string, a: nat, t: string, b: nat)
    requires a == LeadingSpaces(s) && t == s[a..] && b == TrailingSpaces(t)
    ensures var r := t[..|t| - b];
      && (r == [] <==> AllSpace(s))
      && (r != [] ==> !IsSpace(r[0]) && !IsSpace(r[|r| - 1]))
      && a + |r| <= |s|
      && r == s[a..a + |r|]
      && AllSpace(s[a + |r|..])
  {
    StripEmptiness(s, a, t, b);
    StripEnds(s, a, t, b);
  }

  /** Nothing is left exactly when the text is all whitespace. */
  lemma StripEmptiness(s: string, a: nat, t: string, b: nat)
    requires a == LeadingSpaces(s) && t == s[a..] && b == TrailingSpaces(t)
    ensures t[..|t| - b] == [] <==> AllSpace(s)
  {
    assert AllSpace(s) ==> a == |s|;
    assert a == |s| ==> AllSpace(s) by {
      if a == |s| { assert s == s[..a]; }
    }
  }

  /** What is left sits at `a` in the text, has only whitespace after it,
      and neither starts nor ends with whitespace. */
  lemma StripEnds(s: string, a: nat, t: string, b: nat)
    requires a == LeadingSpaces(s) && t == s[a..] && b == TrailingSpaces(t)
    ensures var r := t[..|t| - b];
      && (r != [] ==> !IsSpace(r[0]) && !IsSpace(r[|r| - 1]))
      && a + |r| <= |s|
      && r == s[a..a + |r|]
      && AllSpace(s[a + |r|..])
  {
    var r := t[..|t| - b];
    assert r != [] ==> r[0] == s[a];
    assert s[a + |r|..] == t[|t| - b..];
  }

  /** Stripping twice is stripping once. */
  lemma {:induction false} StripIdempotent(s: string)
    ensures Strip(Strip(s)) == Strip(s)
  {
    var r := Strip(s);
    if r != [] {
      assert LeadingSpaces(r) == 0;
      assert TrailingSpaces(r[0..]) == 0 by { assert r[0..] == r; }
      assert r[0..][..|r|] == r;
    }
  }

  // ---------------------------------------------------------------------------
  // Substrings
  // ---------------------------------------------------------------------------

  /** `p` occurs in `s` starting at index `i`. */
  predicate OccursAt(s: string, p: string, i: int) {
    0 <= i && i + |p| <= |s| && s[i..i + |p|] == p
  }

  /** Python's `p in s`. */
  predicate Contains(s: string, p: string) {
    exists i | 0 <= i <= |s| - |p| :: OccursAt(s, p, i)
  }

  /** An occurrence inside a prefix of `s` is an occurrence in `s`. */
  lemma OccursInPrefix(s: string, n: nat, p: string, i: int)
    requires n <= |s|
    requires OccursAt(s[..n], p, i)
    ensures OccursAt(s, p, i)
  {
    assert s[..n][i..i + |p|] == s[i..i + |p|];
  }

  /** An occurrence in `s` that ends within its first `n` characters is an
      occurrence in that prefix. */
  lemma OccursWithinPrefix(s: string, n: nat, p: string, i: int)
    requires n <= |s|
    requires OccursAt(s, p, i) && i + |p| <= n
    ensures OccursAt(s[..n], p, i)
  {
    assert s[..n][i..i + |p|] == s[i..i + |p|];
  }

  /** Occurrences inside a suffix of `s` are occurrences in `s`, shifted. */
  lemma OccursInSuffix(s: string, n: nat, p: string, i: int)
    requires n <= |s|
    ensures OccursAt(s[n..], p, i) <==> i >= 0 && OccursAt(s, p, n + i)
  {
    if 0 <= i && n + i + |p| <= |s| {
      assert s[n..][i..i + |p|] == s[n + i..n + i + |p|];
    }
  }

  /** A prefix of a text that does not contain `p` does not contain it either. */
  lemma PrefixKeepsAbsence(s: string, n: nat, p: string)
    requires n <= |s|
    requires !Contains(s, p)
    ensures !Contains(s[..n], p)
  {
    forall i | OccursAt(s[..n], p, i)
      ensures false
    {
      OccursInPrefix(s, n, p, i);
    }
  }

  /** The first occurrence of `p` in `s` at or after `from`. */
  function FindFrom(s: string, p: string, from: nat): (r: Option<nat>)
    ensures r.Some? ==> from <= r.value && OccursAt(s, p, r.value)
    ensures r.Some? ==> forall j :: from <= j < r.value ==> !OccursAt(s, p, j)
    ensures r.None? ==> forall j :: from <= j ==> !OccursAt(s, p, j)
    decreases |s| - from
  {
    if from + |p| > |s| then None
    else if s[from..from + |p|] == p then Some(from)
    else FindFrom(s, p, from + 1)
  }

  /** Python's `s.find(p)`, as an option: the least index where `p` occurs. */
  function Find(s: string, p: string): (r: Option<nat>)
    ensures r.Some? ==> OccursAt(s, p, r.value)
    ensures r.Some? ==> forall j :: 0 <= j < r.value ==> !OccursAt(s, p, j)
    ensures r.None? <==> !Contains(s, p)
  {
    FindFrom(s, p, 0)
  }

  // ---------------------------------------------------------------------------
  // split and join
  // ---------------------------------------------------------------------------

  /** Python's `sep.join(parts)`. */
  function Join(sep: string, parts: seq<string>): string
    decreases |parts|
  {
    if |parts| == 0 then []
    else if |parts| == 1 then parts[0]
    else parts[0] + sep + Join(sep, parts[1..])
  }

  /** Python's `s.split(sep)`: cut `s` at every occurrence of `sep`, scanning
      left to right. There are at least two pieces exactly when `s` contains
      `sep`, and the first piece is the text before the first occurrence (all
      of `s` when there is none). `SplitJoin` and `SplitPiecesAvoidSeparator`
      state what the pieces add up to. */
  function Split(s: string, sep: string): (r: seq<string>)
    requires sep != []
    ensures |r| >= 1
    ensures |r| >= 2 <==> Contains(s, sep)
    ensures |r[0]| <= |s| && r[0] == s[..|r[0]|]
    ensures !Contains(r[0], sep)
    ensures |r| == 1 ==> r[0] == s
    ensures |r| >= 2 ==> OccursAt(s, sep, |r[0]|)
    ensures |r| >= 2 ==> Find(s, sep) == Some(|r[0]|)
    decreases |s|
  {
    match Find(s, sep)
    case None =>
      assert s[..|s|] == s;
      [s]
    case Some(i) =>
      var head := s[..i];
      assert !Contains(head, sep) by {
        forall j | OccursAt(head, sep, j)
          ensures false
        {
          OccursInPrefix(s, i, sep, j);
        }
      }
      [head] + Split(s[i + |sep|..], sep)
  }

  /** Joining a non-empty list after a first part puts the separator between them. */
  lemma JoinCons(sep: string, head: string, rest: seq<string>)
    requires rest != []
    ensures Join(sep, [head] + rest) == head + sep + Join(sep, rest)
  {
    assert ([head] + rest)[1..] == rest;
  }

  /** A text with `sep` at `i` is the part before, `sep`, and the part after. */
  lemma CutAt(s: string, sep: string, i: nat)
    requires OccursAt(s, sep, i)
    ensures s == s[..i] + sep + s[i + |sep|..]
  {
    assert s == s[..i] + s[i..i + |sep|] + s[i + |sep|..];
  }

  /** Unfolds `Split` once at the first occurrence of the separator. */
  lemma SplitStep(s: string, sep: string, i: nat)
    requires sep != []
    requires Find(s, sep) == Some(i)
    ensures Split(s, sep) == [s[..i]] + Split(s[i + |sep|..], sep)
  {
  }

  /** Joining the pieces of a split with the separator gives the text back. */
  lemma {:induction false} SplitJoin(s: string, sep: string)
    requires sep != []
    ensures Join(sep, Split(s, sep)) == s
    decreases |s|
  {
    match Find(s, sep)
    case None =>
    case Some(i) =>
      var tail := s[i + |sep|..];
      SplitStep(s, sep, i);
      JoinCons(sep, s[..i], Split(tail, sep));
      SplitJoin(tail, sep);
      CutAt(s, sep, i);
  }

  /** No piece of a split contains the separator. */
  lemma {:induction false} SplitPiecesAvoidSeparator(s: string, sep: string)
    requires sep != []
    ensures forall k :: 0 <= k < |Split(s, sep)| ==> !Contains(Split(s, sep)[k], sep)
    decreases |s|
  {
    match Find(s, sep)
    case None =>
    case Some(i) =>
      var tail := s[i + |sep|..];
      var rest := Split(tail, sep);
      SplitStep(s, sep, i);
      SplitPiecesAvoidSeparator(tail, sep);
      PiecesAvoid([s[..i]], rest, sep);
  }

  /** A list of pieces none of which contains `sep`, built from two such lists. */
  lemma PiecesAvoid(xs: seq<string>, ys: seq<string>, sep: string)
    requires forall k :: 0 <= k < |xs| ==> !Contains(xs[k], sep)
    requires forall k :: 0 <= k < |ys| ==> !Contains(ys[k], sep)
    ensures forall k :: 0 <= k < |xs + ys| ==> !Contains((xs + ys)[k], sep)
  {
    forall k | 0 <= k < |xs + ys|
      ensures !Contains((xs + ys)[k], sep)
    {
      if k >= |xs| {
        assert (xs + ys)[k] == ys[k - |xs|];
      }
    }
  }

  /** Python's `s.split(sep, 1)`: cut `s` at the first occurrence of `sep`
      only. The result has two pieces exactly when `s` contains `sep`; the
      first is the text before the first occurrence and the second everything
      after it. */
  function SplitOnce(s: string, sep: string): (r: seq<string>)
    requires sep != []
    ensures 1 <= |r| <= 2
    ensures Join(sep, r) == s
    ensures !Contains(r[0], sep)
    ensures |r| == 2 <==> Contains(s, sep)
    ensures |r[0]| <= |s| && r[0] == s[..|r[0]|]
    ensures |r| == 1 ==> r[0] == s
    ensures |r| == 2 ==> OccursAt(s, sep, |r[0]|) && r[1] == s[|r[0]| + |sep|..]
    ensures |r| == 2 ==> Find(s, sep) == Some(|r[0]|)
    ensures forall j :: 0 <= j < |r[0]| ==> !OccursAt(s, sep, j)
  {
    match Find(s, sep)
    case None =>
      assert s[..|s|] == s;
      [s]
    case Some(i) =>
      var head := s[..i];
      assert s == head + sep + s[i + |sep|..] by {
        assert s[i..i + |sep|] == sep;
        assert s == s[..i] + s[i..i + |sep|] + s[i + |sep|..];
      }
      assert !Contains(head, sep) by {
        forall j | OccursAt(head, sep, j)
          ensures false
        {
          OccursInPrefix(s, i, sep, j);
        }
      }
      [head, s[i + |sep|..]]
  }

  /** Both forms of `split` agree on the first piece, and the full split of
      the text after the first cut is the rest of the full split. */
  lemma {:induction false} SplitOnceAgrees(s: string, sep: string)
    requires sep != []
    ensures SplitOnce(s, sep)[0] == Split(s, sep)[0]
    ensures |SplitOnce(s, sep)| == 2 ==> Split(s, sep) == [Split(s, sep)[0]] + Split(SplitOnce(s, sep)[1], sep)
  {
  }

  /** The second piece of a split is the first piece of splitting what
      follows the first separator. */
  lemma SecondPiece(s: string, sep: string)
    requires sep != []
    requires Contains(s, sep)
    ensures Find(s, sep).Some?
    ensures Split(s, sep)[1] == Split(s[Find(s, sep).value + |sep|..], sep)[0]
  {
  }

  /** Position `pos` of `text` is the end of the text or the start of an
      occurrence of `a` or of `b`. */
  predicate StopsAt(text: string, pos: int, a: string, b: string) {
    pos == |text| || OccursAt(text, a, pos) || OccursAt(text, b, pos)
  }

  /** Within `text`, a prefix `seg` of a prefix `p1` of a suffix `rest`,
      where `p1` stops at an `a` or the end of `rest` and `seg` stops at a
      `b` or the end of `p1`, ends at the end of `text` or right before an
      `a` or a `b`. */
  lemma PieceBoundary(text: string, a: string, b: string, start: nat, rest: string, p1: string, seg: string)
    requires start <= |text| && rest == text[start..]
    requires |p1| <= |rest| && p1 == rest[..|p1|]
    requires |p1| == |rest| || OccursAt(rest, a, |p1|)
    requires |seg| <= |p1| && seg == p1[..|seg|]
    requires |seg| == |p1| || OccursAt(p1, b, |seg|)
    ensures start + |seg| <= |text|
    ensures seg == text[start..start + |seg|]
    ensures StopsAt(text, start + |seg|, a, b)
  {
    assert seg == text[start..start + |seg|] by {
      assert seg == rest[..|seg|];
    }
    if |seg| < |p1| {
      OccursInPrefix(rest, |p1|, b, |seg|);
      OccursInSuffix(text, start, b, |seg|);
    } else if |p1| < |rest| {
      OccursInSuffix(text, start, a, |p1|);
    }
  }

  /** `seg` is the slice of `text` from `start` on that contains neither `a`
      nor `b` and stops at the end of the text or right before an `a` or a `b`. */
  predicate SliceBetween(text: string, start: int, seg: string, a: string, b: string) {
    && 0 <= start && start + |seg| <= |text|
    && seg == text[start..start + |seg|]
    && !Contains(seg, a)
    && !Contains(seg, b)
    && StopsAt(text, start + |seg|, a, b)
  }

  /** The first `b`-piece of the first `a`-piece of a suffix of `text` is the
      slice between `a` and `b` starting there. */
  lemma PieceLocated(text: string, a: string, b: string, start: nat, rest: string, p1: string, seg: string)
    requires a != [] && b != []
    requires start <= |text| && rest == text[start..]
    requires p1 == SplitOnce(rest, a)[0]
    requires seg == SplitOnce(p1, b)[0]
    ensures SliceBetween(text, start, seg, a, b)
  {
    PrefixKeepsAbsence(p1, |seg|, a);
    assert |seg| == |p1| || OccursAt(p1, b, |seg|);
    PieceBoundary(text, a, b, start, rest, p1, seg);
  }

  /** `seg` is the slice between `a` and `b` from `start` on, and no marker
      starts inside it. */
  predicate NearestSlice(text: string, start: int, seg: string, a: string, b: string) {
    SliceBetween(text, start, seg, a, b) && NoStopInside(text, start, |seg|, a, b)
  }

  /** That piece also has no marker starting inside it. */
  lemma PieceIsNearest(text: string, a: string, b: string, start: nat, rest: string, p1: string, seg: string)
    requires a != [] && b != []
    requires start <= |text| && rest == text[start..]
    requires p1 == SplitOnce(rest, a)[0]
    requires seg == SplitOnce(p1, b)[0]
    ensures NearestSlice(text, start, seg, a, b)
  {
    PieceLocated(text, a, b, start, rest, p1, seg);
    assert |p1| == |rest| || OccursAt(rest, a, |p1|);
    NearestStop(text, a, b, start, rest, p1, seg);
  }

  /** A slice of `text` that avoids `b` cannot reach past an occurrence of `b`
      that starts `k` characters into it. */
  lemma AvoidanceBoundsSlice(text: string, start: nat, seg: string, b: string, k: nat)
    requires start + |seg| <= |text| && seg == text[start..start + |seg|]
    requires !Contains(seg, b)
    requires OccursAt(text, b, start + k)
    ensures |seg| < k + |b|
  {
    if |seg| >= k + |b| {
      forall j | 0 <= j < |b|
        ensures seg[k..k + |b|][j] == b[j]
      {
        assert seg[k + j] == text[start + k + j];
      }
      assert seg[k..k + |b|] == b;
      assert OccursAt(seg, b, k);
    }
  }

  /** `text.split(a)[1].split(b)[0]`: the text right after the first `a`, up
      to (not including) the next `a`, the first `b` that ends before that
      `a`, or the end of the text, whichever comes first. No `a` starts inside
      the result, and no `b` either when a `b` cannot run into an `a`.
      `BetweenIsSplit` states that this is the Python expression. */
  function Between(text: string, a: string, b: string): (seg: string)
    requires a != [] && b != []
    requires Contains(text, a)
    ensures Find(text, a).Some?
    ensures NearestSlice(text, Find(text, a).value + |a|, seg, a, b)
  {
    PieceFrom(text, a, b, Find(text, a).value + |a|)
  }

  /** `text[start..].split(a, 1)[0].split(b, 1)[0]`: from `start` on, up to
      the nearest marker. */
  function PieceFrom(text: string, a: string, b: string, start: nat): (seg: string)
    requires a != [] && b != [] && start <= |text|
    ensures NearestSlice(text, start, seg, a, b)
  {
    var rest := text[start..];
    var p1 := SplitOnce(rest, a)[0];
    var seg := SplitOnce(p1, b)[0];
    PieceIsNearest(text, a, b, start, rest, p1, seg);
    seg
  }

  /** `b` read from index `k` on agrees with the start of `a` as far as both go. */
  predicate OverlapsAt(b: string, a: string, k: nat)
    requires k <= |b|
  {
    forall i :: 0 <= i < |b| - k && i < |a| ==> b[k + i] == a[i]
  }

  /** A `b` can run into an `a`: some proper suffix of `b` is where an `a`
      could begin. When it cannot, a `b` that starts before an `a` also ends
      before it. */
  predicate RunsInto(b: string, a: string) {
    exists k | 0 < k < |b| :: OverlapsAt(b, a, k)
  }

  /** No `a` starts in the `len` characters of `text` from `start` on, and no
      `b` either unless a `b` can run into an `a`: a slice with this property
      ends at the nearest marker. */
  predicate NoStopInside(text: string, start: int, len: int, a: string, b: string) {
    && (forall j :: start <= j < start + len ==> !OccursAt(text, a, j))
    && (!RunsInto(b, a) ==> forall j :: start <= j < start + len ==> !OccursAt(text, b, j))
  }

  /** A prefix `seg` of a prefix `p1` of a suffix `rest` of `text`, where no
      `a` starts in `rest` before the end of `p1` and no `b` starts in `p1`
      before the end of `seg`, has no marker starting inside it. */
  lemma NearestStop(text: string, a: string, b: string, start: nat, rest: string, p1: string, seg: string)
    requires start <= |text| && rest == text[start..]
    requires |p1| <= |rest| && p1 == rest[..|p1|]
    requires forall j :: 0 <= j < |p1| ==> !OccursAt(rest, a, j)
    requires |p1| == |rest| || OccursAt(rest, a, |p1|)
    requires |seg| <= |p1| && seg == p1[..|seg|]
    requires forall j :: 0 <= j < |seg| ==> !OccursAt(p1, b, j)
    ensures NoStopInside(text, start, |seg|, a, b)
  {
    forall j | start <= j < start + |seg|
      ensures !OccursAt(text, a, j)
    {
      OccursInSuffix(text, start, a, j - start);
    }
    if !RunsInto(b, a) {
      forall j | start <= j < start + |seg|
        ensures !OccursAt(text, b, j)
      {
        if OccursAt(text, b, j) {
          BStartsBeforeA(text, a, b, start, rest, p1, j - start);
        }
      }
    }
  }

  /** The contradiction behind `NearestStop`: a `b` at `k` in `rest`, before
      the end of `p1`, either lies inside `p1` or runs into the `a` that ends
      `p1`. */
  lemma BStartsBeforeA(text: string, a: string, b: string, start: nat, rest: string, p1: string, k: nat)
    requires start <= |text| && rest == text[start..]
    requires |p1| <= |rest| && p1 == rest[..|p1|]
    requires |p1| == |rest| || OccursAt(rest, a, |p1|)
    requires k < |p1| && OccursAt(text, b, start + k)
    ensures OccursAt(p1, b, k) || RunsInto(b, a)
  {
    OccursInSuffix(text, start, b, k);
    if k + |b| <= |p1| {
      OccursWithinPrefix(rest, |p1|, b, k);
    } else {
      var m := |p1| - k;
      forall i | 0 <= i < |b| - m && i < |a|
        ensures b[m + i] == a[i]
      {
        assert b[m + i] == rest[k..k + |b|][m + i] == rest[|p1| + i];
        assert a[i] == rest[|p1|..|p1| + |a|][i] == rest[|p1| + i];
      }
      assert OverlapsAt(b, a, m);
    }
  }

  /** Two slices from the same start that both avoid the markers and have no
      marker starting inside them are the same slice, when a `b` cannot run
      into an `a`: the cut is the nearest marker, not a later one. */
  lemma NearestSliceIsUnique(text: string, start: int, s1: string, s2: string, a: string, b: string)
    requires !RunsInto(b, a)
    requires NearestSlice(text, start, s1, a, b)
    requires NearestSlice(text, start, s2, a, b)
    ensures s1 == s2
  {
    assert |s1| == |s2|;
  }

  /** `Between` is the first `b`-piece of the second `a`-piece. */
  lemma BetweenIsSplit(text: string, a: string, b: string)
    requires a != [] && b != []
    requires Contains(text, a)
    ensures |Split(text, a)| >= 2
    ensures Between(text, a, b) == Split(Split(text, a)[1], b)[0]
  {
    SecondPiece(text, a);
    var p1 := Split(text, a)[1];
    SplitOnceAgrees(text[Find(text, a).value + |a|..], a);
    SplitOnceAgrees(p1, b);
  }

  /** `seg` is the slice of `text` from `start` on that does not contain `b`
      and stops at the end of the text or right before a `b`. */
  predicate SliceBefore(text: string, start: int, seg: string, b: string) {
    && 0 <= start && start + |seg| <= |text|
    && seg == text[start..start + |seg|]
    && !Contains(seg, b)
    && (forall j :: start <= j < start + |seg| ==> !OccursAt(text, b, j))
    && (start + |seg| == |text| || OccursAt(text, b, start + |seg|))
  }

  /** The first piece of `split(b, 1)` on a suffix of `text` is the slice
      before `b` starting there. */
  lemma OncePieceLocated(text: string, b: string, start: nat, rest: string, seg: string)
    requires b != []
    requires start <= |text| && rest == text[start..]
    requires seg == SplitOnce(rest, b)[0]
    ensures SliceBefore(text, start, seg, b)
  {
    assert seg == rest[..|seg|];
    if |SplitOnce(rest, b)| == 2 {
      OccursInSuffix(text, start, b, |seg|);
    }
    forall j | start <= j < start + |seg|
      ensures !OccursAt(text, b, j)
    {
      OccursInSuffix(text, start, b, j - start);
    }
  }

  /** `text.split(a, 1)[1].split(b, 1)[0]`: all the text after the first `a`
      up to the first `b` after it, or to the end; unlike `Between` it may
      run over a later `a`. `BetweenOnceIsSplit` states that this is the
      Python expression. */
  function BetweenOnce(text: string, a: string, b: string): (seg: string)
    requires a != [] && b != []
    requires Contains(text, a)
    ensures Find(text, a).Some?
    ensures SliceBefore(text, Find(text, a).value + |a|, seg, b)
  {
    var start := Find(text, a).value + |a|;
    var rest := text[start..];
    var seg := SplitOnce(rest, b)[0];
    OncePieceLocated(text, b, start, rest, seg);
    seg
  }

  /** `BetweenOnce` is the first piece of cutting, at the first `b`, what
      follows the first `a`. */
  lemma BetweenOnceIsSplit(text: string, a: string, b: string)
    requires a != [] && b != []
    requires Contains(text, a)
    ensures |SplitOnce(text, a)| == 2
    ensures BetweenOnce(text, a, b) == SplitOnce(SplitOnce(text, a)[1], b)[0]
  {
  }

  // ---------------------------------------------------------------------------
  // Suffixes
  // ---------------------------------------------------------------------------

  /** Python's `xs[-n:]` for `n > 0`: the last `n` elements, or all of them
      when there are fewer, in their original order. */
  function LastN<T>(xs: seq<T>, n: nat): (r: seq<T>)
    ensures |r| == if |xs| < n then |xs| else n
    ensures r == xs[|xs| - |r|..]
  {
    if |xs| <= n then xs else xs[|xs| - n..]
  }
}

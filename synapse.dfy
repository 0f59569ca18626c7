/**
 * The lecture-text parser (`parse_synapse`): one left-to-right scan with a
 * three-way alternation of fenced blocks, and the cells each match becomes.
 *
 * The regular expression (compiled with DOTALL) is
 *   ```markdown\n(.*?)\n```  |  ▶️.*?```python\n(.*?)\n```  |  📖.*?```markdown\n(.*?)\n```
 * and is written out here as a literal matcher: at each position the three
 * alternatives are tried in order; a lazy `.*?` followed by a literal stops at
 * the first occurrence of that literal.
 */
module Synapse {
  import opened Wrappers
  import opened Text

  const MarkdownFence: string := "```markdown\n"
  const PythonFence: string := "```python\n"
  const ClosingFence: string := "\n```"
  /** U+25B6 BLACK RIGHT-POINTING TRIANGLE, U+FE0F VARIATION SELECTOR-16. */
  const RunSentinel: string := "\U{25B6}\U{FE0F}"
  /** U+1F4D6 OPEN BOOK. */
  const ReadSentinel: string := "\U{1F4D6}"
  /** The content of the practice cell inserted after every code cell. */
  const PracticeContent: string := "# Pratique aqui"

  datatype CellType = Markdown | Code

  /** A notebook cell as the parser produces it: `{'type': ..., 'content': ...}`. */
  datatype Cell = Cell(cellType: CellType, content: string)

  /** The three alternatives of the pattern, in the order they are tried. */
  datatype Alternative = FencedMarkdown | RunCode | ReadNote

  /**
   * One match of the pattern: where it starts, where its captured group lies
   * and which alternative matched.  The match ends after the closing fence.
   */
  datatype Match = Match(alternative: Alternative, start: nat, bodyStart: nat, bodyEnd: nat) {
    function End(): nat {
      bodyEnd + |ClosingFence|
    }
  }

  /** The tuple `findall` yields for a match: one group per alternative. */
  datatype Groups = Groups(md: string, code: string, read: string)

  predicate WellFormed(text: string, m: Match) {
    m.start < m.bodyStart <= m.bodyEnd && m.End() <= |text|
  }

  predicate AllWellFormed(text: string, ms: seq<Match>) {
    forall i :: 0 <= i < |ms| ==> WellFormed(text, ms[i])
  }

  /** The text captured by the group of the alternative that matched. */
  function Capture(text: string, m: Match): string
    requires WellFormed(text, m)
  {
    text[m.bodyStart..m.bodyEnd]
  }

  function GroupsOf(text: string, m: Match): (g: Groups)
    requires WellFormed(text, m)
    ensures g.md + g.code + g.read == Capture(text, m)
    ensures (g.md != "" ==> m.alternative == FencedMarkdown)
            && (g.code != "" ==> m.alternative == RunCode)
            && (g.read != "" ==> m.alternative == ReadNote)
  {
    match m.alternative
    case FencedMarkdown => Groups(Capture(text, m), "", "")
    case RunCode => Groups("", Capture(text, m), "")
    case ReadNote => Groups("", "", Capture(text, m))
  }

  /** First alternative: ```markdown\n(.*?)\n``` at position `p`. */
  function TryFencedMarkdown(text: string, p: nat): (r: Option<Match>)
    ensures r.Some? ==> r.value.alternative == FencedMarkdown && r.value.start == p && WellFormed(text, r.value)
  {
    if !At(text, p, MarkdownFence) then None
    else
      match Find(text, ClosingFence, p + |MarkdownFence|)
      case None => None
      case Some(j) => Some(Match(FencedMarkdown, p, p + |MarkdownFence|, j))
  }

  /**
   * The first alternative matches at `p` exactly when a markdown fence starts
   * there and a closing fence follows it; the capture runs from the end of the
   * opening fence to the first closing fence, neither fence included.
   */
  lemma TryFencedMarkdownIsLazy(text: string, p: nat)
    ensures var r := TryFencedMarkdown(text, p);
      (r.Some? ==>
        var m := r.value;
        At(text, p, MarkdownFence) && m.bodyStart == p + |MarkdownFence|
        && At(text, m.bodyEnd, ClosingFence)
        && (forall k :: m.bodyStart <= k < m.bodyEnd ==> !At(text, k, ClosingFence)))
      && (r.None? <==>
        !At(text, p, MarkdownFence)
        || forall k :: p + |MarkdownFence| <= k ==> !At(text, k, ClosingFence))
  {
    FindIsLeftmost(text, ClosingFence, p + |MarkdownFence|);
  }

  function SentinelOf(alt: Alternative): string {
    if alt == RunCode then RunSentinel else ReadSentinel
  }

  function FenceOf(alt: Alternative): string {
    if alt == RunCode then PythonFence else MarkdownFence
  }

  /**
   * `sentinel.*?fence(.*?)\n```` at position `p`, reported as alternative
   * `alt`: the first `fence` after the sentinel, then the first closing fence
   * after that.
   */
  function TryDelimited(text: string, p: nat, sentinel: string, fence: string, alt: Alternative): (r: Option<Match>)
    requires fence != []
    ensures r.Some? ==> r.value.alternative == alt && r.value.start == p && WellFormed(text, r.value)
  {
    if !At(text, p, sentinel) then None
    else
      match Find(text, fence, p + |sentinel|)
      case None => None
      case Some(i) =>
        match Find(text, ClosingFence, i + |fence|)
        case None => None
        case Some(j) => Some(Match(alt, p, i + |fence|, j))
  }

  /** Second and third alternatives: `▶️.*?```python\n(.*?)\n```` and `📖.*?```markdown\n(.*?)\n````. */
  function TrySentinel(text: string, p: nat, alt: Alternative): (r: Option<Match>)
    requires alt != FencedMarkdown
    ensures r.Some? ==> r.value.alternative == alt && r.value.start == p && WellFormed(text, r.value)
  {
    TryDelimited(text, p, SentinelOf(alt), FenceOf(alt), alt)
  }

  /**
   * A delimited alternative uses the first opening fence after the sentinel
   * and the first closing fence after that; the capture lies between the two
   * fences.
   */
  lemma TryDelimitedIsLazy(text: string, p: nat, sentinel: string, fence: string, alt: Alternative)
    requires fence != []
    ensures var r := TryDelimited(text, p, sentinel, fence, alt);
      r.Some? ==>
        var m := r.value;
        var fenceAt := m.bodyStart - |fence|;
        At(text, p, sentinel)
        && p + |sentinel| <= fenceAt && At(text, fenceAt, fence)
        && (forall k :: p + |sentinel| <= k < fenceAt ==> !At(text, k, fence))
        && At(text, m.bodyEnd, ClosingFence)
        && (forall k :: m.bodyStart <= k < m.bodyEnd ==> !At(text, k, ClosingFence))
  {
    FindIsLeftmost(text, fence, p + |sentinel|);
    var f := Find(text, fence, p + |sentinel|);
    if f.Some? {
      FindIsLeftmost(text, ClosingFence, f.value + |fence|);
    }
  }

  /**
   * A sentinel alternative fails exactly when no opening fence after the
   * sentinel is followed by a closing fence: if the first one has no closing
   * fence after it, no later one has.
   */
  lemma TrySentinelFailsIff(text: string, p: nat, alt: Alternative)
    requires alt != FencedMarkdown
    ensures TrySentinel(text, p, alt).None? <==>
        !At(text, p, SentinelOf(alt))
        || forall i, j :: p + |SentinelOf(alt)| <= i && i + |FenceOf(alt)| <= j ==>
             !(At(text, i, FenceOf(alt)) && At(text, j, ClosingFence))
  {
    var sentinel, fence := SentinelOf(alt), FenceOf(alt);
    var from := p + |sentinel|;
    FindIsLeftmost(text, fence, from);
    var f := Find(text, fence, from);
    if f.Some? {
      FindIsLeftmost(text, ClosingFence, f.value + |fence|);
      var g := Find(text, ClosingFence, f.value + |fence|);
      if g.None? && At(text, p, sentinel) {
        forall i, j | from <= i && i + |fence| <= j
          ensures !(At(text, i, fence) && At(text, j, ClosingFence))
        {
          if At(text, i, fence) {
            assert f.value <= i;
          }
        }
      }
    }
  }

  /** The match of the whole pattern at `p`: the first alternative that matches. */
  function MatchAt(text: string, p: nat): (r: Option<Match>)
    ensures r.Some? ==> r.value.start == p && WellFormed(text, r.value)
  {
    var a := TryFencedMarkdown(text, p);
    if a.Some? then a
    else
      var b := TrySentinel(text, p, RunCode);
      if b.Some? then b else TrySentinel(text, p, ReadNote)
  }

  /** `findall` from position `from`: matches are taken left to right, never overlapping. */
  function Scan(text: string, from: nat): (ms: seq<Match>)
    requires from <= |text|
    ensures forall i :: 0 <= i < |ms| ==> from <= ms[i].start && WellFormed(text, ms[i])
    decreases |text| - from
  {
    if from == |text| then []
    else
      match MatchAt(text, from)
      case Some(m) => [m] + Scan(text, m.End())
      case None => Scan(text, from + 1)
  }

  function FindAll(text: string): (ms: seq<Match>)
    ensures AllWellFormed(text, ms)
  {
    Scan(text, 0)
  }

  /** Position `q` lies inside one of the matches `ms`. */
  predicate Covered(ms: seq<Match>, q: nat) {
    exists i :: 0 <= i < |ms| && ms[i].start <= q < ms[i].End()
  }

  /**
   * What `findall` from `from` returns, stated without the scan: every entry
   * is the match at its own start, entries are in text order and do not
   * overlap, and no position outside them starts a match.
   */
  predicate IsLeftmostMatches(text: string, from: nat, ms: seq<Match>) {
    MatchesAtStarts(text, from, ms) && InTextOrder(ms) && GapsUnmatched(text, from, ms)
  }

  predicate MatchesAtStarts(text: string, from: nat, ms: seq<Match>) {
    forall i :: 0 <= i < |ms| ==> from <= ms[i].start && MatchAt(text, ms[i].start) == Some(ms[i])
  }

  predicate InTextOrder(ms: seq<Match>) {
    forall i, j :: 0 <= i < j < |ms| ==> ms[i].End() <= ms[j].start
  }

  predicate GapsUnmatched(text: string, from: nat, ms: seq<Match>) {
    forall q :: from <= q < |text| && !Covered(ms, q) ==> MatchAt(text, q).None?
  }

  lemma CoveredTail(m: Match, rest: seq<Match>, q: nat)
    requires Covered(rest, q)
    ensures Covered([m] + rest, q)
  {
    var i :| 0 <= i < |rest| && rest[i].start <= q < rest[i].End();
    assert ([m] + rest)[i + 1] == rest[i];
  }

  lemma ConsInTextOrder(m: Match, rest: seq<Match>)
    requires InTextOrder(rest)
    requires forall i :: 0 <= i < |rest| ==> m.End() <= rest[i].start
    ensures InTextOrder([m] + rest)
  {
    var ms := [m] + rest;
    forall i, j | 0 <= i < j < |ms| ensures ms[i].End() <= ms[j].start {
      assert ms[j] == rest[j - 1];
      if i > 0 {
        assert ms[i] == rest[i - 1];
      }
    }
  }

  lemma ConsMatchesAtStarts(text: string, from: nat, m: Match, rest: seq<Match>)
    requires from <= m.start && MatchAt(text, m.start) == Some(m)
    requires MatchesAtStarts(text, m.End(), rest)
    ensures MatchesAtStarts(text, from, [m] + rest)
  {
    var ms := [m] + rest;
    forall i | 0 <= i < |ms| ensures from <= ms[i].start && MatchAt(text, ms[i].start) == Some(ms[i]) {
      if i > 0 {
        assert ms[i] == rest[i - 1];
      }
    }
  }

  lemma ConsGapsUnmatched(text: string, from: nat, m: Match, rest: seq<Match>)
    requires m.start == from < m.End()
    requires GapsUnmatched(text, m.End(), rest)
    ensures GapsUnmatched(text, from, [m] + rest)
  {
    var ms := [m] + rest;
    forall q | from <= q < |text| && !Covered(ms, q) ensures MatchAt(text, q).None? {
      assert ms[0] == m;
      if Covered(rest, q) {
        CoveredTail(m, rest, q);
      }
    }
  }

  /** A match at `from` followed by the answer from its end is the answer from `from`. */
  lemma LeftmostAfterMatch(text: string, from: nat, m: Match, rest: seq<Match>)
    requires MatchAt(text, from) == Some(m)
    requires IsLeftmostMatches(text, m.End(), rest)
    ensures IsLeftmostMatches(text, from, [m] + rest)
  {
    ConsInTextOrder(m, rest);
    ConsMatchesAtStarts(text, from, m, rest);
    ConsGapsUnmatched(text, from, m, rest);
  }

  /** When nothing matches at `from`, the answer from `from + 1` is the answer from `from`. */
  lemma LeftmostAfterSkip(text: string, from: nat, ms: seq<Match>)
    requires MatchAt(text, from).None?
    requires IsLeftmostMatches(text, from + 1, ms)
    ensures IsLeftmostMatches(text, from, ms)
  {
    forall q | from <= q < |text| && !Covered(ms, q) ensures MatchAt(text, q).None? {
      if q > from {
        assert from + 1 <= q;
      }
    }
  }

  /** The scan produces exactly the leftmost, non-overlapping matches. */
  lemma {:induction false} ScanIsLeftmost(text: string, from: nat)
    requires from <= |text|
    ensures IsLeftmostMatches(text, from, Scan(text, from))
    decreases |text| - from
  {
    if from < |text| {
      var r := MatchAt(text, from);
      if r.Some? {
        ScanIsLeftmost(text, r.value.End());
        LeftmostAfterMatch(text, from, r.value, Scan(text, r.value.End()));
      } else {
        ScanIsLeftmost(text, from + 1);
        LeftmostAfterSkip(text, from, Scan(text, from + 1));
      }
    }
  }

  lemma StartsInText(text: string, from: nat, ms: seq<Match>)
    requires MatchesAtStarts(text, from, ms)
    ensures forall i :: 0 <= i < |ms| ==> ms[i].start < |text|
  {
    forall i | 0 <= i < |ms| ensures ms[i].start < |text| {
      assert MatchAt(text, ms[i].start).Some?;
    }
  }

  /** A match list that does not cover `from` is also the answer from `from + 1`. */
  lemma SkipUnmatched(text: string, from: nat, ms: seq<Match>)
    requires from < |text|
    requires IsLeftmostMatches(text, from, ms)
    requires ms == [] || ms[0].start != from
    ensures MatchAt(text, from).None?
    ensures IsLeftmostMatches(text, from + 1, ms)
  {
    forall i | 0 <= i < |ms| ensures from < ms[i].start {
      if i > 0 {
        assert ms[0].End() <= ms[i].start;
      }
    }
    assert !Covered(ms, from);
  }

  lemma DropFirstGaps(text: string, from: nat, ms: seq<Match>)
    requires ms != [] && IsLeftmostMatches(text, from, ms)
    ensures GapsUnmatched(text, ms[0].End(), ms[1..])
  {
    var m, rest := ms[0], ms[1..];
    forall q | m.End() <= q < |text| && !Covered(rest, q) ensures MatchAt(text, q).None? {
      forall i | 0 <= i < |ms| ensures !(ms[i].start <= q < ms[i].End()) {
        if i > 0 {
          assert rest[i - 1] == ms[i];
        }
      }
      assert from <= q && !Covered(ms, q);
    }
  }

  lemma DropFirstStarts(text: string, from: nat, ms: seq<Match>)
    requires ms != [] && InTextOrder(ms) && MatchesAtStarts(text, from, ms)
    ensures MatchesAtStarts(text, ms[0].End(), ms[1..])
  {
    var rest := ms[1..];
    forall i | 0 <= i < |rest| ensures ms[0].End() <= rest[i].start && MatchAt(text, rest[i].start) == Some(rest[i]) {
      assert rest[i] == ms[i + 1];
    }
  }

  lemma DropFirstOrder(ms: seq<Match>)
    requires ms != [] && InTextOrder(ms)
    ensures InTextOrder(ms[1..])
  {
    var rest := ms[1..];
    forall i, j | 0 <= i < j < |rest| ensures rest[i].End() <= rest[j].start {
      assert rest[i] == ms[i + 1] && rest[j] == ms[j + 1];
    }
  }

  /** Dropping the first match leaves the answer from its end. */
  lemma DropFirst(text: string, from: nat, ms: seq<Match>)
    requires ms != [] && IsLeftmostMatches(text, from, ms)
    ensures IsLeftmostMatches(text, ms[0].End(), ms[1..])
  {
    DropFirstGaps(text, from, ms);
    DropFirstStarts(text, from, ms);
    DropFirstOrder(ms);
  }

  /** Uniqueness, step over a match at `from`, given uniqueness from its end. */
  lemma UniqueAtMatch(text: string, from: nat, ms: seq<Match>)
    requires from < |text| && ms != [] && MatchAt(text, from) == Some(ms[0])
    requires ms[1..] == Scan(text, ms[0].End())
    ensures ms == Scan(text, from)
  {
    assert ms == [ms[0]] + ms[1..];
  }

  /** Uniqueness, step over an unmatched `from`, given uniqueness from `from + 1`. */
  lemma UniqueAtSkip(text: string, from: nat, ms: seq<Match>)
    requires from < |text| && MatchAt(text, from).None?
    requires ms == Scan(text, from + 1)
    ensures ms == Scan(text, from)
  {
  }

  /** The leftmost, non-overlapping matches are unique: they are what the scan returns. */
  lemma {:induction false} LeftmostMatchesUnique(text: string, from: nat, ms: seq<Match>)
    requires from <= |text|
    requires IsLeftmostMatches(text, from, ms)
    ensures ms == Scan(text, from)
    decreases |text| - from
  {
    if from == |text| {
      StartsInText(text, from, ms);
      assert ms == [];
    } else if ms != [] && ms[0].start == from {
      DropFirst(text, from, ms);
      LeftmostMatchesUnique(text, ms[0].End(), ms[1..]);
      assert MatchAt(text, from) == Some(ms[0]);
      UniqueAtMatch(text, from, ms);
    } else {
      SkipUnmatched(text, from, ms);
      LeftmostMatchesUnique(text, from + 1, ms);
      UniqueAtSkip(text, from, ms);
    }
  }

  /**
   * `findall` is characterised without the scan: it returns the leftmost,
   * non-overlapping matches of the whole text, and no other list is those.
   */
  lemma FindAllIsLeftmost(text: string)
    ensures IsLeftmostMatches(text, 0, FindAll(text))
    ensures forall ms :: IsLeftmostMatches(text, 0, ms) ==> ms == FindAll(text)
  {
    ScanIsLeftmost(text, 0);
    forall ms | IsLeftmostMatches(text, 0, ms) ensures ms == FindAll(text) {
      LeftmostMatchesUnique(text, 0, ms);
    }
  }

  /** The cells one match becomes: none for an empty capture, else one cell, plus the practice cell after code. */
  function CellsFor(text: string, m: Match): (cells: seq<Cell>)
    requires WellFormed(text, m)
    ensures cells == [] <==> Capture(text, m) == ""
    ensures |cells| <= 2
  {
    var body := Capture(text, m);
    if body == "" then []
    else
      match m.alternative
      case FencedMarkdown => [Cell(Markdown, Strip(body))]
      case RunCode => [Cell(Code, Strip(body)), Cell(Code, PracticeContent)]
      case ReadNote => [Cell(Markdown, Strip(body))]
  }

  /** The cells of the matches `ms`, in the order of the matches. */
  function CellsOf(text: string, ms: seq<Match>): seq<Cell>
    requires AllWellFormed(text, ms)
  {
    if ms == [] then [] else CellsOf(text, ms[..|ms| - 1]) + CellsFor(text, ms[|ms| - 1])
  }

  /** No match yields more than two cells. */
  lemma {:induction false} CellsOfBound(text: string, ms: seq<Match>)
    requires AllWellFormed(text, ms)
    ensures |CellsOf(text, ms)| <= 2 * |ms|
    decreases |ms|
  {
    if ms != [] {
      CellsOfBound(text, ms[..|ms| - 1]);
    }
  }

  /** What `parse_synapse(text)` returns. */
  function SynapseCells(text: string): (cells: seq<Cell>)
    ensures |cells| <= 2 * |FindAll(text)|
  {
    CellsOfBound(text, FindAll(text));
    CellsOf(text, FindAll(text))
  }

  /** Number of matches of alternative `alt` whose captured text is not empty. */
  function NonEmptyCaptures(text: string, ms: seq<Match>, alt: Alternative): nat
    requires AllWellFormed(text, ms)
  {
    if ms == [] then 0
    else
      var m := ms[|ms| - 1];
      NonEmptyCaptures(text, ms[..|ms| - 1], alt) + (if m.alternative == alt && Capture(text, m) != "" then 1 else 0)
  }

  /** Number of cells of type `t`. */
  function CountType(cells: seq<Cell>, t: CellType): nat {
    if cells == [] then 0
    else CountType(cells[..|cells| - 1], t) + (if cells[|cells| - 1].cellType == t then 1 else 0)
  }

  lemma {:induction false} CountTypeAppend(a: seq<Cell>, b: seq<Cell>, t: CellType)
    ensures CountType(a + b, t) == CountType(a, t) + CountType(b, t)
    decreases |b|
  {
    if b != [] {
      assert (a + b)[..|a + b| - 1] == a + b[..|b| - 1];
      CountTypeAppend(a, b[..|b| - 1], t);
    } else {
      assert a + b == a;
    }
  }

  /**
   * Cell count and types: each non-empty markdown or reading capture gives one
   * markdown cell, each non-empty code capture two code cells, and nothing
   * else produces a cell.
   */
  lemma {:induction false} CellCounts(text: string, ms: seq<Match>)
    requires AllWellFormed(text, ms)
    ensures |CellsOf(text, ms)| == NonEmptyCaptures(text, ms, FencedMarkdown)
                                   + 2 * NonEmptyCaptures(text, ms, RunCode)
                                   + NonEmptyCaptures(text, ms, ReadNote)
    ensures CountType(CellsOf(text, ms), Code) == 2 * NonEmptyCaptures(text, ms, RunCode)
    ensures CountType(CellsOf(text, ms), Markdown) == NonEmptyCaptures(text, ms, FencedMarkdown)
                                                     + NonEmptyCaptures(text, ms, ReadNote)
    decreases |ms|
  {
    if ms != [] {
      var init, m := ms[..|ms| - 1], ms[|ms| - 1];
      CellCounts(text, init);
      var c := CellsFor(text, m);
      CountTypeAppend(CellsOf(text, init), c, Code);
      CountTypeAppend(CellsOf(text, init), c, Markdown);
      CellsForCounts(text, m);
    }
  }

  lemma CellsForCounts(text: string, m: Match)
    requires WellFormed(text, m)
    ensures var c, nonEmpty := CellsFor(text, m), Capture(text, m) != "";
            |c| == (if !nonEmpty then 0 else if m.alternative == RunCode then 2 else 1)
            && CountType(c, Code) == (if nonEmpty && m.alternative == RunCode then 2 else 0)
            && CountType(c, Markdown) == (if nonEmpty && m.alternative != RunCode then 1 else 0)
  {
    var c := CellsFor(text, m);
    if |c| == 1 {
      assert c[..0] == [];
    } else if |c| == 2 {
      assert c[..1][..0] == [];
      assert CountType(c[..1], Code) == 1;
      assert CountType(c[..1], Markdown) == 0;
    }
  }

  /** The cells of one more match are the cells so far followed by that match's cells. */
  lemma CellsOfSnoc(text: string, ms: seq<Match>, k: nat)
    requires AllWellFormed(text, ms) && k < |ms|
    ensures CellsOf(text, ms[..k + 1]) == CellsOf(text, ms[..k]) + CellsFor(text, ms[k])
  {
    assert ms[..k + 1][..k] == ms[..k];
  }

  /**
   * Cells come out in the order of the matches: the cells of the first `j`
   * matches are a prefix of the cells of the first `k`, for `j <= k`.
   */
  lemma {:induction false} CellsInMatchOrder(text: string, ms: seq<Match>, j: nat, k: nat)
    requires AllWellFormed(text, ms) && j <= k <= |ms|
    ensures CellsOf(text, ms[..j]) <= CellsOf(text, ms[..k])
    decreases k - j
  {
    if j < k {
      CellsInMatchOrder(text, ms, j + 1, k);
      CellsOfSnoc(text, ms, j);
    }
  }

  /**
   * The cells of the `k`-th match sit right after the cells of the matches
   * before it.
   */
  lemma CellsOfMatch(text: string, ms: seq<Match>, k: nat)
    requires AllWellFormed(text, ms) && k < |ms|
    ensures var o, c := |CellsOf(text, ms[..k])|, CellsFor(text, ms[k]);
            o + |c| <= |CellsOf(text, ms)| && CellsOf(text, ms)[o..o + |c|] == c
  {
    var upTo := ms[..k + 1];
    assert upTo[..k] == ms[..k] && upTo[k] == ms[k];
    var before, c := CellsOf(text, ms[..k]), CellsFor(text, ms[k]);
    assert CellsOf(text, upTo) == before + c;
    CellsInMatchOrder(text, ms, k + 1, |ms|);
    assert ms[..|ms|] == ms;
    var cells := CellsOf(text, ms);
    assert cells[..|before| + |c|] == before + c;
    assert cells[|before|..|before| + |c|] == (before + c)[|before|..];
  }

  lemma CodeCellsFor(text: string, m: Match)
    requires WellFormed(text, m) && m.alternative == RunCode && Capture(text, m) != ""
    ensures CellsFor(text, m) == [Cell(Code, Strip(Capture(text, m))), Cell(Code, PracticeContent)]
  {
  }

  lemma MarkdownCellsFor(text: string, m: Match)
    requires WellFormed(text, m) && m.alternative != RunCode && Capture(text, m) != ""
    ensures CellsFor(text, m) == [Cell(Markdown, Strip(Capture(text, m)))]
  {
  }

  lemma OneAt(cells: seq<Cell>, o: nat, x: Cell)
    requires o + 1 <= |cells| && cells[o..o + 1] == [x]
    ensures cells[o] == x
  {
    assert cells[o..o + 1][0] == cells[o];
  }

  lemma TwoAt(cells: seq<Cell>, o: nat, x: Cell, y: Cell)
    requires o + 2 <= |cells| && cells[o..o + 2] == [x, y]
    ensures cells[o] == x && cells[o + 1] == y
  {
    assert cells[o..o + 2][0] == cells[o];
    assert cells[o..o + 2][1] == cells[o + 1];
  }

  /**
   * A non-empty code capture yields exactly two consecutive cells: a code cell
   * with the stripped capture, then the practice cell.
   */
  lemma CodeCaptureCells(text: string, ms: seq<Match>, k: nat)
    requires AllWellFormed(text, ms) && k < |ms|
    requires ms[k].alternative == RunCode && Capture(text, ms[k]) != ""
    ensures var cells, o := CellsOf(text, ms), |CellsOf(text, ms[..k])|;
            o + 2 <= |cells|
            && cells[o] == Cell(Code, Strip(Capture(text, ms[k])))
            && cells[o + 1] == Cell(Code, PracticeContent)
  {
    var x := Cell(Code, Strip(Capture(text, ms[k])));
    CodeCellsFor(text, ms[k]);
    CellsOfMatch(text, ms, k);
    TwoAt(CellsOf(text, ms), |CellsOf(text, ms[..k])|, x, Cell(Code, PracticeContent));
  }

  /**
   * A non-empty markdown or reading capture yields exactly one markdown cell
   * holding the stripped capture.
   */
  lemma MarkdownCaptureCell(text: string, ms: seq<Match>, k: nat)
    requires AllWellFormed(text, ms) && k < |ms|
    requires ms[k].alternative != RunCode && Capture(text, ms[k]) != ""
    ensures var cells, o := CellsOf(text, ms), |CellsOf(text, ms[..k])|;
            o + 1 <= |cells|
            && cells[o] == Cell(Markdown, Strip(Capture(text, ms[k])))
  {
    var x := Cell(Markdown, Strip(Capture(text, ms[k])));
    MarkdownCellsFor(text, ms[k]);
    CellsOfMatch(text, ms, k);
    OneAt(CellsOf(text, ms), |CellsOf(text, ms[..k])|, x);
  }

  /** A fence with an empty body adds no cell. */
  lemma EmptyCaptureNoCell(text: string, ms: seq<Match>, k: nat)
    requires AllWellFormed(text, ms) && k < |ms| && Capture(text, ms[k]) == ""
    ensures CellsOf(text, ms[..k + 1]) == CellsOf(text, ms[..k])
  {
    assert ms[..k + 1][..k] == ms[..k];
  }

  /** No capture is counted as non-empty exactly when every capture is empty. */
  lemma {:induction false} NoNonEmptyCaptures(text: string, ms: seq<Match>)
    requires AllWellFormed(text, ms)
    ensures NonEmptyCaptures(text, ms, FencedMarkdown) + NonEmptyCaptures(text, ms, RunCode)
            + NonEmptyCaptures(text, ms, ReadNote) == 0
            <==> forall k :: 0 <= k < |ms| ==> Capture(text, ms[k]) == ""
    decreases |ms|
  {
    if ms != [] {
      var init := ms[..|ms| - 1];
      NoNonEmptyCaptures(text, init);
      assert forall k :: 0 <= k < |init| ==> init[k] == ms[k];
    }
  }

  /** The parser returns no cell exactly when every capture is empty. */
  lemma NoCellsIffEmptyCaptures(text: string, ms: seq<Match>)
    requires AllWellFormed(text, ms)
    ensures CellsOf(text, ms) == [] <==> forall k :: 0 <= k < |ms| ==> Capture(text, ms[k]) == ""
  {
    CellCounts(text, ms);
    NoNonEmptyCaptures(text, ms);
  }

  /** The scan finds nothing exactly when no position of the text starts a match. */
  lemma NoMatchIffNoMatchingPosition(text: string)
    ensures FindAll(text) == [] <==> forall q :: 0 <= q < |text| ==> MatchAt(text, q).None?
  {
    var ms := FindAll(text);
    ScanIsLeftmost(text, 0);
    StartsInText(text, 0, ms);
    if ms == [] {
      forall q | 0 <= q < |text| ensures MatchAt(text, q).None? {
        assert !Covered(ms, q);
      }
    } else {
      assert MatchAt(text, ms[0].start).Some?;
    }
  }

  /** `parse_synapse`: collect the cells of every match, in the order the scan finds them. */
  method ParseSynapse(text: string) returns (cells: seq<Cell>)
    ensures cells == SynapseCells(text)
    ensures |cells| == NonEmptyCaptures(text, FindAll(text), FencedMarkdown)
                       + 2 * NonEmptyCaptures(text, FindAll(text), RunCode)
                       + NonEmptyCaptures(text, FindAll(text), ReadNote)
  {
    var matches := FindAll(text);
    cells := [];
    for i := 0 to |matches|
      invariant cells == CellsOf(text, matches[..i])
    {
      var g := GroupsOf(text, matches[i]);
      if g.md != "" {
        cells := cells + [Cell(Markdown, Strip(g.md))];
      }
      if g.code != "" {
        cells := cells + [Cell(Code, Strip(g.code)), Cell(Code, PracticeContent)];
      }
      if g.read != "" {
        cells := cells + [Cell(Markdown, Strip(g.read))];
      }
      assert matches[..i + 1][..i] == matches[..i];
    }
    assert matches[..|matches|] == matches;
    CellCounts(text, matches);
  }
}

/**
 * Pulling the Drive file id out of a Colab URL (`extract_notebook_id`):
 * two searches with a capture group, tried in order, then a fallback that
 * takes the first long run of id characters.
 */
module NotebookId {
  import opened Wrappers
  import opened Text

  /** The character classes of the three patterns. */
  datatype CharClass =
    | NotSlash           // [^/]
    | NotSlashQueryHash  // [^/?#]
    | IdChar             // [A-Za-z0-9_-]

  predicate InClass(c: char, cls: CharClass) {
    match cls
    case NotSlash => c != '/'
    case NotSlashQueryHash => c != '/' && c != '?' && c != '#'
    case IdChar => ('A' <= c <= 'Z') || ('a' <= c <= 'z') || ('0' <= c <= '9') || c == '_' || c == '-'
  }

  /** A search pattern `prefix([cls]+)`. */
  datatype IdPattern = IdPattern(prefix: string, cls: CharClass)

  /** `/d/([^/]+)`, then `/drive/([^/?#]+)`. */
  const IdPatterns: seq<IdPattern> := [IdPattern("/d/", NotSlash), IdPattern("/drive/", NotSlashQueryHash)]

  /** The fallback accepts runs of at least this many id characters. */
  const MinIdLength: nat := 25

  /** The end of the longest run of `cls` characters starting at `i` (a greedy repetition). */
  function RunEnd(s: string, i: nat, cls: CharClass): (e: nat)
    requires i <= |s|
    ensures i <= e <= |s|
    ensures forall k :: i <= k < e ==> InClass(s[k], cls)
    ensures e == |s| || !InClass(s[e], cls)
    decreases |s| - i
  {
    if i < |s| && InClass(s[i], cls) then RunEnd(s, i + 1, cls) else i
  }

  /** The pattern matches at `p`: its prefix, then at least one character of its class. */
  predicate MatchesAt(s: string, p: nat, pat: IdPattern) {
    At(s, p, pat.prefix) && p + |pat.prefix| < |s| && InClass(s[p + |pat.prefix|], pat.cls)
  }

  /** The group captured by a match at `p`: the whole run of class characters after the prefix. */
  function CaptureAt(s: string, p: nat, pat: IdPattern): (id: string)
    requires MatchesAt(s, p, pat)
  {
    s[p + |pat.prefix|..RunEnd(s, p + |pat.prefix|, pat.cls)]
  }

  /** `re.search`: the leftmost position at or after `from` where the pattern matches. */
  function Search(s: string, pat: IdPattern, from: nat): (r: Option<nat>)
    ensures r.Some? ==> from <= r.value && MatchesAt(s, r.value, pat)
    ensures forall q :: from <= q && (r.None? || q < r.value) ==> !MatchesAt(s, q, pat)
    decreases |s| - from
  {
    if |s| <= from then None
    else if MatchesAt(s, from, pat) then Some(from)
    else Search(s, pat, from + 1)
  }

  /** The fallback pattern `[A-Za-z0-9_-]{25,}` matches at `p`. */
  predicate LongRunAt(s: string, p: nat) {
    p <= |s| && RunEnd(s, p, IdChar) - p >= MinIdLength
  }

  /** The first match `re.findall` reports for the fallback pattern. */
  function FirstLongRun(s: string, from: nat): (r: Option<nat>)
    ensures r.Some? ==> from <= r.value && LongRunAt(s, r.value)
    ensures forall q :: from <= q && (r.None? || q < r.value) ==> !LongRunAt(s, q)
    decreases |s| - from
  {
    if |s| <= from then None
    else if LongRunAt(s, from) then Some(from)
    else FirstLongRun(s, from + 1)
  }

  /** The loop over the patterns: the capture of the first pattern that matches anywhere. */
  function SearchPatterns(url: string, patterns: seq<IdPattern>): (r: Option<string>)
    ensures r.Some? ==> r.value != [] && '/' !in r.value
  {
    if patterns == [] then None
    else
      match Search(url, patterns[0], 0)
      case Some(p) =>
        CaptureShape(url, p, patterns[0]);
        NoSlashInClass(CaptureAt(url, p, patterns[0]), patterns[0].cls);
        Some(CaptureAt(url, p, patterns[0]))
      case None => SearchPatterns(url, patterns[1..])
  }

  /** None of the three character classes admits `/`. */
  lemma NoSlashInClass(s: string, cls: CharClass)
    requires forall i :: 0 <= i < |s| ==> InClass(s[i], cls)
    ensures '/' !in s
  {
    forall i | 0 <= i < |s| ensures s[i] != '/' {
      assert InClass(s[i], cls);
    }
  }

  /** `extract_notebook_id`. */
  function ExtractNotebookId(url: string): (id: string)
    ensures '/' !in id
  {
    match SearchPatterns(url, IdPatterns)
    case Some(id) => id
    case None =>
      match FirstLongRun(url, 0)
      case Some(p) =>
        var e := RunEnd(url, p, IdChar);
        assert forall i :: 0 <= i < e - p ==> url[p..e][i] == url[p + i];
        NoSlashInClass(url[p..e], IdChar);
        url[p..e]
      case None => ""
  }

  /** The patterns are tried in list order: the first with a match gives the id. */
  lemma SearchPatternsInOrder(url: string)
    ensures Search(url, IdPatterns[0], 0).Some? ==>
              SearchPatterns(url, IdPatterns) == Some(CaptureAt(url, Search(url, IdPatterns[0], 0).value, IdPatterns[0]))
    ensures Search(url, IdPatterns[0], 0).None? && Search(url, IdPatterns[1], 0).Some? ==>
              SearchPatterns(url, IdPatterns) == Some(CaptureAt(url, Search(url, IdPatterns[1], 0).value, IdPatterns[1]))
    ensures Search(url, IdPatterns[0], 0).None? && Search(url, IdPatterns[1], 0).None? ==>
              SearchPatterns(url, IdPatterns) == None
  {
    var rest := IdPatterns[1..];
    assert rest[0] == IdPatterns[1] && rest[1..] == [];
    if Search(url, IdPatterns[0], 0).None? {
      assert SearchPatterns(url, IdPatterns) == SearchPatterns(url, rest);
      if Search(url, IdPatterns[1], 0).None? {
        assert SearchPatterns(url, rest) == SearchPatterns(url, []);
      }
    }
  }

  /** Every capture is non-empty and made of characters of the pattern's class. */
  lemma CaptureShape(s: string, p: nat, pat: IdPattern)
    requires MatchesAt(s, p, pat)
    ensures var id := CaptureAt(s, p, pat);
            id != [] && forall i :: 0 <= i < |id| ==> InClass(id[i], pat.cls)
  {
    var start := p + |pat.prefix|;
    var id := CaptureAt(s, p, pat);
    forall i | 0 <= i < |id| ensures InClass(id[i], pat.cls) {
      assert id[i] == s[start + i];
    }
  }

  /**
   * A `/d/` match wins: the id is what follows the leftmost `/d/` up to the
   * next `/`, never empty and free of `/`.
   */
  lemma SlashDWins(url: string, p: nat)
    requires MatchesAt(url, p, IdPatterns[0])
    requires forall q :: 0 <= q < p ==> !MatchesAt(url, q, IdPatterns[0])
    ensures ExtractNotebookId(url) == CaptureAt(url, p, IdPatterns[0])
    ensures ExtractNotebookId(url) != [] && '/' !in ExtractNotebookId(url)
  {
    assert Search(url, IdPatterns[0], 0) == Some(p);
    SearchPatternsInOrder(url);
    CaptureShape(url, p, IdPatterns[0]);
  }

  /**
   * With no `/d/` match, a `/drive/` match wins: the id is what follows the
   * leftmost `/drive/` up to the next `/`, `?` or `#`.
   */
  lemma DriveIsSecond(url: string, p: nat)
    requires forall q :: !MatchesAt(url, q, IdPatterns[0])
    requires MatchesAt(url, p, IdPatterns[1])
    requires forall q :: 0 <= q < p ==> !MatchesAt(url, q, IdPatterns[1])
    ensures ExtractNotebookId(url) == CaptureAt(url, p, IdPatterns[1])
    ensures ExtractNotebookId(url) != [] && '/' !in ExtractNotebookId(url)
            && '?' !in ExtractNotebookId(url) && '#' !in ExtractNotebookId(url)
  {
    assert Search(url, IdPatterns[0], 0) == None;
    assert Search(url, IdPatterns[1], 0) == Some(p);
    SearchPatternsInOrder(url);
    CaptureShape(url, p, IdPatterns[1]);
  }

  /**
   * With neither pattern matching, the id is the first run of at least 25 id
   * characters, taken whole.
   */
  lemma LongRunIsLast(url: string, p: nat)
    requires forall q :: !MatchesAt(url, q, IdPatterns[0]) && !MatchesAt(url, q, IdPatterns[1])
    requires LongRunAt(url, p)
    requires forall q :: 0 <= q < p ==> !LongRunAt(url, q)
    ensures ExtractNotebookId(url) == url[p..RunEnd(url, p, IdChar)]
    ensures |ExtractNotebookId(url)| >= MinIdLength
  {
    assert Search(url, IdPatterns[0], 0) == None;
    assert Search(url, IdPatterns[1], 0) == None;
    SearchPatternsInOrder(url);
    assert FirstLongRun(url, 0) == Some(p);
  }

  /** The id is empty exactly when none of the three patterns matches anywhere. */
  lemma EmptyIdIffNoMatch(url: string)
    ensures ExtractNotebookId(url) == "" <==>
              forall q :: !MatchesAt(url, q, IdPatterns[0]) && !MatchesAt(url, q, IdPatterns[1])
                          && !LongRunAt(url, q)
  {
    var d, drive := IdPatterns[0], IdPatterns[1];
    SearchPatternsInOrder(url);
    match Search(url, d, 0)
    case Some(p) =>
      CaptureShape(url, p, d);
    case None =>
      match Search(url, drive, 0)
      case Some(p) =>
        CaptureShape(url, p, drive);
      case None =>
        match FirstLongRun(url, 0)
        case Some(p) =>
        case None =>
          forall q ensures !LongRunAt(url, q) {
          }
  }
}

/**
 * String helpers shared by the parser, the notebook builder and the URL parser:
 * Python's whitespace test and `str.strip()`, the search for the literal parts
 * of a regular expression, and `str.split('\n')`.
 */
module Text {
  import opened Wrappers

  /** The characters for which Python's `str.isspace()` holds. */
  predicate IsSpace(c: char) {
    ('\t' <= c <= '\r') || ('\U{1C}' <= c <= ' ') || c == '\U{85}' || c == '\U{A0}'
    || c == '\U{1680}' || ('\U{2000}' <= c <= '\U{200A}') || c == '\U{2028}' || c == '\U{2029}'
    || c == '\U{202F}' || c == '\U{205F}' || c == '\U{3000}'
  }

  predicate AllSpace(s: string) {
    forall i :: 0 <= i < |s| ==> IsSpace(s[i])
  }

  /** The first index at or after `i` that holds no whitespace (or `|s|`). */
  function SkipSpace(s: string, i: nat): (a: nat)
    requires i <= |s|
    ensures i <= a <= |s|
    decreases |s| - i
  {
    if i < |s| && IsSpace(s[i]) then SkipSpace(s, i + 1) else i
  }

  /** Everything `SkipSpace` skips is whitespace, and it stops at a non-whitespace character. */
  lemma {:induction false} SkipSpaceSkipsSpace(s: string, i: nat)
    requires i <= |s|
    ensures forall k :: i <= k < SkipSpace(s, i) ==> IsSpace(s[k])
    ensures SkipSpace(s, i) < |s| ==> !IsSpace(s[SkipSpace(s, i)])
    decreases |s| - i
  {
    if i < |s| && IsSpace(s[i]) {
      SkipSpaceSkipsSpace(s, i + 1);
    }
  }

  /** The end of `s[lo..j]` once its trailing whitespace is cut off. */
  function TrimEnd(s: string, lo: nat, j: nat): (b: nat)
    requires lo <= j <= |s|
    ensures lo <= b <= j
    decreases j
  {
    if lo < j && IsSpace(s[j - 1]) then TrimEnd(s, lo, j - 1) else j
  }

  /** Everything `TrimEnd` cuts is whitespace, and it stops after a non-whitespace character. */
  lemma {:induction false} TrimEndCutsSpace(s: string, lo: nat, j: nat)
    requires lo <= j <= |s|
    ensures forall k :: TrimEnd(s, lo, j) <= k < j ==> IsSpace(s[k])
    ensures lo < TrimEnd(s, lo, j) ==> !IsSpace(s[TrimEnd(s, lo, j) - 1])
    decreases j
  {
    if lo < j && IsSpace(s[j - 1]) {
      TrimEndCutsSpace(s, lo, j - 1);
    }
  }

  /** `s.strip()`: leading whitespace is skipped, then trailing whitespace cut. */
  function Strip(s: string): (r: string)
    ensures |r| <= |s|
  {
    var a := SkipSpace(s, 0);
    s[a..TrimEnd(s, a, |s|)]
  }

  /**
   * `Strip(s)` is the slice of `s` that is left once a whitespace-only prefix
   * and a whitespace-only suffix are cut off, and it neither starts nor ends
   * with whitespace.
   */
  lemma StripIsTrimmedSlice(s: string)
    ensures var a := SkipSpace(s, 0);
            var r := Strip(s);
            a + |r| <= |s| && s[a..a + |r|] == r
            && AllSpace(s[..a]) && AllSpace(s[a + |r|..])
            && (r != [] ==> !IsSpace(r[0]) && !IsSpace(r[|r| - 1]))
  {
    var a := SkipSpace(s, 0);
    var b := TrimEnd(s, a, |s|);
    SkipSpaceSkipsSpace(s, 0);
    TrimEndCutsSpace(s, a, |s|);
    assert forall k :: 0 <= k < a ==> s[..a][k] == s[k];
    assert forall k :: 0 <= k < |s| - b ==> s[b..][k] == s[b + k];
  }

  /** Stripping leaves nothing exactly when the string is all whitespace. */
  lemma StripEmptyIffAllSpace(s: string)
    ensures Strip(s) == [] <==> AllSpace(s)
  {
    var a := SkipSpace(s, 0);
    var b := TrimEnd(s, a, |s|);
    SkipSpaceSkipsSpace(s, 0);
    TrimEndCutsSpace(s, a, |s|);
    if Strip(s) == [] {
      assert b == a;
      forall k | 0 <= k < |s| ensures IsSpace(s[k]) {
      }
    }
  }

  /** Stripping twice is stripping once. */
  lemma StripIdempotent(s: string)
    ensures Strip(Strip(s)) == Strip(s)
  {
    var r := Strip(s);
    StripIsTrimmedSlice(s);
    if r != [] {
      assert SkipSpace(r, 0) == 0;
      assert TrimEnd(r, 0, |r|) == |r|;
    }
  }

  /** The pattern `pat` occurs in `s` starting at index `i`. */
  predicate At(s: string, i: nat, pat: string) {
    i + |pat| <= |s| && s[i..i + |pat|] == pat
  }

  /** The first occurrence of `pat` in `s` at or after `from`, if any. */
  function Find(s: string, pat: string, from: nat): (r: Option<nat>)
    ensures r.Some? ==> from <= r.value && r.value + |pat| <= |s|
    decreases |s| - from
  {
    if |s| < from + |pat| then None
    else if At(s, from, pat) then Some(from)
    else Find(s, pat, from + 1)
  }

  /** `Find` reports an occurrence, and there is none between the start and it. */
  lemma {:induction false} FindIsLeftmost(s: string, pat: string, from: nat)
    ensures Find(s, pat, from).Some? ==> At(s, Find(s, pat, from).value, pat)
    ensures forall k :: from <= k && (Find(s, pat, from).None? || k < Find(s, pat, from).value) ==> !At(s, k, pat)
    decreases |s| - from
  {
    if from + |pat| <= |s| && !At(s, from, pat) {
      FindIsLeftmost(s, pat, from + 1);
    }
  }

  function CountChar(s: string, c: char): nat {
    if s == [] then 0 else (if s[0] == c then 1 else 0) + CountChar(s[1..], c)
  }

  /** `s.split(sep)`: the pieces between separators, always at least one. */
  function Split(s: string, sep: char): (parts: seq<string>)
    ensures |parts| >= 1
    decreases |s|
  {
    if s == [] then [""]
    else if s[0] == sep then [""] + Split(s[1..], sep)
    else
      var rest := Split(s[1..], sep);
      [[s[0]] + rest[0]] + rest[1..]
  }

  /** The concatenation of all the strings in `parts`. */
  function Concat(parts: seq<string>): string {
    if parts == [] then "" else parts[0] + Concat(parts[1..])
  }

  /** Every piece with `sep` appended, as `[p + sep for p in parts]` does. */
  function Terminated(parts: seq<string>, sep: char): (r: seq<string>)
    ensures |r| == |parts|
  {
    seq(|parts|, i requires 0 <= i < |parts| => parts[i] + [sep])
  }

  lemma TerminatedCons(x: string, xs: seq<string>, sep: char)
    ensures Terminated([x] + xs, sep) == [x + [sep]] + Terminated(xs, sep)
  {
    var l, r := Terminated([x] + xs, sep), [x + [sep]] + Terminated(xs, sep);
    forall i | 0 <= i < |l| ensures l[i] == r[i] {
      if i > 0 {
        assert ([x] + xs)[i] == xs[i - 1];
      }
    }
  }

  /**
   * Splitting on `sep` gives one more piece than there are separators, and
   * no piece contains the separator.
   */
  lemma {:induction false} SplitShape(s: string, sep: char)
    ensures |Split(s, sep)| == CountChar(s, sep) + 1
    ensures forall i :: 0 <= i < |Split(s, sep)| ==> sep !in Split(s, sep)[i]
    decreases |s|
  {
    if s != [] {
      SplitShape(s[1..], sep);
      var rest := Split(s[1..], sep);
      if s[0] != sep {
        var parts := Split(s, sep);
        forall i | 0 <= i < |parts| ensures sep !in parts[i] {
          if i == 0 {
            assert parts[0] == [s[0]] + rest[0];
          } else {
            assert parts[i] == rest[i];
          }
        }
      }
    }
  }

  lemma ConcatTerminatedCons(x: string, xs: seq<string>, sep: char)
    ensures Concat(Terminated([x] + xs, sep)) == x + [sep] + Concat(Terminated(xs, sep))
  {
    TerminatedCons(x, xs, sep);
    var l := [x + [sep]] + Terminated(xs, sep);
    assert l[1..] == Terminated(xs, sep);
  }

  /** One step of `Split` on a text that does not start with the separator. */
  lemma SplitOfChar(s: string, sep: char)
    requires s != [] && s[0] != sep
    ensures Split(s, sep) == [[s[0]] + Split(s[1..], sep)[0]] + Split(s[1..], sep)[1..]
  {
  }

  lemma SplitConcatAtSep(s: string, sep: char)
    requires s != [] && s[0] == sep
    requires Concat(Terminated(Split(s[1..], sep), sep)) == s[1..] + [sep]
    ensures Concat(Terminated(Split(s, sep), sep)) == s + [sep]
  {
    var tail := Split(s[1..], sep);
    assert Split(s, sep) == [""] + tail;
    ConcatTerminatedCons("", tail, sep);
    PrependOne(sep, s[1..], Concat(Terminated(tail, sep)), s, sep);
  }

  /** `c` put in front of `x + [sep]` is `s + [sep]` when `s` is `c` followed by `x`. */
  lemma PrependOne(c: char, x: string, y: string, s: string, sep: char)
    requires y == x + [sep] && s == [c] + x
    ensures [c] + y == s + [sep]
  {
  }

  lemma SplitConcatAtChar(s: string, sep: char)
    requires s != [] && s[0] != sep
    requires Concat(Terminated(Split(s[1..], sep), sep)) == s[1..] + [sep]
    ensures Concat(Terminated(Split(s, sep), sep)) == s + [sep]
  {
    var rest := Split(s[1..], sep);
    var first, more := rest[0], rest[1..];
    var tail := Concat(Terminated(more, sep));
    SplitOfChar(s, sep);
    ConcatTerminatedCons([s[0]] + first, more, sep);
    assert rest == [first] + more;
    ConcatTerminatedCons(first, more, sep);
    PrependPiece(s[0], first, tail, s[1..], s, sep);
  }

  /** Joining: `c`, then a piece, `sep` and a tail, when piece, `sep` and tail spell `x + [sep]`. */
  lemma PrependPiece(c: char, first: string, tail: string, x: string, s: string, sep: char)
    requires first + [sep] + tail == x + [sep] && s == [c] + x
    ensures [c] + first + [sep] + tail == s + [sep]
  {
    assert [c] + first + [sep] + tail == [c] + (first + [sep] + tail);
  }

  /** Appending `sep` to every piece and concatenating undoes the split. */
  lemma {:induction false} SplitTerminatedConcat(s: string, sep: char)
    ensures Concat(Terminated(Split(s, sep), sep)) == s + [sep]
    decreases |s|
  {
    if s == [] {
      assert Split(s, sep) == [""] + [];
      ConcatTerminatedCons("", [], sep);
      assert Terminated([], sep) == [];
    } else {
      SplitTerminatedConcat(s[1..], sep);
      if s[0] == sep {
        SplitConcatAtSep(s, sep);
      } else {
        SplitConcatAtChar(s, sep);
      }
    }
  }
}

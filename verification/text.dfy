/** Optional values, for the recognisers that may find no match. */
module Options {
  datatype Option<T> = None | Some(value: T)
}

/**
 * Character classes and string helpers the package uses: the regular
 * expression class `\s`, Go's `unicode.IsSpace` (the notion `strings.TrimSpace`
 * uses), `strings.Split` on a one-character separator, `strings.Join`, and
 * substring occurrence. Strings are sequences of code points.
 */
module Text {

  /** `\s` in Go's regular expressions: tab, newline, form feed, carriage return, space. */
  predicate IsAsciiSpace(c: char) {
    c == '\t' || c == '\n' || c == '\U{C}' || c == '\r' || c == ' '
  }

  /** Go's `unicode.IsSpace`: it also covers vertical tab, NEL, no-break space and the Unicode spaces. */
  predicate IsUnicodeSpace(c: char) {
    || ('\t' <= c <= '\r')
    || c == ' ' || c == '\U{85}' || c == '\U{A0}' || c == '\U{1680}'
    || ('\U{2000}' <= c <= '\U{200A}')
    || c == '\U{2028}' || c == '\U{2029}' || c == '\U{202F}' || c == '\U{205F}'
    || c == '\U{3000}'
  }

  predicate AllAsciiSpace(s: string) {
    forall i :: 0 <= i < |s| ==> IsAsciiSpace(s[i])
  }

  predicate NoAsciiSpace(s: string) {
    forall i :: 0 <= i < |s| ==> !IsAsciiSpace(s[i])
  }

  predicate AllUnicodeSpace(s: string) {
    forall i :: 0 <= i < |s| ==> IsUnicodeSpace(s[i])
  }

  /** End of the run of `\s` characters that starts at `i` (what a greedy `\s*` consumes). */
  function SpaceRunEnd(s: string, i: nat): (j: nat)
    requires i <= |s|
    ensures i <= j <= |s|
    ensures AllAsciiSpace(s[i..j])
    ensures j == |s| || !IsAsciiSpace(s[j])
    decreases |s| - i
  {
    if i < |s| && IsAsciiSpace(s[i]) then SpaceRunEnd(s, i + 1) else i
  }

  /** End of the run of non-`\s` characters that starts at `i` (what a greedy `\S*` consumes). */
  function NonSpaceRunEnd(s: string, i: nat): (j: nat)
    requires i <= |s|
    ensures i <= j <= |s|
    ensures NoAsciiSpace(s[i..j])
    ensures j == |s| || IsAsciiSpace(s[j])
    decreases |s| - i
  {
    if i < |s| && !IsAsciiSpace(s[i]) then NonSpaceRunEnd(s, i + 1) else i
  }

  /** First index at or after `i` that is not a Unicode space. */
  function TrimStart(s: string, i: nat): (j: nat)
    requires i <= |s|
    ensures i <= j <= |s|
    ensures AllUnicodeSpace(s[i..j])
    ensures j == |s| || !IsUnicodeSpace(s[j])
    decreases |s| - i
  {
    if i < |s| && IsUnicodeSpace(s[i]) then TrimStart(s, i + 1) else i
  }

  /** Smallest `b >= lo` such that `s[b..hi]` is all Unicode space. */
  function TrimEnd(s: string, lo: nat, hi: nat): (b: nat)
    requires lo <= hi <= |s|
    ensures lo <= b <= hi
    ensures forall k :: b <= k < hi ==> IsUnicodeSpace(s[k])
    ensures b == lo || !IsUnicodeSpace(s[b - 1])
    decreases hi
  {
    if lo < hi && IsUnicodeSpace(s[hi - 1]) then TrimEnd(s, lo, hi - 1) else hi
  }

  /** No Unicode space at either end. */
  predicate IsTrimmed(s: string) {
    s == [] || (!IsUnicodeSpace(s[0]) && !IsUnicodeSpace(s[|s| - 1]))
  }

  /**
   * Go's `strings.TrimSpace`: the result is the middle of `s` once every leading
   * and trailing Unicode space is cut off.
   */
  function TrimSpace(s: string): (r: string)
    ensures IsTrimmed(r)
    ensures forall c :: c in r ==> c in s
  {
    var a := TrimStart(s, 0);
    var b := TrimEnd(s, a, |s|);
    assert a < |s| ==> b > a;
    s[a..b]
  }

  /** What `TrimSpace` cuts off at either end is Unicode space, and what it keeps is one slice of the input. */
  lemma TrimSpaceCutsSpace(s: string)
    ensures exists a, b :: 0 <= a <= b <= |s| && TrimSpace(s) == s[a..b] && AllUnicodeSpace(s[..a]) && AllUnicodeSpace(s[b..])
  {
    var a := TrimStart(s, 0);
    var b := TrimEnd(s, a, |s|);
    assert s[..a] == s[0..a];
    assert TrimSpace(s) == s[a..b];
  }

  /** Trimming leaves a trimmed string alone. */
  lemma {:induction false} TrimSpaceOfTrimmed(s: string)
    requires IsTrimmed(s)
    ensures TrimSpace(s) == s
  {
    var a := TrimStart(s, 0);
    assert a == 0;
    var b := TrimEnd(s, 0, |s|);
    assert b == |s|;
  }

  /**
   * Go's `strings.Split(s, [sep])`: the pieces between the separators, one more
   * piece than there are separators (so `""` gives `[""]`).
   */
  function SplitOn(s: string, sep: char): (pieces: seq<string>)
    ensures |pieces| == |s| - |RemoveChar(s, sep)| + 1
    ensures forall k :: 0 <= k < |pieces| ==> sep !in pieces[k]
    decreases |s|
  {
    if s == [] then [[]]
    else
      var rest := SplitOn(s[1..], sep);
      if s[0] == sep then [[]] + rest else [[s[0]] + rest[0]] + rest[1..]
  }

  /** `s` without any `sep`; its length tells how many separators `s` holds. */
  function RemoveChar(s: string, sep: char): string
    decreases |s|
  {
    if s == [] then [] else (if s[0] == sep then [] else [s[0]]) + RemoveChar(s[1..], sep)
  }

  /** The number of characters in all the parts together. */
  function TotalLength(parts: seq<string>): nat
    decreases |parts|
  {
    if parts == [] then 0 else |parts[0]| + TotalLength(parts[1..])
  }

  /** Go's `strings.Join`. */
  function Join(parts: seq<string>, sep: string): (r: string)
    ensures |parts| > 0 ==> |r| == TotalLength(parts) + (|parts| - 1) * |sep|
    decreases |parts|
  {
    if |parts| == 0 then []
    else if |parts| == 1 then parts[0]
    else parts[0] + sep + Join(parts[1..], sep)
  }

  /** Joining the pieces of `SplitOn` with the separator gives the input back. */
  lemma {:induction false} JoinSplitOn(s: string, sep: char)
    ensures Join(SplitOn(s, sep), [sep]) == s
    decreases |s|
  {
    if s != [] {
      var rest := SplitOn(s[1..], sep);
      JoinSplitOn(s[1..], sep);
      if s[0] == sep {
        assert SplitOn(s, sep) == [[]] + rest;
        assert ([[]] + rest)[1..] == rest;
      } else {
        var pieces := [[s[0]] + rest[0]] + rest[1..];
        assert SplitOn(s, sep) == pieces;
        if |rest| == 1 {
          assert Join(pieces, [sep]) == [s[0]] + rest[0];
        } else {
          assert pieces[1..] == rest[1..];
          assert Join(pieces, [sep]) == [s[0]] + (rest[0] + [sep] + Join(rest[1..], [sep]));
        }
        assert [s[0]] + s[1..] == s;
      }
    }
  }

  /** `pieces[0] + seps[0] + pieces[1] + ... + pieces[n]`: a text cut at the matches of a pattern. */
  function Interleave(pieces: seq<string>, seps: seq<string>): string
    requires |pieces| == |seps| + 1
    decreases |seps|
  {
    if seps == [] then pieces[0] else pieces[0] + seps[0] + Interleave(pieces[1..], seps[1..])
  }

  /** Interleaving a leading piece and separator in front of the rest. */
  lemma InterleaveCons(piece: string, sep: string, pieces: seq<string>, seps: seq<string>)
    requires |pieces| == |seps| + 1
    ensures Interleave([piece] + pieces, [sep] + seps) == piece + sep + Interleave(pieces, seps)
  {
    assert ([piece] + pieces)[1..] == pieces && ([sep] + seps)[1..] == seps;
  }

  /** Adjacent slices join into one. */
  lemma JoinSlices(s: string, a: nat, m: nat, b: nat)
    requires a <= m <= b <= |s|
    ensures s[a..b] == s[a..m] + s[m..b]
  {
  }

  /** A slice of a slice is a slice of the whole. */
  lemma SliceOfSlice(s: string, a: nat, b: nat, i: nat, j: nat)
    requires a <= b <= |s| && i <= j <= b - a
    ensures s[a..b][i..j] == s[a + i..a + j]
  {
    assert forall k :: 0 <= k < j - i ==> s[a..b][i..j][k] == s[a + i + k];
  }

  /** `x` occurs in `s` starting at index `i`. */
  predicate OccursAt(s: string, i: nat, x: string) {
    i + |x| <= |s| && s[i..i + |x|] == x
  }

  /** Around an occurrence of `x` at `i`, the text from `a` is what precedes it, `x`, and what follows. */
  lemma AroundOccurrence(s: string, a: nat, i: nat, x: string)
    requires a <= i && OccursAt(s, i, x)
    ensures s[a..] == s[a..i] + x + s[i + |x|..]
  {
    assert s[a..] == s[a..i] + s[i..i + |x|] + s[i + |x|..];
  }

  /** `x` is a contiguous substring of `s`. */
  predicate Contains(s: string, x: string) {
    exists i: nat :: i <= |s| && OccursAt(s, i, x)
  }

  /** An occurrence inside a slice is an occurrence in the whole string. */
  lemma OccursInSlice(s: string, a: nat, b: nat, i: nat, x: string)
    requires a <= b <= |s|
    requires OccursAt(s[a..b], i, x)
    ensures OccursAt(s, a + i, x)
  {
    forall k | 0 <= k < |x|
      ensures x[k] == s[a + i + k]
    {
      assert x[k] == s[a..b][i..i + |x|][k];
    }
  }

  /** Being a substring is transitive. */
  lemma ContainsTransitive(s: string, m: string, x: string)
    requires Contains(s, m) && Contains(m, x)
    ensures Contains(s, x)
  {
    var i: nat :| i <= |s| && OccursAt(s, i, m);
    var j: nat :| j <= |m| && OccursAt(m, j, x);
    assert m == s[i..i + |m|];
    OccursInSlice(s, i, i + |m|, j, x);
  }
}

/**
 * The two JavaScript string built-ins that `getLastSlash` relies on:
 * `String.prototype.split` with a one-character separator and
 * `String.prototype.trim`, over strings modelled as `seq<char>`.
 */
module JsString {

  /** True when `c` does not occur anywhere in `s`. */
  predicate Free(s: string, c: char) {
    forall k :: 0 <= k < |s| ==> s[k] != c
  }

  /**
   * The characters `trim` removes: the ECMAScript WhiteSpace code points
   * (TAB, VT, FF, SPACE, NO-BREAK SPACE, ZERO WIDTH NO-BREAK SPACE and the
   * Unicode category Zs) and the LineTerminator code points (LF, CR, LINE
   * SEPARATOR, PARAGRAPH SEPARATOR).
   */
  predicate IsWs(c: char) {
    c == '\t' || c == '\n' || c == '\U{000B}' || c == '\U{000C}' || c == '\r'
    || c == ' ' || c == '\U{00A0}' || c == '\U{1680}'
    || ('\U{2000}' <= c <= '\U{200A}')
    || c == '\U{2028}' || c == '\U{2029}' || c == '\U{202F}' || c == '\U{205F}'
    || c == '\U{3000}' || c == '\U{FEFF}'
  }

  /** No whitespace at either end of `s`. */
  predicate Trimmed(s: string) {
    s == [] || (!IsWs(s[0]) && !IsWs(s[|s| - 1]))
  }

  /** How many whitespace characters `s` starts with. */
  function LeadingWs(s: string): (n: nat)
    ensures n <= |s|
  {
    if |s| > 0 && IsWs(s[0]) then 1 + LeadingWs(s[1..]) else 0
  }

  /** How many whitespace characters `s` ends with. */
  function TrailingWs(s: string): (n: nat)
    ensures n <= |s|
  {
    if |s| > 0 && IsWs(s[|s| - 1]) then 1 + TrailingWs(s[..|s| - 1]) else 0
  }

  /** The leading run counted by `LeadingWs` is all whitespace and is maximal. */
  lemma {:induction false} LeadingWsSpec(s: string)
    ensures forall k :: 0 <= k < LeadingWs(s) ==> IsWs(s[k])
    ensures LeadingWs(s) == |s| || !IsWs(s[LeadingWs(s)])
  {
    if |s| > 0 && IsWs(s[0]) {
      LeadingWsSpec(s[1..]);
      forall k | 0 < k < LeadingWs(s) ensures IsWs(s[k]) {
        assert s[k] == s[1..][k - 1];
      }
    }
  }

  /** The trailing run counted by `TrailingWs` is all whitespace and is maximal. */
  lemma {:induction false} TrailingWsSpec(s: string)
    ensures forall k :: |s| - TrailingWs(s) <= k < |s| ==> IsWs(s[k])
    ensures TrailingWs(s) == |s| || !IsWs(s[|s| - TrailingWs(s) - 1])
  {
    if |s| > 0 && IsWs(s[|s| - 1]) {
      var s' := s[..|s| - 1];
      TrailingWsSpec(s');
      forall k | |s| - TrailingWs(s) <= k < |s| - 1 ensures IsWs(s[k]) {
        assert s[k] == s'[k];
      }
      if TrailingWs(s) < |s| {
        assert s[|s| - TrailingWs(s) - 1] == s'[|s'| - TrailingWs(s') - 1];
      }
    }
  }

  /** `s` without its leading whitespace. */
  function TrimStart(s: string): string {
    s[LeadingWs(s)..]
  }

  /** `s` without its trailing whitespace. */
  function TrimEnd(s: string): string {
    s[..|s| - TrailingWs(s)]
  }

  /** `s.trim()`. */
  function Trim(s: string): string {
    TrimEnd(TrimStart(s))
  }

  /**
   * `trim` keeps a contiguous slice `s[i..j]` of its input, removes only
   * whitespace on either side of it, and leaves no whitespace at either end.
   */
  lemma TrimSlice(s: string)
    ensures var i := LeadingWs(s);
            var j := i + |Trim(s)|;
            0 <= i <= j <= |s| && Trim(s) == s[i..j]
            && (forall k :: 0 <= k < i ==> IsWs(s[k]))
            && (forall k :: j <= k < |s| ==> IsWs(s[k]))
    ensures Trimmed(Trim(s))
  {
    var i := LeadingWs(s);
    var t := TrimStart(s);
    LeadingWsSpec(s);
    TrailingWsSpec(t);
    var r := Trim(s);
    var j := i + |r|;
    assert r == s[i..j];
    forall k | j <= k < |s| ensures IsWs(s[k]) {
      assert s[k] == t[k - i];
    }
    if r != [] {
      assert r[0] == t[0];
      assert r[|r| - 1] == t[|t| - TrailingWs(t) - 1];
    }
  }

  /** A string without whitespace at its ends is left as it is by `trim`. */
  lemma TrimOfTrimmed(s: string)
    requires Trimmed(s)
    ensures Trim(s) == s
  {
  }

  /** `trim` is idempotent. */
  lemma TrimIdempotent(s: string)
    ensures Trim(Trim(s)) == Trim(s)
  {
    TrimSlice(s);
    TrimOfTrimmed(Trim(s));
  }

  /** A character absent from `s` is absent from `s.trim()`. */
  lemma TrimKeepsFree(s: string, c: char)
    requires Free(s, c)
    ensures Free(Trim(s), c)
  {
  }

  /**
   * `s.split(sep)`: the maximal runs of non-`sep` characters of `s`, in order,
   * including the empty runs before, between and after separators; the
   * empty string splits into one empty piece.
   */
  function Split(s: string, sep: char): (pieces: seq<string>)
    ensures |pieces| >= 1
    ensures forall i :: 0 <= i < |pieces| ==> Free(pieces[i], sep)
  {
    if s == [] then [""]
    else
      var rest := Split(s[1..], sep);
      if s[0] == sep then [""] + rest
      else [[s[0]] + rest[0]] + rest[1..]
  }

  /** `pieces.join(sep)`. */
  function Join(pieces: seq<string>, sep: char): string
    requires |pieces| >= 1
  {
    if |pieces| == 1 then pieces[0] else pieces[0] + [sep] + Join(pieces[1..], sep)
  }

  /** Joining the pieces of a split with the same separator gives the input back. */
  lemma {:induction false} JoinSplit(s: string, sep: char)
    ensures Join(Split(s, sep), sep) == s
  {
    if s != [] {
      var rest := Split(s[1..], sep);
      JoinSplit(s[1..], sep);
      if s[0] == sep {
        assert ([""] + rest)[1..] == rest;
      } else {
        var p := [[s[0]] + rest[0]] + rest[1..];
        assert p[1..] == rest[1..];
        if |rest| > 1 {
          assert Join(rest, sep) == rest[0] + [sep] + Join(rest[1..], sep);
        }
      }
    }
  }

  /** Splitting a string that has no separator yields the string itself as the only piece. */
  lemma {:induction false} SplitFree(s: string, sep: char)
    requires Free(s, sep)
    ensures Split(s, sep) == [s]
  {
    if s != [] {
      SplitFree(s[1..], sep);
      assert [s[0]] + s[1..] == s;
    }
  }

  /** The text after the last `sep` of `s`, or all of `s` when it has no `sep`. */
  function LastSegment(s: string, sep: char): (r: string)
    ensures Free(r, sep)
  {
    if s == [] then ""
    else if s[|s| - 1] == sep then ""
    else LastSegment(s[..|s| - 1], sep) + [s[|s| - 1]]
  }

  /** The last segment is a suffix of `s` that starts at the beginning of `s` or right after a `sep`. */
  lemma {:induction false} LastSegmentPlacement(s: string, sep: char)
    ensures var r := LastSegment(s, sep);
            |r| <= |s| && r == s[|s| - |r|..]
            && (|r| == |s| || s[|s| - |r| - 1] == sep)
  {
    if s != [] && s[|s| - 1] != sep {
      var s' := s[..|s| - 1];
      LastSegmentPlacement(s', sep);
      var r' := LastSegment(s', sep);
      assert s[|s| - |r'| - 1..] == s'[|s'| - |r'|..] + [s[|s| - 1]];
    }
  }

  /** A separator-free suffix of `s` that starts at the beginning or right after a `sep` is the last segment. */
  lemma LastSegmentUnique(s: string, sep: char, r: string)
    requires Free(r, sep)
    requires |r| <= |s| && r == s[|s| - |r|..]
    requires |r| == |s| || s[|s| - |r| - 1] == sep
    ensures r == LastSegment(s, sep)
  {
    var l := LastSegment(s, sep);
    LastSegmentPlacement(s, sep);
    if |r| < |l| {
      assert false;
    } else if |l| < |r| {
      assert false;
    }
  }

  /** The last piece of a split, described by where it sits in the input. */
  lemma {:induction false} SplitLastPiece(s: string, sep: char)
    ensures var p := Split(s, sep);
            var l := p[|p| - 1];
            |l| <= |s| && l == s[|s| - |l|..]
            && (|p| == 1 ==> l == s)
            && (|p| > 1 ==> |l| < |s| && s[|s| - |l| - 1] == sep)
  {
    if s != [] {
      SplitLastPiece(s[1..], sep);
    }
  }

  /** The last piece of `s.split(sep)` is the last segment of `s`. */
  lemma LastPieceIsLastSegment(s: string, sep: char)
    ensures var p := Split(s, sep); p[|p| - 1] == LastSegment(s, sep)
  {
    SplitLastPiece(s, sep);
    var p := Split(s, sep);
    LastSegmentUnique(s, sep, p[|p| - 1]);
  }
}

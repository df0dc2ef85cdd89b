/**
 * The three `java.lang.String` operations the Transpool code relies on:
 * `trim()`, `split(regex)` for a one-character separator, and `toLowerCase()`
 * restricted to ASCII letters.
 */
module JavaStrings {

  /** `String.trim` strips every character whose code is at most U+0020. */
  predicate IsTrimmable(c: char) {
    c <= ' '
  }

  /** Drops the blank characters at the front. */
  function TrimStart(s: string): (r: string)
    ensures |r| <= |s|
    decreases |s|
  {
    if s != [] && IsTrimmable(s[0]) then TrimStart(s[1..]) else s
  }

  /** Drops the blank characters at the back. */
  function TrimEnd(s: string): (r: string)
    ensures |r| <= |s|
    decreases |s|
  {
    if s != [] && IsTrimmable(s[|s| - 1]) then TrimEnd(s[..|s| - 1]) else s
  }

  /** `String.trim()`: the longest middle slice without blank ends. */
  function Trim(s: string): string {
    TrimEnd(TrimStart(s))
  }

  /** `TrimStart` keeps a suffix of the input and drops exactly its blank front. */
  lemma {:induction false} TrimStartSpec(s: string)
    ensures var r := TrimStart(s);
      r == s[|s| - |r|..]
      && (r != [] ==> !IsTrimmable(r[0]))
      && forall i :: 0 <= i < |s| - |r| ==> IsTrimmable(s[i])
    decreases |s|
  {
    if s != [] && IsTrimmable(s[0]) {
      TrimStartSpec(s[1..]);
      var r := TrimStart(s[1..]);
      assert s[1..][|s| - 1 - |r|..] == s[|s| - |r|..];
      assert forall i :: 1 <= i < |s| ==> s[1..][i - 1] == s[i];
    }
  }

  /** `TrimEnd` keeps a prefix of the input and drops exactly its blank back. */
  lemma {:induction false} TrimEndSpec(s: string)
    ensures var r := TrimEnd(s);
      r == s[..|r|]
      && (r != [] ==> !IsTrimmable(r[|r| - 1]))
      && forall i :: |r| <= i < |s| ==> IsTrimmable(s[i])
    decreases |s|
  {
    if s != [] && IsTrimmable(s[|s| - 1]) {
      TrimEndSpec(s[..|s| - 1]);
      var r := TrimEnd(s[..|s| - 1]);
      assert s[..|s| - 1][..|r|] == s[..|r|];
    }
  }

  /** The trimmed string is a slice of the input. */
  lemma TrimIsSlice(s: string)
    ensures var k := |s| - |TrimStart(s)|; var r := Trim(s);
      k + |r| <= |s| && r == s[k..k + |r|]
  {
    var t := TrimStart(s);
    TrimStartSpec(s);
    TrimEndSpec(t);
    var r := TrimEnd(t);
    var k := |s| - |t|;
    assert t[..|r|] == s[k..k + |r|];
  }

  /** The trimmed string has no blank character at either end. */
  lemma TrimHasNoBlankEnds(s: string)
    ensures var r := Trim(s);
      r != [] ==> !IsTrimmable(r[0]) && !IsTrimmable(r[|r| - 1])
  {
    var t := TrimStart(s);
    TrimStartSpec(s);
    TrimEndSpec(t);
    var r := TrimEnd(t);
    if r != [] {
      assert r[0] == t[0];
    }
  }

  /** A string whose end characters are not blank is its own trim. */
  lemma TrimOfUnpadded(s: string)
    requires s != [] ==> !IsTrimmable(s[0]) && !IsTrimmable(s[|s| - 1])
    ensures Trim(s) == s
  {
  }

  /** Trimming twice is trimming once. */
  lemma TrimIdempotent(s: string)
    ensures Trim(Trim(s)) == Trim(s)
  {
    TrimHasNoBlankEnds(s);
    TrimOfUnpadded(Trim(s));
  }

  /**
   * All the pieces of `s` between occurrences of `sep`, empty pieces included:
   * the split before Java drops trailing empty strings.
   */
  function Segments(s: string, sep: char): (r: seq<string>)
    ensures |r| >= 1
    decreases |s|
  {
    if s == [] then [[]]
    else if s[0] == sep then [[]] + Segments(s[1..], sep)
    else
      var rest := Segments(s[1..], sep);
      [[s[0]] + rest[0]] + rest[1..]
  }

  lemma {:induction false} SegmentsHaveNoSeparator(s: string, sep: char)
    ensures forall i :: 0 <= i < |Segments(s, sep)| ==> sep !in Segments(s, sep)[i]
    decreases |s|
  {
    if s != [] {
      SegmentsHaveNoSeparator(s[1..], sep);
    }
  }

  /** A character of `s` other than the separator lies in some non-empty segment. */
  lemma {:induction false} SegmentsKeepOtherCharacters(s: string, sep: char, i: nat)
    requires i < |s| && s[i] != sep
    ensures exists j :: 0 <= j < |Segments(s, sep)| && s[i] in Segments(s, sep)[j]
    decreases |s|
  {
    var r := Segments(s, sep);
    if i == 0 {
      assert s[0] in r[0];
    } else {
      SegmentsKeepOtherCharacters(s[1..], sep, i - 1);
      var rest := Segments(s[1..], sep);
      var j :| 0 <= j < |rest| && s[i] in rest[j];
      if s[0] == sep {
        assert r[j + 1] == rest[j];
      } else if j == 0 {
        assert r[0] == [s[0]] + rest[0];
        assert s[i] in r[0];
      } else {
        assert r[j] == rest[j];
      }
    }
  }

  /** A string without the separator is a single segment. */
  lemma {:induction false} SegmentsWithoutSeparator(s: string, sep: char)
    requires sep !in s
    ensures Segments(s, sep) == [s]
    decreases |s|
  {
    if s != [] {
      SegmentsWithoutSeparator(s[1..], sep);
      assert [s[0]] + s[1..] == s;
    }
  }

  /** Cutting at one separator splits the segments into those of either side. */
  lemma {:induction false} SegmentsAtSeparator(p: string, q: string, sep: char)
    ensures Segments(p + [sep] + q, sep) == Segments(p, sep) + Segments(q, sep)
    decreases |p|
  {
    var s := p + [sep] + q;
    if p == [] {
      assert s[1..] == q;
    } else {
      assert s[1..] == p[1..] + [sep] + q;
      SegmentsAtSeparator(p[1..], q, sep);
      if p[0] != sep {
        ExtendFirstSegment(p[0], Segments(p[1..], sep), Segments(q, sep));
      }
    }
  }

  lemma ExtendFirstSegment(c: char, left: seq<string>, right: seq<string>)
    requires |left| >= 1
    ensures var rest := left + right;
      [[c] + rest[0]] + rest[1..] == ([[c] + left[0]] + left[1..]) + right
  {
    var rest := left + right;
    assert rest[0] == left[0];
    assert rest[1..] == left[1..] + right;
  }

  /** Drops empty strings from the end, as `split` with limit 0 does. */
  function DropTrailingEmpty(xs: seq<string>): (r: seq<string>)
    ensures |r| <= |xs|
    decreases |xs|
  {
    if xs != [] && xs[|xs| - 1] == [] then DropTrailingEmpty(xs[..|xs| - 1]) else xs
  }

  /** What is kept is a prefix ending in a non-empty string; what is dropped is empty. */
  lemma {:induction false} DropTrailingEmptySpec(xs: seq<string>)
    ensures var r := DropTrailingEmpty(xs);
      r == xs[..|r|]
      && (r != [] ==> r[|r| - 1] != [])
      && forall i :: |r| <= i < |xs| ==> xs[i] == []
    decreases |xs|
  {
    if xs != [] && xs[|xs| - 1] == [] {
      var front := xs[..|xs| - 1];
      DropTrailingEmptySpec(front);
      var r := DropTrailingEmpty(front);
      assert front[..|r|] == xs[..|r|];
    }
  }

  /** Empty strings appended at the end are dropped again. */
  lemma {:induction false} DropTrailingEmptyTail(xs: seq<string>, ys: seq<string>)
    requires forall j :: 0 <= j < |ys| ==> ys[j] == []
    ensures DropTrailingEmpty(xs + ys) == DropTrailingEmpty(xs)
    decreases |ys|
  {
    if ys != [] {
      var zs := xs + ys;
      assert zs[..|zs| - 1] == xs + ys[..|ys| - 1];
      DropTrailingEmptyTail(xs, ys[..|ys| - 1]);
    } else {
      assert xs + ys == xs;
    }
  }

  /**
   * `s.split(regex)` for a regex matching exactly the character `sep`:
   * a string without the separator splits into itself (even when empty);
   * otherwise trailing empty pieces are removed, leading ones kept.
   */
  function Split(s: string, sep: char): (r: seq<string>)
    ensures forall i :: 0 <= i < |r| ==> sep !in r[i]
    ensures sep in s && r != [] ==> r[|r| - 1] != []
  {
    SegmentsHaveNoSeparator(s, sep);
    DropTrailingEmptySpec(Segments(s, sep));
    if sep !in s then [s] else DropTrailingEmpty(Segments(s, sep))
  }

  /** The split is empty exactly when `s` is non-empty and made of separators only. */
  lemma SplitEmptyIff(s: string, sep: char)
    ensures Split(s, sep) == [] <==> s != [] && forall i :: 0 <= i < |s| ==> s[i] == sep
  {
    if sep !in s {
      if s != [] {
        assert s[0] != sep;
      }
    } else {
      var xs := Segments(s, sep);
      DropTrailingEmptySpec(xs);
      if exists i :: 0 <= i < |s| && s[i] != sep {
        var i :| 0 <= i < |s| && s[i] != sep;
        SegmentsKeepOtherCharacters(s, sep, i);
        var j :| 0 <= j < |xs| && s[i] in xs[j];
        assert xs[j] != [];
        assert j < |DropTrailingEmpty(xs)|;
      } else {
        SeparatorsOnlyGiveEmptySegments(s, sep);
        AllEmptyDropped(xs);
      }
    }
  }

  lemma {:induction false} SeparatorsOnlyGiveEmptySegments(s: string, sep: char)
    requires forall i :: 0 <= i < |s| ==> s[i] == sep
    ensures forall j :: 0 <= j < |Segments(s, sep)| ==> Segments(s, sep)[j] == []
    decreases |s|
  {
    if s != [] {
      SeparatorsOnlyGiveEmptySegments(s[1..], sep);
    }
  }

  lemma {:induction false} AllEmptyDropped(xs: seq<string>)
    requires forall j :: 0 <= j < |xs| ==> xs[j] == []
    ensures DropTrailingEmpty(xs) == []
    decreases |xs|
  {
    if xs != [] {
      AllEmptyDropped(xs[..|xs| - 1]);
    }
  }

  /** ASCII `toLowerCase`: upper-case letters move down by 32, everything else stays. */
  function LowerChar(c: char): (r: char)
    ensures 'A' <= c <= 'Z' ==> 'a' <= r <= 'z' && r as int == c as int + 32
    ensures !('A' <= c <= 'Z') ==> r == c
  {
    if 'A' <= c <= 'Z' then (c as int + 32) as char else c
  }

  function ToLower(s: string): (r: string)
    ensures |r| == |s|
    ensures forall i :: 0 <= i < |s| ==> r[i] == LowerChar(s[i])
  {
    seq(|s|, i requires 0 <= i < |s| => LowerChar(s[i]))
  }
}

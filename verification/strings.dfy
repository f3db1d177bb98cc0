/** Text operations the authenticator and the views rely on: the first
    occurrence of a character, Python's `str.split(sep)` for a one-character
    separator, and `sep.join(parts)`. */
module Strings {

  /** Index of the first `c` in `s`, or `|s|` when `s` has none. */
  function IndexOf(s: string, c: char): (i: nat)
    ensures i <= |s|
    ensures i < |s| ==> s[i] == c
    ensures i == |s| <==> c !in s
    ensures c !in s[..i]
  {
    if |s| == 0 then 0
    else if s[0] == c then 0
    else
      var j := IndexOf(s[1..], c);
      assert s[..j + 1] == [s[0]] + s[1..][..j];
      1 + j
  }

  /** The first occurrence is unique: any position holding `c` with no `c`
      before it is the one `IndexOf` finds. */
  lemma IndexOfUnique(s: string, c: char, i: nat)
    requires i <= |s|
    requires i < |s| ==> s[i] == c
    requires i == |s| ==> c !in s
    requires c !in s[..i]
    ensures IndexOf(s, c) == i
  {
  }

  /** `IndexOf` finds nothing inside a prefix free of `c`. */
  lemma IndexOfAtLeast(s: string, c: char, k: nat)
    requires k <= |s|
    requires c !in s[..k]
    ensures IndexOf(s, c) >= k
  {
  }

  /** Python's `s.split(sep)` for a one-character separator: the pieces
      between consecutive separators, empty pieces included. */
  function Split(s: string, sep: char): (parts: seq<string>)
    ensures |parts| >= 1
    ensures forall i :: 0 <= i < |parts| ==> sep !in parts[i]
    decreases |s|
  {
    var i := IndexOf(s, sep);
    if i == |s| then [s]
    else [s[..i]] + Split(s[i + 1..], sep)
  }

  /** Python's `sep.join(parts)`. */
  function Join(parts: seq<string>, sep: string): string
  {
    if |parts| == 0 then ""
    else if |parts| == 1 then parts[0]
    else parts[0] + sep + Join(parts[1..], sep)
  }

  /** The last element of a non-empty sequence (Python's `list.pop()` result). */
  function Last<T>(xs: seq<T>): T
    requires |xs| > 0
  {
    xs[|xs| - 1]
  }

  /** Splitting and joining back with the same separator gives the input back. */
  lemma {:induction false} JoinSplit(s: string, sep: char)
    ensures Join(Split(s, sep), [sep]) == s
    decreases |s|
  {
    var i := IndexOf(s, sep);
    if i < |s| {
      var rest := s[i + 1..];
      var tail := Split(rest, sep);
      var parts := [s[..i]] + tail;
      assert Split(s, sep) == parts;
      assert parts[1..] == tail;
      calc {
        Join(parts, [sep]);
        parts[0] + [sep] + Join(tail, [sep]);
        { JoinSplit(rest, sep); }
        s[..i] + [sep] + rest;
        s;
      }
    }
  }

  /** Joining separator-free pieces and splitting again gives the pieces back. */
  lemma {:induction false} SplitJoin(parts: seq<string>, sep: char)
    requires |parts| >= 1
    requires forall i :: 0 <= i < |parts| ==> sep !in parts[i]
    ensures Split(Join(parts, [sep]), sep) == parts
    decreases |parts|
  {
    var s := Join(parts, [sep]);
    if |parts| == 1 {
      IndexOfUnique(s, sep, |s|);
    } else {
      var rest := Join(parts[1..], [sep]);
      assert s == parts[0] + [sep] + rest;
      assert s[..|parts[0]|] == parts[0];
      IndexOfUnique(s, sep, |parts[0]|);
      assert s[|parts[0]| + 1..] == rest;
      SplitJoin(parts[1..], sep);
    }
  }

  /** `t` is the text after the last `sep` of `s`: a separator-free suffix
      that is all of `s` or directly preceded by `sep`. */
  ghost predicate IsTextAfterLast(s: string, t: string, sep: char) {
    && sep !in t
    && |t| <= |s|
    && s[|s| - |t|..] == t
    && (|t| == |s| || s[|s| - |t| - 1] == sep)
  }

  /** Putting a separator-ended prefix in front keeps the text after the last separator. */
  lemma TextAfterLastExtends(s: string, i: nat, t: string, sep: char)
    requires i < |s| && s[i] == sep
    requires IsTextAfterLast(s[i + 1..], t, sep)
    ensures IsTextAfterLast(s, t, sep)
  {
    var rest := s[i + 1..];
    assert |s| - |t| == i + 1 + (|rest| - |t|);
    assert s[|s| - |t|..] == rest[|rest| - |t|..];
    if |t| == |rest| {
      assert s[|s| - |t| - 1] == s[i];
    } else {
      assert s[|s| - |t| - 1] == rest[|rest| - |t| - 1];
    }
  }

  /** The last piece of `s.split(sep)` is the text after the last `sep`. */
  lemma {:induction false} LastPieceIsTextAfterLastSeparator(s: string, sep: char)
    ensures IsTextAfterLast(s, Last(Split(s, sep)), sep)
    decreases |s|
  {
    var i := IndexOf(s, sep);
    if i == |s| {
      assert Split(s, sep) == [s];
      assert s[0..] == s;
    } else {
      var rest := s[i + 1..];
      var tail := Split(rest, sep);
      assert Split(s, sep) == [s[..i]] + tail;
      assert Last(Split(s, sep)) == Last(tail);
      LastPieceIsTextAfterLastSeparator(rest, sep);
      TextAfterLastExtends(s, i, Last(tail), sep);
    }
  }

  /** Python's `str.isspace()` for one character: the ASCII controls tab to
      carriage return, the separators 0x1C-0x1F, space, and the Unicode
      spaces and line/paragraph separators. */
  predicate IsSpace(c: char) {
    var n := c as int;
    || 9 <= n <= 13 || 28 <= n <= 32 || n == 0x85 || n == 0xA0 || n == 0x1680
    || 0x2000 <= n <= 0x200A || n == 0x2028 || n == 0x2029 || n == 0x202F
    || n == 0x205F || n == 0x3000
  }

  /** `s.lstrip()`: `s` without its leading whitespace. */
  function StripLeft(s: string): (t: string)
    ensures |t| <= |s| && t == s[|s| - |t|..]
    ensures forall k :: 0 <= k < |s| - |t| ==> IsSpace(s[k])
    ensures t == "" || !IsSpace(t[0])
  {
    if |s| > 0 && IsSpace(s[0]) then StripLeft(s[1..]) else s
  }

  /** `s.rstrip()`: `s` without its trailing whitespace. */
  function StripRight(s: string): (t: string)
    ensures |t| <= |s| && t == s[..|t|]
    ensures forall k :: |t| <= k < |s| ==> IsSpace(s[k])
    ensures t == "" || !IsSpace(t[|t| - 1])
  {
    if |s| > 0 && IsSpace(s[|s| - 1]) then StripRight(s[..|s| - 1]) else s
  }

  /** `s.strip()`: the part of `s` between its leading and trailing
      whitespace, which itself neither starts nor ends with whitespace. */
  function Strip(s: string): (t: string)
    ensures t == "" || (!IsSpace(t[0]) && !IsSpace(t[|t| - 1]))
    ensures var i := |s| - |StripLeft(s)|;
      && i + |t| <= |s| && s[i..i + |t|] == t
      && (forall k :: 0 <= k < i ==> IsSpace(s[k]))
      && (forall k :: i + |t| <= k < |s| ==> IsSpace(s[k]))
  {
    var u := StripLeft(s);
    var t := StripRight(u);
    StripSuffixOfLeft(s, u, t);
    t
  }

  /** Trimming the end of what `lstrip` left keeps the slice and whitespace
      positions aligned with `s`. */
  lemma StripSuffixOfLeft(s: string, u: string, t: string)
    requires |u| <= |s| && u == s[|s| - |u|..]
    requires |t| <= |u| && t == u[..|t|]
    requires forall k :: |t| <= k < |u| ==> IsSpace(u[k])
    ensures var i := |s| - |u|; i + |t| <= |s| && s[i..i + |t|] == t
    ensures forall k :: |s| - |u| + |t| <= k < |s| ==> IsSpace(s[k])
  {
    var i := |s| - |u|;
    forall k | i + |t| <= k < |s|
      ensures IsSpace(s[k])
    {
      assert s[k] == u[k - i];
    }
  }

  /** Leading whitespace up to a non-space position `i` is exactly what
      `lstrip` removes. */
  lemma {:induction false} StripLeftAt(s: string, i: nat)
    requires i <= |s|
    requires forall k :: 0 <= k < i ==> IsSpace(s[k])
    requires i < |s| ==> !IsSpace(s[i])
    ensures StripLeft(s) == s[i..]
    decreases i
  {
    if i > 0 {
      StripLeftAt(s[1..], i - 1);
      assert s[1..][i - 1..] == s[i..];
    }
  }

  /** Trailing whitespace from a position `j` that follows a non-space is
      exactly what `rstrip` removes. */
  lemma {:induction false} StripRightAt(s: string, j: nat)
    requires j <= |s|
    requires forall k :: j <= k < |s| ==> IsSpace(s[k])
    requires j > 0 ==> !IsSpace(s[j - 1])
    ensures StripRight(s) == s[..j]
    decreases |s| - j
  {
    if j < |s| {
      var s' := s[..|s| - 1];
      StripRightAt(s', j);
      assert s'[..j] == s[..j];
    }
  }

  /** A string of whitespace only strips to the empty string. */
  lemma StripAllSpace(s: string)
    requires forall k :: 0 <= k < |s| ==> IsSpace(s[k])
    ensures Strip(s) == ""
  {
    StripLeftAt(s, |s|);
  }

  /** `rstrip` of the suffix from `i` ends at `j` when only whitespace follows `j`. */
  lemma StripRightOfSuffix(s: string, i: nat, j: nat)
    requires i < j <= |s|
    requires forall k :: j <= k < |s| ==> IsSpace(s[k])
    requires !IsSpace(s[j - 1])
    ensures StripRight(s[i..]) == s[i..j]
  {
    var rest := s[i..];
    forall k | j - i <= k < |rest|
      ensures IsSpace(rest[k])
    {
      assert rest[k] == s[k + i];
    }
    StripRightAt(rest, j - i);
    assert rest[..j - i] == s[i..j];
  }

  /** The characterisation of `strip` determines it: a slice `s[i..j]` with
      only whitespace around it, and no whitespace at its ends, is `Strip(s)`. */
  lemma StripUnique(s: string, i: nat, j: nat)
    requires i <= j <= |s|
    requires forall k :: 0 <= k < i ==> IsSpace(s[k])
    requires forall k :: j <= k < |s| ==> IsSpace(s[k])
    requires i < j ==> !IsSpace(s[i]) && !IsSpace(s[j - 1])
    ensures Strip(s) == s[i..j]
  {
    if i == j {
      StripAllSpace(s);
    } else {
      StripLeftAt(s, i);
      StripRightOfSuffix(s, i, j);
    }
  }

  /** Stripping twice is stripping once. */
  lemma StripIdempotent(s: string)
    ensures Strip(Strip(s)) == Strip(s)
  {
    var t := Strip(s);
    StripUnique(t, 0, |t|);
  }
}

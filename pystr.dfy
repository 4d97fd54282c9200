/** The few Python string built-ins the chunker relies on, with their Python 3 semantics:
    `str.isspace` per character, `str.strip()` with no argument, `str.split(sep)` with a
    non-empty separator, `sep.join(parts)`, and the slice `s[start:]` with a possibly
    negative start. Python strings are sequences of code points; here a `string` is a
    `seq<char>` and `len` is `|s|`. */
module PyStr {

  function Min(a: int, b: int): int { if a <= b then a else b }

  /** The characters Python 3 treats as whitespace (`str.isspace`), and hence the ones
      `str.strip()` removes. */
  predicate IsSpace(c: char) {
    var n := c as int;
    (0x09 <= n <= 0x0D) || (0x1C <= n <= 0x20) || n == 0x85 || n == 0xA0 || n == 0x1680
    || (0x2000 <= n <= 0x200A) || n == 0x2028 || n == 0x2029 || n == 0x202F
    || n == 0x205F || n == 0x3000
  }

  predicate AllSpace(s: string) {
    forall i :: 0 <= i < |s| ==> IsSpace(s[i])
  }

  /** `s.lstrip()`: drop leading whitespace. */
  function StripStart(s: string): string
    decreases |s|
  {
    if |s| > 0 && IsSpace(s[0]) then StripStart(s[1..]) else s
  }

  /** `s.rstrip()`: drop trailing whitespace. */
  function StripEnd(s: string): string
    decreases |s|
  {
    if |s| > 0 && IsSpace(s[|s| - 1]) then StripEnd(s[..|s| - 1]) else s
  }

  /** `s.strip()`. */
  function Strip(s: string): string {
    StripEnd(StripStart(s))
  }

  /** What `lstrip` leaves is a suffix that does not start with whitespace, and all it cut off
      is whitespace. */
  lemma {:induction false} StripStartSpec(s: string)
    ensures var r := StripStart(s);
      |r| <= |s| && r == s[|s| - |r|..] && AllSpace(s[..|s| - |r|]) && (r == [] || !IsSpace(r[0]))
    decreases |s|
  {
    if |s| > 0 && IsSpace(s[0]) {
      StripStartSpec(s[1..]);
      var r := StripStart(s[1..]);
      assert s[..|s| - |r|] == [s[0]] + s[1..][..|s| - 1 - |r|];
    }
  }

  /** What `rstrip` leaves is a prefix that does not end with whitespace, and all it cut off
      is whitespace. */
  lemma {:induction false} StripEndSpec(s: string)
    ensures var r := StripEnd(s);
      |r| <= |s| && r == s[..|r|] && AllSpace(s[|r|..]) && (r == [] || !IsSpace(r[|r| - 1]))
    decreases |s|
  {
    if |s| > 0 && IsSpace(s[|s| - 1]) {
      StripEndSpec(s[..|s| - 1]);
      var r := StripEnd(s[..|s| - 1]);
      assert s[|r|..] == s[..|s| - 1][|r|..] + [s[|s| - 1]];
    }
  }

  /** `s.strip()` is the infix of `s` at offset `i` (the length of the leading whitespace)
      that starts and ends with a non-whitespace character, everything cut off on either side
      being whitespace. */
  lemma StripSpec(s: string)
    ensures |StripStart(s)| <= |s|
    ensures var r := Strip(s); var i := |s| - |StripStart(s)|;
      i + |r| <= |s| && r == s[i..i + |r|]
      && AllSpace(s[..i]) && AllSpace(s[i + |r|..])
      && (r == [] || (!IsSpace(r[0]) && !IsSpace(r[|r| - 1])))
  {
    var t := StripStart(s);
    var r := StripEnd(t);
    StripStartSpec(s);
    StripEndSpec(t);
    var i := |s| - |t|;
    assert s[i + |r|..] == t[|r|..];
  }

  /** `s.strip()` is empty exactly when `s` is all whitespace. */
  lemma StripEmptyIffAllSpace(s: string)
    ensures Strip(s) == [] <==> AllSpace(s)
  {
    StripSpec(s);
    var i := |s| - |StripStart(s)|;
    if Strip(s) == [] {
      assert s == s[..i] + s[i..];
    } else {
      assert s[i] == Strip(s)[0];
    }
  }

  /** The slice `s[start:]`: a negative `start` counts from the end and is clamped at 0, a
      `start` past the end gives the empty string. In particular `s[-0:]` is all of `s`. */
  function SliceFrom(s: string, start: int): (r: string)
    ensures |r| <= |s| && r == s[|s| - |r|..]
    ensures start < 0 ==> |r| == Min(-start, |s|)
    ensures 0 <= start ==> |r| == |s| - Min(start, |s|)
  {
    var i :=
      if start < 0 then (if start + |s| < 0 then 0 else start + |s|)
      else (if start > |s| then |s| else start);
    s[i..]
  }

  /** `sep` occurs in `s` at position `i`. */
  predicate OccursAt(s: string, sep: string, i: int) {
    0 <= i && i + |sep| <= |s| && s[i..i + |sep|] == sep
  }

  /** The leftmost position at or after `from` where `sep` occurs in `s`, or `|s|` when there
      is none (`s.find(sep, from)`, with `|s|` in place of `-1`). */
  function Find(s: string, sep: string, from: nat): (i: nat)
    requires sep != [] && from <= |s|
    ensures from <= i <= |s| && (i < |s| ==> i + |sep| <= |s|)
    decreases |s| - from
  {
    if from + |sep| > |s| then |s|
    else if s[from..from + |sep|] == sep then from
    else Find(s, sep, from + 1)
  }

  /** `Find` returns the leftmost occurrence: `sep` occurs nowhere before it and, unless it is
      `|s|`, occurs at it. */
  lemma {:induction false} FindSpec(s: string, sep: string, from: nat)
    requires sep != [] && from <= |s|
    ensures var i := Find(s, sep, from);
      (forall j :: from <= j < i ==> !OccursAt(s, sep, j)) && (i < |s| ==> OccursAt(s, sep, i))
    decreases |s| - from
  {
    if from + |sep| > |s| {
    } else if s[from..from + |sep|] != sep {
      FindSpec(s, sep, from + 1);
    }
  }

  /** `s.split(sep)` for a non-empty separator: cut `s` at the leftmost occurrence of `sep`
      and split what follows it the same way. The result always has at least one part. */
  function Split(s: string, sep: string): (r: seq<string>)
    requires sep != []
    ensures |r| > 0
    decreases |s|
  {
    var i := Find(s, sep, 0);
    if i == |s| then [s] else [s[..i]] + Split(s[i + |sep|..], sep)
  }

  /** `sep.join(parts)` for a non-empty list of parts. */
  function Join(parts: seq<string>, sep: string): string
    requires |parts| > 0
    decreases |parts|
  {
    if |parts| == 1 then parts[0] else parts[0] + sep + Join(parts[1..], sep)
  }

  /** Splitting loses nothing: joining the parts back with the separator restores `s`. */
  lemma {:induction false} JoinSplit(s: string, sep: string)
    requires sep != []
    ensures Join(Split(s, sep), sep) == s
    decreases |s|
  {
    var i := Find(s, sep, 0);
    if i < |s| {
      FindSpec(s, sep, 0);
      var after := s[i + |sep|..];
      var rest := Split(after, sep);
      JoinSplit(after, sep);
      assert Split(s, sep) == [s[..i]] + rest;
      assert ([s[..i]] + rest)[1..] == rest;
      assert s == s[..i] + sep + after;
    }
  }

  /** Python's cut rule: the first part contains no occurrence of `sep`, and is all of `s` when
      `sep` does not occur; otherwise `sep` follows it and the remaining parts are the split of
      what comes after. */
  lemma SplitCutsAtLeftmost(s: string, sep: string)
    requires sep != []
    ensures var r := Split(s, sep); var n := |r[0]|;
      n <= |s| && r[0] == s[..n]
      && (forall i :: 0 <= i < n ==> !OccursAt(s, sep, i))
      && (|r| == 1 <==> forall i :: 0 <= i < |s| ==> !OccursAt(s, sep, i))
      && (|r| == 1 ==> n == |s|)
      && (|r| > 1 ==> OccursAt(s, sep, n) && r[1..] == Split(s[n + |sep|..], sep))
  {
    FindSpec(s, sep, 0);
    var i := Find(s, sep, 0);
    var r := Split(s, sep);
    if i < |s| {
      assert r[1..] == Split(s[i + |sep|..], sep);
    }
  }
}

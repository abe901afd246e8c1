/**
 The few JavaScript string operations the backend relies on, written as pure
 functions over `seq<char>`: `indexOf`, `lastIndexOf`, `slice` and
 `Array.prototype.join`. `Split` is not used by the backend; it is the inverse
 of `Join` and serves as its partner in the round-trip lemmas.
 */
module JsString {

  /** `s.indexOf(c)`: the position of the first `c` in `s`, or -1 when there is none. */
  function IndexOf(s: string, c: char): (r: int)
    ensures -1 <= r < |s|
    ensures 0 <= r ==> s[r] == c
    ensures forall i :: 0 <= i < (if r == -1 then |s| else r) ==> s[i] != c
  {
    if |s| == 0 then -1
    else if s[0] == c then 0
    else
      var k := IndexOf(s[1..], c);
      if k == -1 then -1 else k + 1
  }

  /** `s.lastIndexOf(c)`: the position of the last `c` in `s`, or -1 when there is none. */
  function LastIndexOf(s: string, c: char): (r: int)
    ensures -1 <= r < |s|
    ensures 0 <= r ==> s[r] == c
    ensures forall i :: r < i < |s| ==> s[i] != c
  {
    if |s| == 0 then -1
    else if s[|s| - 1] == c then |s| - 1
    else LastIndexOf(s[..|s| - 1], c)
  }

  /** Any position holding `c` with no earlier `c` is the one `IndexOf` finds. */
  lemma IndexOfIsFirst(s: string, c: char, i: nat)
    requires i < |s| && s[i] == c
    requires forall j :: 0 <= j < i ==> s[j] != c
    ensures IndexOf(s, c) == i
  {
    assert s[i] in s;
  }

  /** Any position holding `c` with no later `c` is the one `LastIndexOf` finds. */
  lemma LastIndexOfIsLast(s: string, c: char, i: nat)
    requires i < |s| && s[i] == c
    requires forall j :: i < j < |s| ==> s[j] != c
    ensures LastIndexOf(s, c) == i
  {
    assert s[i] in s;
  }

  /**
   How `slice` turns one argument into a position: a negative argument counts
   back from the end, and the result is clamped to `[0, len]`.
   */
  function RelativeIndex(k: int, len: nat): (r: nat)
    ensures r <= len
  {
    if k < 0 then (if len + k < 0 then 0 else len + k)
    else if k < len then k
    else len
  }

  /**
   `s.slice(start, end)`: the characters from the resolved start up to, not
   including, the resolved end; the empty string when the resolved end does
   not lie after the resolved start.
   */
  function Slice(s: string, start: int, end: int): (r: string)
    ensures |r| <= |s|
    ensures |r| == (if RelativeIndex(start, |s|) < RelativeIndex(end, |s|)
                    then RelativeIndex(end, |s|) - RelativeIndex(start, |s|) else 0)
  {
    var from := RelativeIndex(start, |s|);
    var to := RelativeIndex(end, |s|);
    if to <= from then [] else s[from..to]
  }

  /** The `i`-th character of a slice is the character `i` places after the resolved start. */
  lemma SliceChars(s: string, start: int, end: int)
    ensures forall i :: 0 <= i < |Slice(s, start, end)| ==>
      Slice(s, start, end)[i] == s[RelativeIndex(start, |s|) + i]
  {
  }

  /**
   With non-negative bounds inside the string, `slice` is the plain substring;
   with an end that does not lie after the start, it is empty.
   */
  lemma SliceInRange(s: string, i: int, j: int)
    requires 0 <= i && 0 <= j
    ensures i < j <= |s| ==> Slice(s, i, j) == s[i..j]
    ensures j <= i ==> Slice(s, i, j) == []
  {
    if i < j <= |s| {
      var r := Slice(s, i, j);
      SliceChars(s, i, j);
      forall m | 0 <= m < |r|
        ensures r[m] == s[i..j][m]
      {
      }
    }
  }

  /** A negative start counts back from the end: `s.slice(-n)` is the last `n` characters. */
  lemma SliceFromEnd(s: string, n: int)
    requires 0 < n <= |s|
    ensures Slice(s, -n, |s|) == s[|s| - n..]
  {
    var r := Slice(s, -n, |s|);
    SliceChars(s, -n, |s|);
    forall m | 0 <= m < n
      ensures r[m] == s[|s| - n..][m]
    {
    }
  }

  /** Bounds past either end of the string behave like the end itself. */
  lemma SliceClamps(s: string, start: int, end: int)
    ensures |s| <= end ==> Slice(s, start, end) == Slice(s, start, |s|)
    ensures start <= -|s| ==> Slice(s, start, end) == Slice(s, 0, end)
  {
  }

  /** `parts.join(sep)` for an array of strings. */
  function Join(parts: seq<string>, sep: string): string
  {
    if |parts| == 0 then []
    else if |parts| == 1 then parts[0]
    else parts[0] + sep + Join(parts[1..], sep)
  }

  /** `s.split(c)` for a one-character separator: the pieces between separators, scanned one character at a time. */
  function Split(s: string, c: char): (r: seq<string>)
    ensures |r| >= 1
    ensures forall k :: 0 <= k < |r| ==> c !in r[k]
  {
    if |s| == 0 then [[]]
    else
      var rest := Split(s[1..], c);
      if s[0] == c then [[]] + rest
      else
        assert forall k :: 1 <= k < |rest| ==> rest[1..][k - 1] == rest[k];
        [[s[0]] + rest[0]] + rest[1..]
  }

  /** Where the `k`-th part starts in `Join(parts, sep)`. */
  function Offset(parts: seq<string>, sep: string, k: nat): nat
    requires k <= |parts|
  {
    if k == 0 then 0 else Offset(parts, sep, k - 1) + |parts[k - 1]| + |sep|
  }

  lemma {:induction false} OffsetOfTail(parts: seq<string>, sep: string, k: nat)
    requires 1 <= k <= |parts|
    ensures Offset(parts, sep, k) == |parts[0]| + |sep| + Offset(parts[1..], sep, k - 1)
  {
    if k > 1 {
      OffsetOfTail(parts, sep, k - 1);
      assert parts[1..][k - 2] == parts[k - 1];
    }
  }

  /** A joined string is as long as its parts plus one separator between each pair. */
  lemma {:induction false} JoinLength(parts: seq<string>, sep: string)
    requires |parts| >= 1
    ensures |Join(parts, sep)| + |sep| == Offset(parts, sep, |parts|)
  {
    if |parts| > 1 {
      JoinLength(parts[1..], sep);
      OffsetOfTail(parts, sep, |parts|);
    }
  }

  /** A slice that lies wholly inside the second half of a concatenation. */
  lemma SliceOfSuffix(a: string, b: string, i: nat, j: nat)
    requires i <= j <= |b|
    ensures (a + b)[|a| + i..|a| + j] == b[i..j]
  {
    assert (a + b)[|a|..] == b;
  }

  /** Every part appears unchanged in the joined string, at its offset. */
  lemma {:induction false} JoinEmbedsParts(parts: seq<string>, sep: string, k: nat)
    requires k < |parts|
    ensures Offset(parts, sep, k) + |parts[k]| <= |Join(parts, sep)|
    ensures Join(parts, sep)[Offset(parts, sep, k)..Offset(parts, sep, k) + |parts[k]|] == parts[k]
  {
    if |parts| == 1 {
    } else if k == 0 {
      assert Join(parts, sep) == parts[0] + (sep + Join(parts[1..], sep));
    } else {
      var tail := Join(parts[1..], sep);
      JoinEmbedsParts(parts[1..], sep, k - 1);
      OffsetOfTail(parts, sep, k);
      assert parts[1..][k - 1] == parts[k];
      var o := Offset(parts[1..], sep, k - 1);
      assert Join(parts, sep) == (parts[0] + sep) + tail;
      SliceOfSuffix(parts[0] + sep, tail, o, o + |parts[k]|);
    }
  }

  /** Consecutive parts of a joined string are exactly one separator apart, so they keep input order. */
  lemma {:induction false} JoinSeparatesParts(parts: seq<string>, sep: string, k: nat)
    requires k + 1 < |parts|
    ensures Offset(parts, sep, k + 1) <= |Join(parts, sep)|
    ensures Join(parts, sep)[Offset(parts, sep, k) + |parts[k]|..Offset(parts, sep, k + 1)] == sep
  {
    var tail := Join(parts[1..], sep);
    if k == 0 {
      assert Join(parts, sep) == (parts[0] + sep) + tail;
      assert (parts[0] + sep)[|parts[0]|..] == sep;
    } else {
      JoinSeparatesParts(parts[1..], sep, k - 1);
      OffsetOfTail(parts, sep, k);
      OffsetOfTail(parts, sep, k + 1);
      assert parts[1..][k - 1] == parts[k];
      var o := Offset(parts[1..], sep, k - 1);
      assert Join(parts, sep) == (parts[0] + sep) + tail;
      SliceOfSuffix(parts[0] + sep, tail, o + |parts[k]|, Offset(parts[1..], sep, k));
    }
  }

  /** Joining a part in front of at least one other adds it and one separator. */
  lemma JoinCons(head: string, rest: seq<string>, sep: string)
    requires |rest| >= 1
    ensures Join([head] + rest, sep) == head + sep + Join(rest, sep)
  {
    assert ([head] + rest)[1..] == rest;
  }

  /** Putting a character in front of the first part puts it in front of the joined string. */
  lemma JoinPrepend(x: char, parts: seq<string>, sep: string)
    requires |parts| >= 1
    ensures Join([[x] + parts[0]] + parts[1..], sep) == [x] + Join(parts, sep)
  {
    if |parts| > 1 {
      JoinCons([x] + parts[0], parts[1..], sep);
    }
  }

  /** A string without the separator splits into itself alone. */
  lemma {:induction false} SplitWithoutSeparator(p: string, c: char)
    requires c !in p
    ensures Split(p, c) == [p]
  {
    if |p| > 0 {
      assert c !in p[1..] by { assert forall i :: 0 <= i < |p| - 1 ==> p[1..][i] == p[i + 1]; }
      SplitWithoutSeparator(p[1..], c);
      assert [p[0]] + p[1..] == p;
    }
  }

  /** The first separator after a separator-free piece ends that piece. */
  lemma {:induction false} SplitAfterPiece(p: string, c: char, b: string)
    requires c !in p
    ensures Split(p + [c] + b, c) == [p] + Split(b, c)
  {
    var s := p + [c] + b;
    if |p| == 0 {
      assert s[0] == c && s[1..] == b;
    } else {
      assert c !in p[1..] by { assert forall i :: 0 <= i < |p| - 1 ==> p[1..][i] == p[i + 1]; }
      SplitAfterPiece(p[1..], c, b);
      assert s[0] == p[0] && s[0] != c;
      assert s[1..] == p[1..] + [c] + b;
      assert [p[0]] + p[1..] == p;
    }
  }

  /** Splitting a joined string gives the parts back, provided none contains the separator. */
  lemma {:induction false} SplitJoin(parts: seq<string>, c: char)
    requires |parts| >= 1
    requires forall k :: 0 <= k < |parts| ==> c !in parts[k]
    ensures Split(Join(parts, [c]), c) == parts
  {
    if |parts| == 1 {
      SplitWithoutSeparator(parts[0], c);
    } else {
      assert Join(parts, [c]) == parts[0] + [c] + Join(parts[1..], [c]);
      SplitAfterPiece(parts[0], c, Join(parts[1..], [c]));
      SplitJoin(parts[1..], c);
      assert [parts[0]] + parts[1..] == parts;
    }
  }

  /** Joining the pieces of a split string gives the string back. */
  lemma {:induction false} JoinSplit(s: string, c: char)
    ensures Join(Split(s, c), [c]) == s
  {
    if |s| > 0 {
      var rest := Split(s[1..], c);
      JoinSplit(s[1..], c);
      if s[0] == c {
        JoinCons([], rest, [c]);
      } else {
        JoinPrepend(s[0], rest, [c]);
      }
      assert [s[0]] + s[1..] == s;
    }
  }
}

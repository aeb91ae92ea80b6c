/** String built-ins the traits rely on, with PHP's semantics: `strpos` with a
    one-character needle, `explode`, `implode`, `trim`/`rtrim` with a
    one-character list, and `strtolower` (ASCII letters only, as in PHP 8.2+). */
module Text {

  /** Position of the first `c` in `s` (`strpos($s, $c)` when it is not false). */
  function FirstIndex(s: string, c: char): (i: nat)
    requires c in s
    ensures i < |s| && s[i] == c
    ensures c !in s[..i]
  {
    if s[0] == c then 0
    else
      var j := FirstIndex(s[1..], c);
      assert s[..j + 1] == [s[0]] + s[1..][..j];
      j + 1
  }

  /** `explode($sep, $s)`: the pieces between the separators, empty pieces included. */
  function Split(s: string, sep: char): (parts: seq<string>)
    ensures |parts| >= 1
    ensures forall i :: 0 <= i < |parts| ==> sep !in parts[i]
    ensures sep !in s ==> parts == [s]
    ensures sep in s ==> |parts| >= 2 && parts[0] == s[..FirstIndex(s, sep)]
    ensures parts[0] <= s
    decreases |s|
  {
    if sep in s then
      var i := FirstIndex(s, sep);
      [s[..i]] + Split(s[i + 1..], sep)
    else
      [s]
  }

  /** With a separator present there are at least two pieces, and the first
      two with the separator between them start the input. */
  lemma SplitSecond(s: string, sep: char)
    requires sep in s
    ensures |Split(s, sep)| >= 2
    ensures Split(s, sep)[0] + [sep] + Split(s, sep)[1] <= s
  {
    var i := FirstIndex(s, sep);
    SplitUnfold(s, sep);
    PrefixPieces(s, sep, Split(s, sep), i, Split(s[i + 1..], sep));
  }

  /** The first piece of `explode` runs up to the first separator, or to the end. */
  lemma FirstPieceEnds(s: string, sep: char)
    ensures |Split(s, sep)[0]| == |s| || s[|Split(s, sep)[0]|] == sep
  {
  }

  /** With a separator present, the second piece runs up to the second
      separator, or to the end. */
  lemma SplitSecondEnds(s: string, sep: char)
    requires sep in s
    ensures |Split(s, sep)| >= 2
    ensures var n := |Split(s, sep)[0]| + 1 + |Split(s, sep)[1]|;
      n <= |s| && (n == |s| || s[n] == sep)
  {
    var i := FirstIndex(s, sep);
    var t := s[i + 1..];
    SplitUnfold(s, sep);
    FirstPieceEnds(t, sep);
    PieceAfter(s, i, t, Split(s, sep), Split(t, sep)[0], sep);
  }

  lemma PieceAfter<T>(s: seq<T>, i: nat, t: seq<T>, parts: seq<seq<T>>, p: seq<T>, sep: T)
    requires i < |s| && t == s[i + 1..]
    requires |parts| >= 2 && |parts[0]| == i && parts[1] == p
    requires |p| <= |t| && (|p| == |t| || t[|p|] == sep)
    ensures var n := |parts[0]| + 1 + |parts[1]|;
      n <= |s| && (n == |s| || s[n] == sep)
  {
  }

  lemma SplitUnfold(s: string, sep: char)
    requires sep in s
    ensures var i := FirstIndex(s, sep);
      Split(s, sep) == [s[..i]] + Split(s[i + 1..], sep)
  {
  }

  lemma PrefixPieces<T>(s: seq<T>, sep: T, parts: seq<seq<T>>, i: nat, tail: seq<seq<T>>)
    requires i < |s| && s[i] == sep
    requires |tail| >= 1 && tail[0] <= s[i + 1..]
    requires parts == [s[..i]] + tail
    ensures |parts| >= 2 && parts[0] + [sep] + parts[1] <= s
  {
    var head := s[..i] + [sep];
    assert s == head + s[i + 1..];
    assert head + tail[0] == s[..|head| + |tail[0]|];
  }

  /** `s` ends with `t`. */
  predicate EndsWith(s: string, t: string)
  {
    |t| <= |s| && s[|s| - |t|..] == t
  }

  /** `implode($sep, $parts)`. */
  function Join(parts: seq<string>, sep: char): (r: string)
    ensures |parts| == 0 ==> r == ""
    ensures |parts| >= 1 ==> parts[0] <= r
    ensures |parts| >= 2 ==> |parts[0]| < |r| && r[|parts[0]|] == sep
    ensures |parts| == 1 ==> r == parts[0]
  {
    if |parts| == 0 then ""
    else if |parts| == 1 then parts[0]
    else parts[0] + [sep] + Join(parts[1..], sep)
  }

  /** Joining the pieces of `explode` with the same separator gives back the input. */
  lemma {:induction false} JoinSplit(s: string, sep: char)
    ensures Join(Split(s, sep), sep) == s
    decreases |s|
  {
    if sep in s {
      var i := FirstIndex(s, sep);
      var rest := s[i + 1..];
      JoinSplit(rest, sep);
      var parts := Split(s, sep);
      assert parts == [s[..i]] + Split(rest, sep);
      assert parts[1..] == Split(rest, sep);
      assert s == s[..i] + [sep] + rest;
    }
  }

  /** Conversely, `explode` recovers any non-empty list of separator-free pieces. */
  lemma {:induction false} SplitJoin(parts: seq<string>, sep: char)
    requires |parts| >= 1
    requires forall i :: 0 <= i < |parts| ==> sep !in parts[i]
    ensures Split(Join(parts, sep), sep) == parts
    decreases |parts|
  {
    if |parts| > 1 {
      var s := Join(parts, sep);
      var rest := Join(parts[1..], sep);
      assert s == parts[0] + [sep] + rest;
      assert s[|parts[0]|] == sep;
      assert s[..|parts[0]|] == parts[0];
      var i := FirstIndex(s, sep);
      assert i == |parts[0]|;
      assert s[i + 1..] == rest;
      SplitJoin(parts[1..], sep);
    }
  }

  /** Length of the run of `c` that `s` starts with. */
  function LeadingRun(s: string, c: char): (n: nat)
    ensures n <= |s|
    ensures forall i :: 0 <= i < n ==> s[i] == c
    ensures n < |s| ==> s[n] != c
    decreases |s|
  {
    if |s| > 0 && s[0] == c then
      var n := 1 + LeadingRun(s[1..], c);
      assert forall i :: 1 <= i < |s| ==> s[i] == s[1..][i - 1];
      n
    else 0
  }

  /** Length of the run of `c` that `s` ends with. */
  function TrailingRun(s: string, c: char): (n: nat)
    ensures n <= |s|
    ensures forall i :: |s| - n <= i < |s| ==> s[i] == c
    ensures n < |s| ==> s[|s| - 1 - n] != c
    decreases |s|
  {
    if |s| > 0 && s[|s| - 1] == c then 1 + TrailingRun(s[..|s| - 1], c) else 0
  }

  /** `rtrim($s, $c)`: drops the trailing run of `c`. */
  function TrimRight(s: string, c: char): (r: string)
    ensures |r| <= |s| && r == s[..|r|]
    ensures forall i :: |r| <= i < |s| ==> s[i] == c
    ensures |r| > 0 ==> r[|r| - 1] != c
  {
    s[..|s| - TrailingRun(s, c)]
  }

  /** `r` is the slice of `s` from `k`, and everything of `s` around it is `c`. */
  predicate MiddleOf(s: string, c: char, k: nat, r: string)
  {
    && k + |r| <= |s|
    && r == s[k..k + |r|]
    && (forall i :: 0 <= i < k ==> s[i] == c)
    && (forall i :: k + |r| <= i < |s| ==> s[i] == c)
  }

  /** `trim($s, $c)`: the middle slice left once the leading and the trailing
      runs of `c` are dropped; it neither starts nor ends with `c`. */
  function Trim(s: string, c: char): (r: string)
    ensures |r| <= |s|
    ensures |r| == 0 || (r[0] != c && r[|r| - 1] != c)
    ensures MiddleOf(s, c, LeadingRun(s, c), r)
  {
    var a := LeadingRun(s, c);
    if a == |s| then []
    else
      var b := TrailingRun(s, c);
      Between(s, c, a, b);
      s[a..|s| - b]
  }

  /** Between a leading run of `a` and a trailing run of `b` copies of `c`,
      where the leading run stops before the end, lies the middle of `s`. */
  lemma Between(s: string, c: char, a: nat, b: nat)
    requires a < |s| && s[a] != c
    requires forall i :: 0 <= i < a ==> s[i] == c
    requires b <= |s| && forall i :: |s| - b <= i < |s| ==> s[i] == c
    requires b < |s| ==> s[|s| - 1 - b] != c
    ensures a + b < |s|
    ensures var r := s[a..|s| - b];
      && r[0] != c && r[|r| - 1] != c
      && MiddleOf(s, c, a, r)
  {
  }

  /** Trimming `c` from a word wrapped in `c` gives the word back. */
  lemma TrimWrapped(x: string, c: char)
    requires |x| > 0 && x[0] != c && x[|x| - 1] != c
    ensures Trim([c] + x, c) == x
    ensures Trim([c] + x + [c], c) == x
  {
    assert ([c] + x)[1..] == x;
    assert ([c] + x + [c])[1..] == x + [c];
    assert (x + [c])[..|x|] == x;
  }

  /** `rtrim` of a word followed by one `c`. */
  lemma TrimRightOne(x: string, c: char)
    requires |x| > 0 && x[|x| - 1] != c
    ensures TrimRight(x + [c], c) == x
  {
    assert (x + [c])[..|x|] == x;
  }

  predicate IsUpper(c: char) { 'A' <= c <= 'Z' }

  function LowerChar(c: char): char
  {
    if IsUpper(c) then (c as int + 32) as char else c
  }

  /** `strtolower($s)` on ASCII letters; every other character is kept. */
  function Lower(s: string): (r: string)
    ensures |r| == |s|
    ensures forall i :: 0 <= i < |s| ==>
      if IsUpper(s[i]) then r[i] as int == s[i] as int + 32 else r[i] == s[i]
    ensures forall i :: 0 <= i < |r| ==> !IsUpper(r[i])
  {
    seq(|s|, i requires 0 <= i < |s| => LowerChar(s[i]))
  }

  /** Lowering twice is lowering once. */
  lemma LowerIdempotent(s: string)
    ensures Lower(Lower(s)) == Lower(s)
  {
    assert forall i :: 0 <= i < |s| ==> LowerChar(LowerChar(s[i])) == LowerChar(s[i]);
  }
}

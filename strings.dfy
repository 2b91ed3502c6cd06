/**
 * The string operations the writer's templates are built from: PHP's `trim`, the
 * re-indentation of line breaks done by the newer revision's description formatter,
 * and the newline flattening of the older revision's method descriptions.
 */
module Strings {

  /** `n` copies of `c` (PHP's `str_repeat` on a one-character string). */
  function Repeat(c: char, n: nat): (r: string)
    ensures |r| == n
    ensures forall i :: 0 <= i < n ==> r[i] == c
  {
    if n == 0 then "" else [c] + Repeat(c, n - 1)
  }

  function Tabs(n: nat): string
  {
    Repeat('\t', n)
  }

  predicate StartsWith(s: string, p: string)
  {
    |p| <= |s| && s[..|p|] == p
  }

  lemma PrefixConcat(a: string, b: string)
    ensures StartsWith(a + b, a)
  {
    assert (a + b)[..|a|] == a;
  }

  lemma Associate(a: string, b: string, c: string)
    ensures a + b + c == a + (b + c)
  {
  }

  lemma Regroup(a: string, b: string, c: string, d: string)
    ensures a + b + c + d == a + (b + c + d)
  {
  }

  lemma StartsWithAppend(a: string, b: string, p: string)
    requires StartsWith(a, p)
    ensures StartsWith(a + b, p)
  {
    assert (a + b)[..|p|] == a[..|p|];
  }

  predicate IsBreak(c: char)
  {
    c == '\n' || c == '\r'
  }

  /** The characters PHP's `trim` strips by default. */
  predicate IsTrimmed(c: char)
  {
    c == ' ' || c == '\t' || c == '\n' || c == '\r' || c == '\0' || c as int == 11
  }

  predicate AllTrimmed(s: string)
  {
    forall i :: 0 <= i < |s| ==> IsTrimmed(s[i])
  }

  /** The number of leading characters `trim` strips. */
  function LeadLen(s: string): (k: nat)
    ensures k <= |s| && AllTrimmed(s[..k])
    ensures k == |s| || !IsTrimmed(s[k])
  {
    if |s| > 0 && IsTrimmed(s[0]) then
      var k := LeadLen(s[1..]);
      assert s[..k + 1] == [s[0]] + s[1..][..k];
      k + 1
    else 0
  }

  /** The length of `s` once its trailing whitespace is stripped. */
  function KeepLen(s: string): (k: nat)
    ensures k <= |s| && AllTrimmed(s[k..])
    ensures k == 0 || !IsTrimmed(s[k - 1])
  {
    if |s| > 0 && IsTrimmed(s[|s| - 1]) then
      var k := KeepLen(s[..|s| - 1]);
      assert s[k..] == s[..|s| - 1][k..] + [s[|s| - 1]];
      k
    else |s|
  }

  /** PHP's `trim`: the input less its leading and trailing whitespace. */
  function Trim(s: string): (r: string)
    ensures r == [] || (!IsTrimmed(r[0]) && !IsTrimmed(r[|r| - 1]))
    ensures exists a :: 0 <= a <= |s| - |r| && r == s[a..a + |r|]
                        && AllTrimmed(s[..a]) && AllTrimmed(s[a + |r|..])
  {
    var a := LeadLen(s);
    var t := s[a..];
    var k := KeepLen(t);
    assert t[k..] == s[a + k..];
    assert k > 0 ==> t[..k][0] == s[a];
    t[..k]
  }

  /** Every `\n` and every `\r` replaced by a `\n` followed by `depth` tabs. */
  function Reindent(s: string, depth: nat): string
  {
    if |s| == 0 then ""
    else if IsBreak(s[0]) then "\n" + Tabs(depth) + Reindent(s[1..], depth)
    else [s[0]] + Reindent(s[1..], depth)
  }

  /** Every `\n` and every `\r` replaced by a space. */
  function Flatten(s: string): string
  {
    if |s| == 0 then ""
    else [if IsBreak(s[0]) then ' ' else s[0]] + Flatten(s[1..])
  }

  function CountBreaks(s: string): nat
  {
    if |s| == 0 then 0 else (if IsBreak(s[0]) then 1 else 0) + CountBreaks(s[1..])
  }

  predicate HasBreak(s: string)
  {
    exists i :: 0 <= i < |s| && IsBreak(s[i])
  }

  lemma {:induction false} ReindentAppend(a: string, b: string, depth: nat)
    ensures Reindent(a + b, depth) == Reindent(a, depth) + Reindent(b, depth)
  {
    if |a| > 0 {
      assert (a + b)[1..] == a[1..] + b;
      ReindentAppend(a[1..], b, depth);
    } else {
      assert a + b == b;
    }
  }

  /** Text without a line break is left exactly as it is. */
  lemma {:induction false} ReindentNoBreak(s: string, depth: nat)
    requires !HasBreak(s)
    ensures Reindent(s, depth) == s
  {
    if |s| > 0 {
      assert !IsBreak(s[0]);
      assert !HasBreak(s[1..]) by {
        forall i | 0 <= i < |s[1..]| ensures !IsBreak(s[1..][i]) { assert s[1..][i] == s[i + 1]; }
      }
      ReindentNoBreak(s[1..], depth);
      assert s == [s[0]] + s[1..];
    }
  }

  /** Each break of the input (a `\r\n` pair counts as two) grows the text by
      `depth` characters, and no `\r` survives. */
  lemma {:induction false} ReindentShape(s: string, depth: nat)
    ensures |Reindent(s, depth)| == |s| + CountBreaks(s) * depth
    ensures forall i :: 0 <= i < |Reindent(s, depth)| ==> Reindent(s, depth)[i] != '\r'
  {
    if |s| > 0 {
      ReindentShape(s[1..], depth);
    }
  }

  lemma SliceLeft(a: string, b: string, lo: nat, hi: nat)
    requires lo <= hi <= |a|
    ensures (a + b)[lo..hi] == a[lo..hi]
  {
  }

  lemma SliceRight(a: string, b: string, lo: nat, hi: nat)
    requires |a| <= lo <= hi <= |a| + |b|
    ensures (a + b)[lo..hi] == b[lo - |a|..hi - |a|]
  {
  }

  /** The first character's replacement, then the rest re-indented. */
  function ReindentHead(c: char, depth: nat): string
  {
    if IsBreak(c) then "\n" + Tabs(depth) else [c]
  }

  lemma ReindentUnfold(s: string, depth: nat)
    requires |s| > 0
    ensures Reindent(s, depth) == ReindentHead(s[0], depth) + Reindent(s[1..], depth)
  {
  }

  /** The first character's replacement opens with the line break or the character
      itself, and continues with tabs only. */
  lemma HeadChars(c: char, depth: nat, rest: string)
    ensures (ReindentHead(c, depth) + rest)[0] == if IsBreak(c) then '\n' else c
    ensures forall k :: 0 < k < |ReindentHead(c, depth)| ==> (ReindentHead(c, depth) + rest)[k] == '\t'
  {
    var head := ReindentHead(c, depth);
    forall k | 0 < k < |head| ensures (head + rest)[k] == '\t' {
      assert (head + rest)[k] == Tabs(depth)[k - 1];
    }
  }

  /** A line break inside the first character's replacement can only be the one
      it opens with, and the tabs follow it. */
  lemma HeadIndents(c: char, depth: nat, rest: string, i: nat)
    requires i < |ReindentHead(c, depth)| && (ReindentHead(c, depth) + rest)[i] == '\n'
    ensures i + 1 + depth <= |ReindentHead(c, depth) + rest|
    ensures (ReindentHead(c, depth) + rest)[i + 1..i + 1 + depth] == Tabs(depth)
  {
    HeadChars(c, depth, rest);
    var head := ReindentHead(c, depth);
    assert i == 0 && IsBreak(c);
    SliceLeft(head, rest, 1, 1 + depth);
    assert head[1..1 + depth] == Tabs(depth);
  }

  /** Tabs that follow a position of the tail follow the shifted position of the
      whole text. */
  lemma TailIndents(head: string, rest: string, depth: nat, i: nat)
    requires |head| <= i && i - |head| + 1 + depth <= |rest|
    requires rest[i - |head| + 1..i - |head| + 1 + depth] == Tabs(depth)
    ensures i + 1 + depth <= |head + rest|
    ensures (head + rest)[i + 1..i + 1 + depth] == Tabs(depth)
  {
    SliceRight(head, rest, i + 1, i + 1 + depth);
  }

  /** Every `\n` of the result is followed by at least `depth` tabs: continuation
      lines start at the requested indentation. */
  lemma {:induction false} ReindentIndents(s: string, depth: nat, i: nat)
    requires i < |Reindent(s, depth)| && Reindent(s, depth)[i] == '\n'
    ensures i + 1 + depth <= |Reindent(s, depth)|
    ensures Reindent(s, depth)[i + 1..i + 1 + depth] == Tabs(depth)
  {
    var r := Reindent(s, depth);
    ReindentUnfold(s, depth);
    var head := ReindentHead(s[0], depth);
    var rest := Reindent(s[1..], depth);
    assert r == head + rest;
    if i < |head| {
      HeadIndents(s[0], depth, rest, i);
    } else {
      var j := i - |head|;
      assert rest[j] == r[i];
      ReindentIndents(s[1..], depth, j);
      TailIndents(head, rest, depth, i);
    }
    assert r[i + 1..i + 1 + depth] == Tabs(depth);
  }

  /** Flattening keeps the length and every non-break character, and leaves no
      line break behind. */
  lemma {:induction false} FlattenShape(s: string)
    ensures |Flatten(s)| == |s|
    ensures forall i :: 0 <= i < |s| ==> Flatten(s)[i] == if IsBreak(s[i]) then ' ' else s[i]
    ensures !HasBreak(Flatten(s))
  {
    if |s| > 0 {
      FlattenShape(s[1..]);
      var r := Flatten(s);
      assert forall i :: 1 <= i < |s| ==> r[i] == Flatten(s[1..])[i - 1];
    }
  }

  /** The number of occurrences of `c` in `s`. */
  function Count(s: string, c: char): nat
  {
    if |s| == 0 then 0 else (if s[0] == c then 1 else 0) + Count(s[1..], c)
  }

  lemma {:induction false} CountAppend(a: string, b: string, c: char)
    ensures Count(a + b, c) == Count(a, c) + Count(b, c)
  {
    if |a| > 0 {
      assert (a + b)[1..] == a[1..] + b;
      CountAppend(a[1..], b, c);
    } else {
      assert a + b == b;
    }
  }

  lemma {:induction false} CountAbsent(s: string, c: char)
    requires c !in s
    ensures Count(s, c) == 0
  {
    if |s| > 0 {
      assert s[0] != c;
      assert c !in s[1..] by {
        forall i | 0 <= i < |s[1..]| ensures s[1..][i] != c { assert s[1..][i] == s[i + 1]; }
      }
      CountAbsent(s[1..], c);
    }
  }

  /** The concatenation of `parts`, in order: what a loop appending each part to an
      accumulator produces. */
  function Join(parts: seq<string>): string
  {
    if |parts| == 0 then "" else Join(parts[..|parts| - 1]) + parts[|parts| - 1]
  }

  lemma JoinStep(parts: seq<string>, i: nat)
    requires i < |parts|
    ensures Join(parts[..i + 1]) == Join(parts[..i]) + parts[i]
  {
    assert parts[..i + 1][..i] == parts[..i];
  }

  lemma {:induction false} JoinPrefix(parts: seq<string>, i: nat)
    requires i <= |parts|
    ensures |Join(parts[..i])| <= |Join(parts)|
    ensures Join(parts)[..|Join(parts[..i])|] == Join(parts[..i])
  {
    assert parts[..|parts|] == parts;
    if i < |parts| {
      var n := |parts| - 1;
      assert parts[..n][..i] == parts[..i];
      JoinPrefix(parts[..n], i);
    }
  }

  /** Part `i` stands, unchanged, between the text of the parts before it and the
      text of the parts after it. */
  lemma JoinPartAt(parts: seq<string>, i: nat)
    requires i < |parts|
    ensures |Join(parts[..i])| + |parts[i]| <= |Join(parts)|
    ensures Join(parts)[|Join(parts[..i])|..|Join(parts[..i])| + |parts[i]|] == parts[i]
  {
    JoinPrefix(parts, i + 1);
    JoinStep(parts, i);
    var w := Join(parts);
    var lo := |Join(parts[..i])|;
    assert w[..lo + |parts[i]|] == Join(parts[..i]) + parts[i];
    assert w[lo..lo + |parts[i]|] == w[..lo + |parts[i]|][lo..];
  }

  lemma {:induction false} JoinAppend(a: seq<string>, b: seq<string>)
    ensures Join(a + b) == Join(a) + Join(b)
  {
    if |b| == 0 {
      assert a + b == a;
    } else {
      var n := |b| - 1;
      assert (a + b)[..|a + b| - 1] == a + b[..n];
      JoinAppend(a, b[..n]);
    }
  }
}

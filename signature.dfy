/**
 * The argument list of a method directive, `name(args)`, as both revisions build
 * it: one loop over the arguments that appends a separator, an opening bracket for
 * an optional argument, the name and the default, under a `first` flag.
 */
module Signature {
  import opened DocTree
  import opened Strings

  /** An argument is optional when its default value has a non-zero length; a
      default of "0" counts. */
  predicate IsOptional(a: Argument)
  {
    |a.default| > 0
  }

  /** What one iteration of the loop appends: `" "` unless first, `"["` if optional,
      `", "` unless first, the name, and `" = default]"` if optional. */
  function ArgPiece(a: Argument, first: bool): string
  {
    (if first then "" else " ")
    + (if IsOptional(a) then "[" else "")
    + (if first then "" else ", ")
    + a.name
    + (if IsOptional(a) then " = " + a.default + "]" else "")
  }

  /** The argument list after the loop has seen every argument of `args`. */
  function ArgList(args: seq<Argument>): string
  {
    if |args| == 0 then ""
    else ArgList(args[..|args| - 1]) + ArgPiece(args[|args| - 1], |args| == 1)
  }

  /** The five appends of one iteration, one after the other, append the piece. */
  lemma PieceSteps(a: Argument, first: bool, s0: string, s1: string, s2: string, s3: string, s4: string, s5: string)
    requires s1 == s0 + (if first then "" else " ")
    requires s2 == s1 + (if IsOptional(a) then "[" else "")
    requires s3 == s2 + (if first then "" else ", ")
    requires s4 == s3 + a.name
    requires s5 == s4 + (if IsOptional(a) then " = " + a.default + "]" else "")
    ensures s5 == s0 + ArgPiece(a, first)
  {
  }

  /** The loop of `formatMethod` that builds `$args`. */
  method FormatArgs(args: seq<Argument>) returns (s: string)
    ensures s == ArgList(args)
  {
    s := "";
    var first := true;
    var i := 0;
    while i < |args|
      invariant 0 <= i <= |args|
      invariant first == (i == 0)
      invariant s == ArgList(args[..i])
    {
      ghost var before := s;
      var default := args[i].default;
      if !first { s := s + " "; }
      ghost var s1 := s;
      if |default| > 0 { s := s + "["; }
      ghost var s2 := s;
      if !first { s := s + ", "; }
      ghost var s3 := s;
      s := s + args[i].name;
      ghost var s4 := s;
      if |default| > 0 { s := s + " = " + default + "]"; }
      PieceSteps(args[i], first, before, s1, s2, s3, s4, s);
      first := false;
      assert args[..i + 1][..i] == args[..i];
      i := i + 1;
    }
    assert args[..i] == args;
  }

  /** The list is empty exactly when there are no arguments, or a single mandatory
      argument whose name is empty. */
  lemma ArgListEmpty(args: seq<Argument>)
    ensures ArgList(args) == "" <==>
            |args| == 0 || (|args| == 1 && args[0].name == "" && !IsOptional(args[0]))
  {
    if |args| >= 2 {
      var p := ArgPiece(args[|args| - 1], false);
      assert p[0] == ' ';
    } else if |args| == 1 {
      assert args[..0] == [];
    }
  }

  lemma {:induction false} ArgListPrefix(args: seq<Argument>, i: nat)
    requires i <= |args|
    ensures |ArgList(args[..i])| <= |ArgList(args)|
    ensures ArgList(args)[..|ArgList(args[..i])|] == ArgList(args[..i])
  {
    assert args[..|args|] == args;
    if i < |args| {
      var n := |args| - 1;
      assert args[..n][..i] == args[..i];
      ArgListPrefix(args[..n], i);
      assert ArgList(args) == ArgList(args[..n]) + ArgPiece(args[n], |args| == 1);
    }
  }

  /** What precedes an argument's name within its piece: `" "` unless first, `"["`
      if optional, `", "` unless first. */
  function Separator(a: Argument, first: bool): string
  {
    (if first then "" else " ") + (if IsOptional(a) then "[" else "") + (if first then "" else ", ")
  }

  /** Where argument `i`'s name starts: after the text of the earlier arguments and
      its separator. */
  function NameOffset(args: seq<Argument>, i: nat): nat
    requires i < |args|
  {
    |ArgList(args[..i])| + |Separator(args[i], i == 0)|
  }

  /** Argument `i` occupies its own piece of the list, in declaration order. */
  lemma PieceAt(args: seq<Argument>, i: nat)
    requires i < |args|
    ensures |ArgList(args[..i])| <= |ArgList(args[..i + 1])| <= |ArgList(args)|
    ensures ArgList(args)[|ArgList(args[..i])|..|ArgList(args[..i + 1])|] == ArgPiece(args[i], i == 0)
  {
    ArgListPrefix(args, i + 1);
    assert args[..i + 1][..i] == args[..i];
    assert ArgList(args[..i + 1]) == ArgList(args[..i]) + ArgPiece(args[i], i == 0);
    assert ArgList(args)[..|ArgList(args[..i + 1])|] == ArgList(args[..i + 1]);
  }

  lemma SliceParts(w: string, lo: nat, hi: nat, a: string, b: string, c: string)
    requires lo <= hi <= |w| && w[lo..hi] == a + b + c
    ensures lo + |a| + |b| <= |w|
    ensures w[lo..lo + |a|] == a && w[lo + |a|..lo + |a| + |b|] == b
  {
    assert w[lo..lo + |a|] == w[lo..hi][..|a|];
    assert hi - lo == |a| + |b| + |c|;
    forall k | 0 <= k < |b| ensures w[lo + |a| + k] == b[k] {
      assert w[lo..hi][|a| + k] == (a + b + c)[|a| + k];
    }
  }

  /** `piece` stands in `w` starting at position `at`. */
  predicate StandsAt(w: string, at: nat, piece: string)
  {
    at + |piece| <= |w| && w[at..at + |piece|] == piece
  }

  /** Each argument's name appears at its offset, preceded by `" , "` or, when
      optional, `" [, "` for a later argument, and by nothing or `"["` for the first. */
  lemma NameAt(args: seq<Argument>, i: nat)
    requires i < |args|
    ensures StandsAt(ArgList(args), |ArgList(args[..i])|, Separator(args[i], i == 0))
    ensures StandsAt(ArgList(args), NameOffset(args, i), args[i].name)
  {
    PieceAt(args, i);
    PieceName(ArgList(args), |ArgList(args[..i])|, |ArgList(args[..i + 1])|, args[i], i == 0);
  }

  /** Within a piece standing at `lo..hi`, the separator comes first and the name
      right after it. */
  lemma PieceName(w: string, lo: nat, hi: nat, a: Argument, first: bool)
    requires lo <= hi <= |w| && w[lo..hi] == ArgPiece(a, first)
    ensures StandsAt(w, lo, Separator(a, first))
    ensures StandsAt(w, lo + |Separator(a, first)|, a.name)
  {
    var tail := if IsOptional(a) then " = " + a.default + "]" else "";
    assert ArgPiece(a, first) == Separator(a, first) + a.name + tail;
    SliceParts(w, lo, hi, Separator(a, first), a.name, tail);
  }

  /** The names follow declaration order and do not overlap: each one ends within
      its own piece, before the next argument's name starts. */
  lemma NamesInOrder(args: seq<Argument>, i: nat)
    requires i + 1 < |args|
    ensures NameOffset(args, i) + |args[i].name| < NameOffset(args, i + 1)
  {
    PieceAt(args, i);
    assert |ArgList(args[..i + 1])| == |ArgList(args[..i])| + |ArgPiece(args[i], i == 0)| by {
      assert args[..i + 1][..i] == args[..i];
    }
  }

  /** Under the given condition that no name or default contains `[`, the list holds
      exactly one `[` per optional argument. */
  function CountOptional(args: seq<Argument>): nat
  {
    if |args| == 0 then 0
    else CountOptional(args[..|args| - 1]) + (if IsOptional(args[|args| - 1]) then 1 else 0)
  }

  /** One piece holds a `[` exactly when its argument is optional. */
  lemma PieceBrackets(a: Argument, first: bool)
    requires '[' !in a.name && '[' !in a.default
    ensures Count(ArgPiece(a, first), '[') == if IsOptional(a) then 1 else 0
  {
    var p1 := if first then "" else " ";
    var p2 := if IsOptional(a) then "[" else "";
    var p3 := if first then "" else ", ";
    var p5 := if IsOptional(a) then " = " + a.default + "]" else "";
    assert ArgPiece(a, first) == p1 + p2 + p3 + a.name + p5;
    CountAppend(p1 + p2 + p3 + a.name, p5, '[');
    CountAppend(p1 + p2 + p3, a.name, '[');
    CountAppend(p1 + p2, p3, '[');
    CountAppend(p1, p2, '[');
    CountAbsent(p1, '[');
    CountAbsent(p3, '[');
    CountAbsent(a.name, '[');
    CountAbsent(p5, '[');
    if IsOptional(a) {
      assert Count(p2, '[') == 1;
    } else {
      CountAbsent(p2, '[');
    }
  }

  lemma {:induction false} BracketsCountOptional(args: seq<Argument>)
    requires forall a :: a in args ==> '[' !in a.name && '[' !in a.default
    ensures Count(ArgList(args), '[') == CountOptional(args)
  {
    if |args| > 0 {
      var n := |args| - 1;
      var a := args[n];
      assert forall b :: b in args[..n] ==> b in args;
      BracketsCountOptional(args[..n]);
      assert a in args;
      PieceBrackets(a, n == 0);
      CountAppend(ArgList(args[..n]), ArgPiece(a, n == 0), '[');
    }
  }

  /** Two arguments with a mandatory first: `x , y` or `x [, y = d]`. */
  lemma TwoArguments(x: Argument, y: Argument)
    requires !IsOptional(x)
    ensures ArgList([x, y]) == x.name + (if IsOptional(y) then " [, " + y.name + " = " + y.default + "]"
                                          else " , " + y.name)
  {
    assert [x, y][..1] == [x];
    assert [x][..0] == [];
    assert ArgList([x]) == ArgPiece(x, true) == x.name;
    assert ArgList([x, y]) == x.name + ArgPiece(y, false);
  }
}

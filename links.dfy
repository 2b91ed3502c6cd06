/**
 * The newer revision's description formatter: trim, re-indent line breaks, then
 * rewrite `{@link ...}` references with three regular-expression replacements tried
 * in a fixed order (attribute, method, class).
 *
 * Each replacement is a left-to-right scan that, at each position, either matches
 * its pattern (and resumes after the match) or copies one character. The patterns'
 * greedy classes `[^}:]+` and `[^}]+` can only match their longest run, so the
 * matchers below take those runs directly.
 */
module Links {
  import opened DocTree
  import opened Strings

  const Marker: string := "{@link "

  /** A reference opens at position `i` of `s`. */
  predicate MarkerAt(s: string, i: int)
  {
    0 <= i && i + |Marker| <= |s| && s[i..i + |Marker|] == Marker
  }

  /** `s` contains the opening `{@link ` of a reference somewhere. */
  predicate HasMarker(s: string)
  {
    exists i :: 0 <= i <= |s| && MarkerAt(s, i)
  }

  predicate NoBrace(s: string)
  {
    forall i :: 0 <= i < |s| ==> s[i] != '}'
  }

  predicate NoBraceColon(s: string)
  {
    forall i :: 0 <= i < |s| ==> s[i] != '}' && s[i] != ':'
  }

  /** The longest prefix of `s` that `[^}]+` can take. */
  function RunNoBrace(s: string): (n: nat)
    ensures n <= |s| && NoBrace(s[..n])
    ensures n == |s| || s[n] == '}'
  {
    if |s| == 0 || s[0] == '}' then 0
    else
      var n := RunNoBrace(s[1..]);
      assert s[..n + 1] == [s[0]] + s[1..][..n];
      n + 1
  }

  /** The longest prefix of `s` that `[^}:]+` can take. */
  function RunNoBraceColon(s: string): (n: nat)
    ensures n <= |s| && NoBraceColon(s[..n])
    ensures n == |s| || s[n] == '}' || s[n] == ':'
  {
    if |s| == 0 || s[0] == '}' || s[0] == ':' then 0
    else
      var n := RunNoBraceColon(s[1..]);
      assert s[..n + 1] == [s[0]] + s[1..][..n];
      n + 1
  }

  /** A match at the start of the text: the captured groups and the matched length. */
  datatype Match = Match(owner: string, member: string, len: nat)

  /** `{@link ([^}:]+)::([^}]+)(\(\))?}` at the start of `s`. The optional `()` group is
      always empty: `[^}]+` has already taken any parentheses before the `}`. */
  function MethodMatch(s: string): (r: Option<Match>)
    ensures r.Some? ==> 0 < r.value.len <= |s|
    ensures r.Some? ==> |r.value.owner| > 0 && NoBraceColon(r.value.owner)
                        && |r.value.member| > 0 && NoBrace(r.value.member)
  {
    if !StartsWith(s, Marker) then None
    else
      var t := s[|Marker|..];
      var a := RunNoBraceColon(t);
      if a == 0 || !StartsWith(t[a..], "::") then None
      else
        var u := t[a + 2..];
        var b := RunNoBrace(u);
        if b == 0 || b == |u| then None
        else Some(Match(t[..a], u[..b], |Marker| + a + 2 + b + 1))
  }

  /** A method match covers exactly the marker, the owner, `::`, the member and `}`. */
  lemma MethodMatchSpells(s: string)
    ensures MethodMatch(s).Some? ==>
              s[..MethodMatch(s).value.len]
              == Marker + MethodMatch(s).value.owner + "::" + MethodMatch(s).value.member + "}"
  {
    if MethodMatch(s).Some? {
      var t := s[|Marker|..];
      var a := RunNoBraceColon(t);
      var b := RunNoBrace(t[a + 2..]);
      MethodSlices(s, a, b);
    }
  }

  /** The text a method match covers, cut at the end of the owner run `a` and of
      the member run `b`. */
  lemma MethodSlices(s: string, a: nat, b: nat)
    requires StartsWith(s, Marker)
    requires a + 2 <= |s| - |Marker| && StartsWith(s[|Marker|..][a..], "::")
    requires b < |s[|Marker|..][a + 2..]| && s[|Marker|..][a + 2..][b] == '}'
    ensures var t := s[|Marker|..];
            s[..|Marker| + a + 2 + b + 1] == Marker + t[..a] + "::" + t[a + 2..][..b] + "}"
  {
    var t := s[|Marker|..];
    var u := t[a + 2..];
    assert s[..|Marker|] == Marker;
    assert t[a..a + 2] == "::" by { assert t[a..][..2] == t[a..a + 2]; }
    assert u[..b + 1] == u[..b] + [u[b]];
    assert t[..a + 2 + b + 1] == t[..a] + t[a..a + 2] + u[..b + 1];
    assert s[..|Marker| + a + 2 + b + 1] == s[..|Marker|] + t[..a + 2 + b + 1];
  }

  /** `{@link ([^}]+)}` at the start of `s`. */
  function ClassMatch(s: string): (r: Option<Match>)
    ensures r.Some? ==> 0 < r.value.len <= |s|
    ensures r.Some? ==> s[..r.value.len] == Marker + r.value.owner + "}" && r.value.member == ""
    ensures r.Some? ==> |r.value.owner| > 0 && NoBrace(r.value.owner)
  {
    if !StartsWith(s, Marker) then None
    else
      var t := s[|Marker|..];
      var b := RunNoBrace(t);
      if b == 0 || b == |t| then None
      else
        var len := |Marker| + b + 1;
        assert s[..|Marker|] == Marker;
        assert t[..b + 1] == t[..b] + [t[b]];
        assert s[..len] == s[..|Marker|] + t[..b + 1];
        Some(Match(t[..b], "", len))
  }

  /** The method-reference replacement, applied to every match from left to right. */
  function RewriteMethods(s: string): string
    decreases |s|
  {
    if |s| == 0 then ""
    else match MethodMatch(s)
      case Some(m) => ":php:meth:`" + m.owner + "::" + m.member + "()`" + RewriteMethods(s[m.len..])
      case None => [s[0]] + RewriteMethods(s[1..])
  }

  /** The class-reference replacement, applied to every match from left to right. */
  function RewriteClasses(s: string): string
    decreases |s|
  {
    if |s| == 0 then ""
    else match ClassMatch(s)
      case Some(m) => ":php:class:`" + m.owner + "`" + RewriteClasses(s[m.len..])
      case None => [s[0]] + RewriteClasses(s[1..])
  }

  /** PCRE's `$` without the multi-line flag: the end of the text, or just before a
      final newline. */
  predicate EndAnchorAt(s: string, p: int)
  {
    p == |s| || (0 <= p && p + 1 == |s| && s[p] == '\n')
  }

  /** `{@link ([^}:]+)::$([^}]+)}` matching `s[i..e]`, with the first group ending at
      `a`: the attribute pattern as written, its `$` an end anchor. */
  predicate AttributeMatch(s: string, i: nat, a: nat, e: nat)
  {
    && i + |Marker| < a && a + 2 < e - 1 && e <= |s|
    && s[i..i + |Marker|] == Marker
    && NoBraceColon(s[i + |Marker|..a])
    && s[a..a + 2] == "::"
    && EndAnchorAt(s, a + 2)
    && NoBrace(s[a + 2..e - 1])
    && s[e - 1] == '}'
  }

  /** The attribute replacement never fires: after `::` the anchor demands the end
      of the text, yet `[^}]+}` still needs two more characters. So it is the identity
      and `FormatDescription` goes straight to the method replacement. */
  lemma AttributeRuleNeverMatches(s: string, i: nat, a: nat, e: nat)
    ensures !AttributeMatch(s, i, a, e)
  {
  }

  /** `formatDescription($description, $indentation)` of the newer revision. */
  function FormatDescription(s: string, depth: nat): string
  {
    RewriteClasses(RewriteMethods(Reindent(Trim(s), depth)))
  }

  lemma NoMarkerTail(s: string)
    requires |s| > 0 && !HasMarker(s)
    ensures !HasMarker(s[1..]) && !StartsWith(s, Marker)
  {
    if HasMarker(s[1..]) {
      var i :| 0 <= i <= |s[1..]| && MarkerAt(s[1..], i);
      MarkerShift(s, i);
    }
    if StartsWith(s, Marker) {
      assert MarkerAt(s, 0);
    }
  }

  lemma MarkerShift(s: string, i: nat)
    requires |s| > 0 && MarkerAt(s[1..], i)
    ensures MarkerAt(s, i + 1)
  {
    var m := s[1..][i..i + |Marker|];
    forall k | 0 <= k < |Marker|
      ensures s[i + 1..i + 1 + |Marker|][k] == m[k]
    {
      assert s[1..][i + k] == s[i + 1 + k];
    }
    assert s[i + 1..i + 1 + |Marker|] == m;
  }

  /** Text without `{@link ` passes through both replacements unchanged. */
  lemma {:induction false} NoMarkerUnchanged(s: string)
    requires !HasMarker(s)
    ensures RewriteMethods(s) == s && RewriteClasses(s) == s
  {
    if |s| > 0 {
      NoMarkerTail(s);
      NoMarkerUnchanged(s[1..]);
      assert s == [s[0]] + s[1..];
    }
  }

  /** Formatting a description with no reference in it does no more than trim and
      re-indent. */
  lemma FormatWithoutLinks(s: string, depth: nat)
    requires !HasMarker(Reindent(Trim(s), depth))
    ensures FormatDescription(s, depth) == Reindent(Trim(s), depth)
  {
    NoMarkerUnchanged(Reindent(Trim(s), depth));
  }

  /** Without a `{`, no reference can start anywhere. */
  lemma NoOpenBraceNoMarker(s: string)
    requires '{' !in s
    ensures !HasMarker(s)
  {
    forall i | 0 <= i <= |s| ensures !MarkerAt(s, i) {
      if i + |Marker| <= |s| {
        assert s[i..i + |Marker|][0] == s[i];
      }
    }
  }

  lemma {:induction false} RunNoBraceColonOf(x: string, y: string)
    requires NoBraceColon(x) && |y| > 0 && (y[0] == '}' || y[0] == ':')
    ensures RunNoBraceColon(x + y) == |x|
  {
    if |x| > 0 {
      assert (x + y)[1..] == x[1..] + y;
      assert (x + y)[0] == x[0];
      RunNoBraceColonOf(x[1..], y);
    }
  }

  lemma {:induction false} RunNoBraceOf(x: string, y: string)
    requires NoBrace(x) && |y| > 0 && y[0] == '}'
    ensures RunNoBrace(x + y) == |x|
  {
    if |x| > 0 {
      assert (x + y)[1..] == x[1..] + y;
      assert (x + y)[0] == x[0];
      RunNoBraceOf(x[1..], y);
    }
  }

  /** The method pattern matches the whole of `{@link A::m}`. */
  lemma MethodMatchWhole(owner: string, member: string)
    requires |owner| > 0 && NoBraceColon(owner) && |member| > 0 && NoBrace(member)
    ensures MethodMatch(Marker + owner + "::" + member + "}")
            == Some(Match(owner, member, |Marker| + |owner| + 2 + |member| + 1))
  {
    var s := Marker + owner + "::" + member + "}";
    assert s + "" == s;
    MethodMatchFollowed(owner, member, "");
  }

  /** Whatever follows `{@link A::m}`, the method pattern matches just the reference. */
  lemma MethodMatchFollowed(owner: string, member: string, post: string)
    requires |owner| > 0 && NoBraceColon(owner) && |member| > 0 && NoBrace(member)
    ensures MethodMatch(Marker + owner + "::" + member + "}" + post)
            == Some(Match(owner, member, |Marker| + |owner| + 2 + |member| + 1))
  {
    var s := Marker + owner + "::" + member + "}" + post;
    var tail := "}" + post;
    assert StartsWith(s, Marker);
    assert s[|Marker|..] == owner + ("::" + (member + tail));
    MethodMatchAfterMarker(s, owner, member, tail);
  }

  /** The method pattern over a text that opens with the marker and continues with
      an owner run, `::`, a member run and a tail opening with `}`. */
  lemma MethodMatchAfterMarker(s: string, owner: string, member: string, tail: string)
    requires |owner| > 0 && NoBraceColon(owner) && |member| > 0 && NoBrace(member)
    requires |tail| > 0 && tail[0] == '}'
    requires StartsWith(s, Marker) && s[|Marker|..] == owner + ("::" + (member + tail))
    ensures MethodMatch(s) == Some(Match(owner, member, |Marker| + |owner| + 2 + |member| + 1))
  {
    AfterMarker(s[|Marker|..], owner, member, tail);
  }

  /** The runs of the method pattern over `A::m` and a tail opening with `}`. */
  lemma AfterMarker(t: string, owner: string, member: string, tail: string)
    requires NoBraceColon(owner) && NoBrace(member) && |tail| > 0 && tail[0] == '}'
    requires t == owner + ("::" + (member + tail))
    ensures RunNoBraceColon(t) == |owner| && StartsWith(t[|owner|..], "::")
    ensures RunNoBrace(t[|owner| + 2..]) == |member| < |t[|owner| + 2..]|
    ensures t[..|owner|] == owner && t[|owner| + 2..][..|member|] == member
  {
    RunNoBraceColonOf(owner, "::" + (member + tail));
    assert t[|owner|..] == "::" + (member + tail);
    var u := t[|owner| + 2..];
    assert u == member + tail;
    RunNoBraceOf(member, tail);
  }

  /** `{@link A::m}` becomes `:php:meth:`A::m()`` when `A` holds no `}` or `:` and
      `m` no `}`; the whole member text, whatever it is, gains `()`. */
  lemma MethodReference(owner: string, member: string)
    requires |owner| > 0 && NoBraceColon(owner) && |member| > 0 && NoBrace(member)
    ensures RewriteClasses(RewriteMethods(Marker + owner + "::" + member + "}"))
            == ":php:meth:`" + owner + "::" + member + "()`"
  {
    var s := Marker + owner + "::" + member + "}";
    MethodMatchWhole(owner, member);
    var out := ":php:meth:`" + owner + "::" + member + "()`";
    assert RewriteMethods(s) == out by {
      assert s[|s|..] == "";
    }
    NoCloseBraceJoin(":php:meth:`", owner, "::", member, "()`");
    WithoutCloseBraceUnchanged(out);
  }

  lemma NoCloseBraceJoin(a: string, b: string, c: string, d: string, e: string)
    requires '}' !in a && NoBrace(b) && '}' !in c && NoBrace(d) && '}' !in e
    ensures '}' !in a + b + c + d + e
  {
    var w := a + b + c + d + e;
    forall k | 0 <= k < |w| ensures w[k] != '}' {
      if k < |a| + |b| + |c| + |d| {
        if k >= |a| && k < |a| + |b| { assert w[k] == b[k - |a|]; }
        if k >= |a| + |b| + |c| && k < |a| + |b| + |c| + |d| { assert w[k] == d[k - |a| - |b| - |c|]; }
      }
    }
  }

  /** A reference to a field, `{@link A::$f}`, is not turned into an attribute
      reference (that rule never fires) but into a method reference `A::$f()`. */
  lemma FieldReferenceBecomesMethod(owner: string, field: string)
    requires |owner| > 0 && NoBraceColon(owner) && NoBrace(field)
    ensures RewriteClasses(RewriteMethods(Marker + owner + "::$" + field + "}"))
            == ":php:meth:`" + owner + "::$" + field + "()`"
  {
    FieldSpelling(owner, field);
    MethodReference(owner, "$" + field);
  }

  /** `A::$f` is the member `$f` after `::`. */
  lemma FieldSpelling(owner: string, field: string)
    requires NoBrace(field)
    ensures NoBrace("$" + field)
    ensures Marker + owner + "::$" + field + "}" == Marker + owner + "::" + ("$" + field) + "}"
    ensures ":php:meth:`" + owner + "::$" + field + "()`" == ":php:meth:`" + owner + "::" + ("$" + field) + "()`"
  {
    var m := "$" + field;
    forall i | 0 <= i < |m| ensures m[i] != '}' {
      if i > 0 { assert m[i] == field[i - 1]; }
    }
  }

  /** `{@link A::m()}` keeps its parentheses and gains a second pair: `A::m()()`. */
  lemma CallReferenceDoublesParens(owner: string, callee: string)
    requires |owner| > 0 && NoBraceColon(owner) && NoBrace(callee)
    ensures RewriteClasses(RewriteMethods(Marker + owner + "::" + callee + "()}"))
            == ":php:meth:`" + owner + "::" + callee + "()()`"
  {
    CallSpelling(owner, callee);
    MethodReference(owner, callee + "()");
  }

  /** `A::m()` is the member `m()` after `::`. */
  lemma CallSpelling(owner: string, callee: string)
    requires NoBrace(callee)
    ensures NoBrace(callee + "()")
    ensures Marker + owner + "::" + callee + "()}" == Marker + owner + "::" + (callee + "()") + "}"
    ensures ":php:meth:`" + owner + "::" + callee + "()()`" == ":php:meth:`" + owner + "::" + (callee + "()") + "()`"
  {
    var m := callee + "()";
    forall i | 0 <= i < |m| ensures m[i] != '}' {
      if i < |callee| { assert m[i] == callee[i]; }
    }
  }

  predicate HasDoubleColon(s: string)
  {
    exists i :: 0 <= i < |s| - 1 && s[i] == ':' && s[i + 1] == ':'
  }

  /** The method pattern does not match `{@link X}` when `X` has no `::`. */
  lemma NoMethodMatchWithoutColons(name: string)
    requires NoBrace(name) && !HasDoubleColon(name)
    ensures MethodMatch(Marker + name + "}") == None
  {
    var s := Marker + name + "}";
    var t := s[|Marker|..];
    assert t == name + "}";
    assert t[|name|] == '}';
    var a := RunNoBraceColon(t);
    if a < |t| && t[a] == ':' {
      assert a < |name|;
      if a + 1 < |name| {
        assert !(name[a] == ':' && name[a + 1] == ':');
        assert t[a + 1] == name[a + 1];
      } else {
        assert t[a + 1] == '}';
      }
    }
  }

  /** The class pattern matches the whole of `{@link X}`. */
  lemma ClassMatchWhole(name: string)
    requires |name| > 0 && NoBrace(name)
    ensures ClassMatch(Marker + name + "}") == Some(Match(name, "", |Marker| + |name| + 1))
  {
    assert Marker + name + "}" + "" == Marker + name + "}";
    ClassMatchFollowed(name, "");
  }

  /** Whatever follows `{@link X}`, the class pattern matches just the reference. */
  lemma ClassMatchFollowed(name: string, post: string)
    requires |name| > 0 && NoBrace(name)
    ensures ClassMatch(Marker + name + "}" + post) == Some(Match(name, "", |Marker| + |name| + 1))
  {
    var s := Marker + name + "}" + post;
    assert StartsWith(s, Marker);
    var t := s[|Marker|..];
    assert t == name + ("}" + post);
    RunNoBraceOf(name, "}" + post);
    assert t[..|name|] == name;
  }

  /** Where the method pattern does not match, one character is copied, so a text
      whose tail is left alone is left alone. */
  lemma MethodsMissStep(s: string)
    requires |s| > 0 && MethodMatch(s).None? && RewriteMethods(s[1..]) == s[1..]
    ensures RewriteMethods(s) == s
  {
    ConsEq(s, RewriteMethods(s), RewriteMethods(s[1..]));
  }

  /** The same for the class pattern. */
  lemma ClassesMissStep(s: string)
    requires |s| > 0 && ClassMatch(s).None? && RewriteClasses(s[1..]) == s[1..]
    ensures RewriteClasses(s) == s
  {
    ConsEq(s, RewriteClasses(s), RewriteClasses(s[1..]));
  }

  /** Where the method pattern does not match, the replacement copies one character. */
  lemma MethodsCopyStep(s: string)
    requires |s| > 0 && MethodMatch(s).None?
    ensures RewriteMethods(s) == [s[0]] + RewriteMethods(s[1..])
  {
  }

  /** The same for the class pattern. */
  lemma ClassesCopyStep(s: string)
    requires |s| > 0 && ClassMatch(s).None?
    ensures RewriteClasses(s) == [s[0]] + RewriteClasses(s[1..])
  {
  }

  lemma ConsEq(s: string, r: string, tail: string)
    requires |s| > 0 && r == [s[0]] + tail && tail == s[1..]
    ensures r == s
  {
    assert s == [s[0]] + s[1..];
  }

  /** Every match of either pattern ends with `}`. */
  lemma MatchesCloseWithBrace(s: string)
    ensures MethodMatch(s).Some? ==> '}' in s
    ensures ClassMatch(s).Some? ==> '}' in s
  {
    MethodMatchSpells(s);
    if MethodMatch(s).Some? {
      var m := MethodMatch(s).value;
      var w := Marker + m.owner + "::" + m.member + "}";
      assert s[..m.len] == w && w[|w| - 1] == '}';
      assert s[m.len - 1] == '}';
    }
    if ClassMatch(s).Some? {
      var m := ClassMatch(s).value;
      var w := Marker + m.owner + "}";
      assert s[..m.len] == w && w[|w| - 1] == '}';
      assert s[m.len - 1] == '}';
    }
  }

  /** A character of the tail is a character of the text. */
  lemma CharTail(s: string, c: char)
    requires |s| > 0
    ensures c in s[1..] ==> c in s
  {
    if c in s[1..] {
      var k :| 0 <= k < |s[1..]| && s[1..][k] == c;
      assert s[k + 1] == c;
    }
  }

  /** Text without `}` holds no complete reference, so both replacements leave it
      alone: an unclosed `{@link ` passes through as it is. */
  lemma {:induction false} WithoutCloseBraceUnchanged(s: string)
    requires '}' !in s
    ensures RewriteMethods(s) == s && RewriteClasses(s) == s
  {
    if |s| > 0 {
      MatchesCloseWithBrace(s);
      CharTail(s, '}');
      WithoutCloseBraceUnchanged(s[1..]);
      MethodsMissStep(s);
      ClassesMissStep(s);
    }
  }

  /** A method match has `::` right after its owner. */
  lemma MethodMatchHasColons(s: string)
    ensures MethodMatch(s).Some? ==> HasDoubleColon(s)
  {
    MethodMatchSpells(s);
    if MethodMatch(s).Some? {
      var m := MethodMatch(s).value;
      var i := |Marker| + |m.owner|;
      var w := Marker + m.owner + "::" + m.member + "}";
      assert s[..m.len] == w && w[i] == ':' && w[i + 1] == ':';
      assert s[i] == ':' && s[i + 1] == ':';
    }
  }

  lemma DoubleColonTail(s: string)
    requires |s| > 0
    ensures HasDoubleColon(s[1..]) ==> HasDoubleColon(s)
  {
    if HasDoubleColon(s[1..]) {
      var i :| 0 <= i < |s[1..]| - 1 && s[1..][i] == ':' && s[1..][i + 1] == ':';
      assert s[i + 1] == ':' && s[i + 2] == ':';
    }
  }

  /** Text without `::` is left alone by the method replacement, wherever its
      `{@link ` markers stand. */
  lemma {:induction false} WithoutDoubleColonMethodsUnchanged(s: string)
    requires !HasDoubleColon(s)
    ensures RewriteMethods(s) == s
  {
    if |s| > 0 {
      MethodMatchHasColons(s);
      DoubleColonTail(s);
      WithoutDoubleColonMethodsUnchanged(s[1..]);
      MethodsMissStep(s);
    }
  }

  /** `{@link X}` has `::` only where `X` does: the marker and `}` hold no colon. */
  lemma ReferenceColons(name: string)
    ensures HasDoubleColon(Marker + name + "}") ==> HasDoubleColon(name)
  {
    var s := Marker + name + "}";
    if HasDoubleColon(s) {
      var i :| 0 <= i < |s| - 1 && s[i] == ':' && s[i + 1] == ':';
      assert forall k :: 0 <= k < |Marker| ==> s[k] == Marker[k];
      assert forall k :: 0 <= k < |Marker| ==> Marker[k] != ':';
      assert |Marker| <= i;
      assert s[|s| - 1] == '}';
      assert name[i - |Marker|] == s[i] && name[i + 1 - |Marker|] == s[i + 1];
    }
  }

  /** `{@link X}` without `::` is left alone by the method replacement. */
  lemma MethodsSkipClassReference(name: string)
    requires |name| > 0 && NoBrace(name) && !HasDoubleColon(name)
    ensures RewriteMethods(Marker + name + "}") == Marker + name + "}"
  {
    ReferenceColons(name);
    WithoutDoubleColonMethodsUnchanged(Marker + name + "}");
  }

  /** `{@link X}` without `::` becomes `:php:class:`X``. */
  lemma ClassReference(name: string)
    requires |name| > 0 && NoBrace(name) && !HasDoubleColon(name)
    ensures RewriteClasses(RewriteMethods(Marker + name + "}")) == ":php:class:`" + name + "`"
  {
    var s := Marker + name + "}";
    MethodsSkipClassReference(name);
    ClassMatchWhole(name);
    assert s[|s|..] == "";
    assert RewriteClasses(s) == ":php:class:`" + name + "`" + RewriteClasses("");
  }

  /** A text starting with the marker starts with `{`. */
  lemma MarkerOpensWithBrace(s: string)
    ensures StartsWith(s, Marker) ==> s[0] == '{'
  {
    if StartsWith(s, Marker) {
      assert s[..|Marker|][0] == s[0];
    }
  }

  lemma ConsPrefix(pre: string, r: string)
    requires |pre| > 0
    ensures [pre[0]] + (pre[1..] + r) == pre + r
  {
    assert pre == [pre[0]] + pre[1..];
  }

  /** Text without `{` before the first reference is copied as it is by the method
      replacement: no match can start inside it. */
  lemma {:induction false} MethodsSkipPrefix(pre: string, x: string)
    requires '{' !in pre
    ensures RewriteMethods(pre + x) == pre + RewriteMethods(x)
  {
    if |pre| > 0 {
      var s := pre + x;
      MarkerOpensWithBrace(s);
      assert s[0] == pre[0] && pre[0] in pre && s[1..] == pre[1..] + x;
      assert MethodMatch(s).None?;
      MethodsCopyStep(s);
      CharTail(pre, '{');
      MethodsSkipPrefix(pre[1..], x);
      ConsPrefix(pre, RewriteMethods(x));
    } else {
      assert pre + x == x && pre + RewriteMethods(x) == RewriteMethods(x);
    }
  }

  /** The same for the class replacement. */
  lemma {:induction false} ClassesSkipPrefix(pre: string, x: string)
    requires '{' !in pre
    ensures RewriteClasses(pre + x) == pre + RewriteClasses(x)
  {
    if |pre| > 0 {
      var s := pre + x;
      MarkerOpensWithBrace(s);
      assert s[0] == pre[0] && pre[0] in pre && s[1..] == pre[1..] + x;
      assert ClassMatch(s).None?;
      ClassesCopyStep(s);
      CharTail(pre, '{');
      ClassesSkipPrefix(pre[1..], x);
      ConsPrefix(pre, RewriteClasses(x));
    } else {
      assert pre + x == x && pre + RewriteClasses(x) == RewriteClasses(x);
    }
  }

  /** A method reference inside a text: what comes before it (holding no `{`) is
      copied, the reference is replaced, and the scan resumes right after its `}`. */
  lemma MethodReferenceIn(pre: string, owner: string, member: string, post: string)
    requires '{' !in pre
    requires |owner| > 0 && NoBraceColon(owner) && |member| > 0 && NoBrace(member)
    ensures RewriteMethods(pre + (Marker + owner + "::" + member + "}") + post)
            == pre + (":php:meth:`" + owner + "::" + member + "()`") + RewriteMethods(post)
  {
    var ref := Marker + owner + "::" + member + "}";
    var out := ":php:meth:`" + owner + "::" + member + "()`";
    Associate(pre, ref, post);
    MethodsSkipPrefix(pre, ref + post);
    MethodReferenceThen(owner, member, post);
    Associate(pre, out, RewriteMethods(post));
  }

  /** A method reference at the start of a text is replaced, and the scan resumes
      right after its `}`. */
  lemma MethodReferenceThen(owner: string, member: string, post: string)
    requires |owner| > 0 && NoBraceColon(owner) && |member| > 0 && NoBrace(member)
    ensures RewriteMethods(Marker + owner + "::" + member + "}" + post)
            == ":php:meth:`" + owner + "::" + member + "()`" + RewriteMethods(post)
  {
    var ref := Marker + owner + "::" + member + "}";
    MethodMatchFollowed(owner, member, post);
    assert (ref + post)[|ref|..] == post;
  }

  /** A class reference inside a text, likewise for the class replacement. */
  lemma ClassReferenceIn(pre: string, name: string, post: string)
    requires '{' !in pre
    requires |name| > 0 && NoBrace(name)
    ensures RewriteClasses(pre + (Marker + name + "}") + post)
            == pre + (":php:class:`" + name + "`") + RewriteClasses(post)
  {
    var ref := Marker + name + "}";
    var out := ":php:class:`" + name + "`";
    Associate(pre, ref, post);
    ClassesSkipPrefix(pre, ref + post);
    ClassReferenceThen(name, post);
    Associate(pre, out, RewriteClasses(post));
  }

  /** A class reference at the start of a text is replaced, and the scan resumes
      right after its `}`. */
  lemma ClassReferenceThen(name: string, post: string)
    requires |name| > 0 && NoBrace(name)
    ensures RewriteClasses(Marker + name + "}" + post) == ":php:class:`" + name + "`" + RewriteClasses(post)
  {
    var ref := Marker + name + "}";
    ClassMatchFollowed(name, post);
    assert (ref + post)[|ref|..] == post;
  }
}

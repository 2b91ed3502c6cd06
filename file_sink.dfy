/**
 * The path arithmetic of `file_force_contents`: the path is exploded on `/`, the
 * last piece is the file name, and a directory string grows by `"/$part"` for each
 * remaining piece, each step being created when it is not yet a directory; the file
 * is then written to `"$dir/$file"`.
 */
module FileSink {

  /** PHP's `explode('/', s)`: the pieces between the slashes, at least one. */
  function Explode(s: string): (r: seq<string>)
    ensures |r| >= 1
  {
    if |s| == 0 then [""]
    else
      var parts := Explode(s[..|s| - 1]);
      if s[|s| - 1] == '/' then parts + [""]
      else parts[..|parts| - 1] + [parts[|parts| - 1] + [s[|s| - 1]]]
  }

  /** PHP's `implode('/', parts)`. */
  function Implode(parts: seq<string>): string
    requires |parts| >= 1
  {
    if |parts| == 1 then parts[0] else Implode(parts[..|parts| - 1]) + "/" + parts[|parts| - 1]
  }

  /** Extending the last piece by a character extends the joined text by it. */
  lemma ImplodeExtendLast(parts: seq<string>, c: char)
    requires |parts| >= 1
    ensures Implode(parts[..|parts| - 1] + [parts[|parts| - 1] + [c]]) == Implode(parts) + [c]
  {
    var n := |parts| - 1;
    var q := parts[..n] + [parts[n] + [c]];
    if n > 0 {
      assert q[..n] == parts[..n];
      assert Implode(q) == Implode(parts[..n]) + "/" + (parts[n] + [c]);
    }
  }

  /** Appending a slash opens an empty piece; any other character extends the last
      piece. */
  lemma ExplodeSnoc(t: string, c: char)
    ensures c == '/' ==> Explode(t + [c]) == Explode(t) + [""]
    ensures c != '/' ==> Explode(t + [c]) == Explode(t)[..|Explode(t)| - 1] + [Explode(t)[|Explode(t)| - 1] + [c]]
  {
    assert (t + [c])[..|t|] == t;
  }

  lemma ImplodeOpenPiece(parts: seq<string>)
    requires |parts| >= 1
    ensures Implode(parts + [""]) == Implode(parts) + "/"
  {
    assert (parts + [""])[..|parts|] == parts;
  }

  /** Exploding loses nothing: joining the pieces back gives the path. */
  lemma {:induction false} ImplodeExplode(s: string)
    ensures Implode(Explode(s)) == s
  {
    if |s| > 0 {
      var t := s[..|s| - 1];
      var c := s[|s| - 1];
      assert s == t + [c];
      ImplodeExplode(t);
      ExplodeSnoc(t, c);
      if c == '/' {
        ImplodeOpenPiece(Explode(t));
      } else {
        ImplodeExtendLast(Explode(t), c);
      }
    }
  }

  /** No piece holds a slash. */
  lemma {:induction false} ExplodeNoSlash(s: string)
    ensures forall i :: 0 <= i < |Explode(s)| ==> '/' !in Explode(s)[i]
  {
    if |s| > 0 {
      var t := s[..|s| - 1];
      ExplodeNoSlash(t);
      var parts := Explode(t);
      var n := |parts| - 1;
      if s[|s| - 1] != '/' {
        var q := parts[..n] + [parts[n] + [s[|s| - 1]]];
        forall i | 0 <= i < |q| ensures '/' !in q[i] {
          if i < n {
            assert q[i] == parts[i];
          }
        }
      }
    }
  }

  /** The directory string after the loop has appended `"/$part"` for every piece. */
  function Slashed(parts: seq<string>): string
  {
    if |parts| == 0 then "" else Slashed(parts[..|parts| - 1]) + "/" + parts[|parts| - 1]
  }

  lemma {:induction false} SlashedImplode(parts: seq<string>)
    requires |parts| >= 1
    ensures Slashed(parts) == "/" + Implode(parts)
  {
    if |parts| > 1 {
      SlashedImplode(parts[..|parts| - 1]);
    } else {
      assert parts[..0] == [];
    }
  }

  /** The pieces the loop walks: all but the file name. */
  function DirParts(path: string): seq<string>
  {
    Explode(path)[..|Explode(path)| - 1]
  }

  function FilePart(path: string): string
  {
    Explode(path)[|Explode(path)| - 1]
  }

  /** `"$dir/$file"` once the loop is done. */
  function WriteTarget(path: string): string
  {
    Slashed(DirParts(path)) + "/" + FilePart(path)
  }

  /** The file is written to the path with one more slash in front: an absolute
      path `/out/x.rst` is written as `//out/x.rst`, a relative `out/x.rst` as
      `/out/x.rst`. */
  lemma WriteTargetRooted(path: string)
    ensures WriteTarget(path) == "/" + path
  {
    var parts := Explode(path);
    assert parts[..|parts| - 1] + [parts[|parts| - 1]] == parts;
    assert WriteTarget(path) == Slashed(parts);
    SlashedImplode(parts);
    ImplodeExplode(path);
  }

  /** The directories the loop visits, one per piece walked. */
  function Visited(parts: seq<string>): set<string>
  {
    if |parts| == 0 then {} else Visited(parts[..|parts| - 1]) + {Slashed(parts)}
  }

  /** `"/" + path[..k]` for every slash at position `k`. */
  function SlashPrefixes(path: string): set<string>
  {
    set k | 0 <= k < |path| && path[k] == '/' :: "/" + path[..k]
  }

  /** Appending a character adds a prefix exactly when the character is a slash. */
  lemma SlashPrefixesSnoc(t: string, c: char)
    ensures SlashPrefixes(t + [c]) == SlashPrefixes(t) + (if c == '/' then {"/" + t} else {})
  {
    var path := t + [c];
    assert forall k :: 0 <= k < |t| ==> path[k] == t[k] && path[..k] == t[..k];
    assert path[..|t|] == t;
  }

  /** Appending a character: a slash closes the last piece, which the loop then
      walks; any other character extends the file name. */
  lemma DirPartsSnoc(t: string, c: char)
    ensures DirParts(t + [c]) == if c == '/' then Explode(t) else DirParts(t)
  {
    var path := t + [c];
    assert path[..|path| - 1] == t;
    var parts := Explode(t);
    var n := |parts| - 1;
    if c == '/' {
      assert (parts + [""])[..|parts|] == parts;
    } else {
      var q := parts[..n] + [parts[n] + [c]];
      assert q[..n] == parts[..n];
    }
  }

  /** The loop visits exactly the rooted prefixes of the path that end just before
      one of its slashes. */
  lemma {:induction false} VisitedAreSlashPrefixes(path: string)
    ensures Visited(DirParts(path)) == SlashPrefixes(path)
  {
    if |path| > 0 {
      var t := path[..|path| - 1];
      var c := path[|path| - 1];
      assert path == t + [c];
      VisitedAreSlashPrefixes(t);
      DirPartsSnoc(t, c);
      SlashPrefixesSnoc(t, c);
      if c == '/' {
        var parts := Explode(t);
        assert parts[..|parts| - 1] == DirParts(t);
        SlashedImplode(parts);
        ImplodeExplode(t);
      }
    } else {
      assert DirParts(path) == [];
    }
  }
}
